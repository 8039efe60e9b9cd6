/**
 What the link reads out of a byte stream. The parsing loop of the link is compared with a reference
 parser that drops one byte at a time until a packet starts; from this follows that the way the
 stream is cut into chunks is invisible, and that a stream of encoded packets is read back exactly.
 */
module LinkParsing {
  import opened ByteStrings
  import opened LinkCodec
  import opened LinkMachine
  import opened Framing

  datatype Packet = Packet(header: Header, payload: Bytes)

  const MAX_READ: nat := 65536

  /**
   The link apart from its buffer and from the time of the next SYN, the only thing that reading takes from the clock.
   */
  function Core(s: Link): Link { s.(buffer := [], nextSyn := 0) }

  /**
   The reference parser. It has no clock, never looks past the packet it takes, and takes nothing once the link is dead.
   */
  function ParseStep(s: Link, tx: Transport, b: Bytes): Step<Link, Packet> {
    if s.phase == Dead then Wait
    else if |b| >= 1 && b[0] != 0xff then Take(1, s, [])
    else if |b| >= 2 && b[1] != 0x5a then Take(1, s, [])
    else if |b| < 9 then Wait
    else match DecodeHeader(b[..9])
      case None => Take(1, s, [])
      case Some(h) =>
        if h.length > s.lsp.maxLen then Take(1, s.(phase := Dead), [])
        else if |b| < h.length then Wait
        else
          var body := b[9..h.length];
          if body != [] && !ValidChecksum(body) then Take(h.length, s, [])
          else
            Take(h.length, Core(Handle(s, tx, 0, h, PayloadOf(body))), [Packet(h, PayloadOf(body))])
  }

  function Parser(tx: Transport): (Link, Bytes) -> Step<Link, Packet> {
    (s, b) => ParseStep(s, tx, b)
  }

  lemma {:induction false} ParserPrefixed(tx: Transport)
    ensures Prefixed(Parser(tx))
  {
    forall s, b, later: Bytes | ParseStep(s, tx, b).Take?
      ensures ParseStep(s, tx, b + later) == ParseStep(s, tx, b)
    {
      if |b| >= 9 {
        assert (b + later)[..9] == b[..9];
        var header := DecodeHeader(b[..9]);
        if header.Some? && header.value.length <= |b| {
          assert (b + later)[9..header.value.length] == b[9..header.value.length];
        }
      }
    }
  }

  // ----- The loop of the link against the reference -----

  /**
   The link `r` behaves like the reference result `d`: what it sent and delivered, its core, and its leftover up to
   leading garbage.
   */
  ghost predicate Matches(r: Link, d: Drained<Link, Packet>, tx: Transport) {
    if d.state.phase == Dead then
      r.phase == Dead && r.attempts == d.state.attempts && r.delivered == d.state.delivered
    else
      Core(r) == d.state && |r.buffer| < 65535 && Drain(Parser(tx), d.state, r.buffer) == Drained(d.state, [], d.rest)
  }

  lemma {:induction false} GarbageByte(s: Link, tx: Transport, b: Bytes)
    requires s.phase != Dead && b != [] && b[0] != 0xff
    ensures Drain(Parser(tx), s, b) == Drain(Parser(tx), s, b[1..])
  {
    hide DecodeHeader, Handle;
  }

  lemma {:induction false} SkipGarbage(s: Link, tx: Transport, b: Bytes, k: nat)
    requires k <= |b| && s.phase != Dead
    requires forall j :: 0 <= j < k ==> b[j] != 0xff
    ensures Drain(Parser(tx), s, b) == Drain(Parser(tx), s, b[k..])
  {
    hide Drain, Parser;
    if k > 0 {
      GarbageByte(s, tx, b);
      SkipGarbage(s, tx, b[1..], k - 1);
      assert b[1..][k - 1..] == b[k..];
    } else {
      assert b[0..] == b;
    }
  }

  lemma {:induction false} NothingToParse(s: Link, tx: Transport, b: Bytes)
    ensures b == [] || s.phase == Dead ==> Drain(Parser(tx), s, b) == Drained(s, [], b)
  {}

  lemma {:induction false} ShortBufferQuiet(s: Link, tx: Transport, b: Bytes)
    requires |b| < 9
    ensures Drain(Parser(tx), s, b).state == s && Drain(Parser(tx), s, b).messages == []
    decreases |b|
  {
    if ParseStep(s, tx, b).Take? {
      ShortBufferQuiet(s, tx, b[1..]);
    }
  }

  lemma {:induction false} DeadHandle(s: Link, tx: Transport, now: int, h: Header, payload: Bytes)
    requires s.phase == Dead
    ensures var t := Handle(s, tx, now, h, payload);
            t.phase == Dead && t.attempts == s.attempts && t.delivered == s.delivered
  {}

  lemma {:induction false} DeadSilent(s: Link, tx: Transport, now: int)
    requires s.phase == Dead
    ensures var t := Process(s, tx, now);
            t.phase == Dead && t.attempts == s.attempts && t.delivered == s.delivered
    decreases |s.buffer|, 1
  {
    if |s.buffer| >= 9 {
      var start := SyncIndex(s.buffer);
      if start == |s.buffer| - 1 {
      } else if s.buffer[start + 1] != 0x5a {
        DeadSilent(s.(buffer := s.buffer[start + 1..]), tx, now);
      } else if |s.buffer| - start >= 9 {
        DeadSilentAt(s.(buffer := s.buffer[start..]), tx, now);
      }
    }
  }

  lemma {:induction false} DeadSilentAt(s: Link, tx: Transport, now: int)
    requires s.phase == Dead && |s.buffer| >= 9
    ensures var t := ProcessAt(s, tx, now);
            t.phase == Dead && t.attempts == s.attempts && t.delivered == s.delivered
    decreases |s.buffer|, 0
  {
    match DecodeHeader(s.buffer[..9])
    case None => DeadSilent(s.(buffer := s.buffer[1..]), tx, now);
    case Some(h) =>
      if h.length <= s.lsp.maxLen && h.length <= |s.buffer| {
        var body, rest := s.buffer[9..h.length], s.(buffer := s.buffer[h.length..]);
        if body != [] && !ValidChecksum(body) {
          DeadSilent(rest, tx, now);
        } else {
          DeadHandle(rest, tx, now, h, PayloadOf(body));
          DeadSilent(Handle(rest, tx, now, h, PayloadOf(body)), tx, now);
        }
      }
  }

  lemma {:induction false} WriteCore(
    s: Link, tx: Transport, payload: Bytes, sequence: Byte, control: Byte, session: Byte)
    ensures Core(WritePacket(s, tx, payload, sequence, control, session))
         == Core(WritePacket(Core(s), tx, payload, sequence, control, session))
  {
    assert EncodePacket(s, payload, sequence, control, session) ==
           EncodePacket(Core(s), payload, sequence, control, session);
  }

  lemma {:induction false} SynCore(s: Link, tx: Transport, now: int, acknowledgePeer: bool)
    ensures Core(SendSyn(s, tx, now, acknowledgePeer)) == Core(SendSyn(Core(s), tx, 0, acknowledgePeer))
  {
    if s.phase == Negotiate {
      var t := WithSyn(s);
      var control := CONTROL_SYN + if acknowledgePeer then CONTROL_ACK else 0;
      WriteCore(t, tx, EncodeLsp(s.lsp), t.synSequence, control, 0);
    }
  }

  lemma {:induction false} HandleSynCore(s: Link, tx: Transport, now: int, h: Header, payload: Bytes)
    ensures Core(HandleSyn(s, tx, now, h, payload)) == Core(HandleSyn(Core(s), tx, 0, h, payload))
  {
    hide SendSyn, WritePacket, Clamped, DecodeLsp;
    WriteCore(s, tx, [], s.sent, CONTROL_ACK, 0);
    if DecodeLsp(payload).Some? {
      var lsp := Clamped(DecodeLsp(payload).value);
      var t := s.(lsp := lsp, controlSession := ControlSessionOf(lsp.sessions, s.controlSession),
                  lastValid := true, last := h.sequence);
      SynCore(t, tx, now, true);
    }
  }

  lemma {:induction false} HandleDataCore(s: Link, tx: Transport, h: Header, payload: Bytes)
    ensures Core(HandleData(s, tx, h, payload)) == Core(HandleData(Core(s), tx, h, payload))
  {
    hide WritePacket;
    WriteCore(s, tx, [], s.sent, CONTROL_ACK, 0);
    var t := s.(lastValid := true, last := h.sequence,
                delivered := if h.sessionId == s.controlSession then s.delivered + [payload] else s.delivered);
    WriteCore(t, tx, [], t.sent, CONTROL_ACK, 0);
  }

  /** Handling a packet looks at the buffer only to throw it away on a reset, which kills the link. */
  lemma {:induction false} HandleCore(s: Link, tx: Transport, now: int, h: Header, payload: Bytes)
    ensures var t := Handle(s, tx, now, h, payload);
            && Core(t) == Core(Handle(Core(s), tx, 0, h, payload))
            && t.buffer == (if HasRst(h.control) then [] else s.buffer)
            && (HasRst(h.control) ==> t.phase == Dead)
  {
    hide HandleSyn, HandleData, HasRst, HasAck, HasSyn, AcknowledgedBy, Unacknowledged;
    if !HasRst(h.control) {
      var t := if HasAck(h.control) then s.(pending := Unacknowledged(s.pending, h.acknowledgement)) else s;
      HandleSynCore(t, tx, now, h, payload);
      HandleDataCore(t, tx, h, payload);
    }
  }

  /** A buffer too short for a header is left alone by the link and drained only of garbage by the reference. */
  lemma {:induction false} ShortMatches(s: Link, tx: Transport, b: Bytes)
    requires s.phase != Dead && |b| < 9
    ensures Matches(s.(buffer := b), Drain(Parser(tx), Core(s), b), tx)
  {
    ShortBufferQuiet(Core(s), tx, b);
  }

  /** Where the loop of the link goes on. */
  lemma {:induction false} ProcessTurn(s: Link, tx: Transport, now: int)
    requires |s.buffer| >= 9
    ensures var b, start := s.buffer, SyncIndex(s.buffer);
            Process(s, tx, now) ==
            if start == |b| - 1 || (b[start + 1] == 0x5a && |b| - start < 9) then s.(buffer := b[start..])
            else if b[start + 1] != 0x5a then Process(s.(buffer := b[start + 1..]), tx, now)
            else ProcessAt(s.(buffer := b[start..]), tx, now)
  {}

  lemma {:induction false} FalseStart(s: Link, tx: Transport, b: Bytes)
    requires s.phase != Dead && |b| >= 2 && b[1] != 0x5a
    ensures Drain(Parser(tx), s, b) == Drain(Parser(tx), s, b[1..])
  {
    hide DecodeHeader, Handle;
  }

  lemma {:induction false} ProcessMatches(s: Link, tx: Transport, now: int)
    requires s.phase != Dead
    ensures Matches(Process(s, tx, now), Drain(Parser(tx), Core(s), s.buffer), tx)
    decreases |s.buffer|, 1
  {
    hide Process, ProcessAt, Matches, Parser, Drain;
    var b := s.buffer;
    if |b| < 9 {
      ShortProcess(s, tx, now);
      ShortMatches(s, tx, b);
    } else {
      var start := SyncIndex(b);
      ProcessTurn(s, tx, now);
      SkipGarbage(Core(s), tx, b, start);
      if start == |b| - 1 || (b[start + 1] == 0x5a && |b| - start < 9) {
        ShortMatches(s, tx, b[start..]);
      } else if b[start + 1] != 0x5a {
        FalseStart(Core(s), tx, b[start..]);
        assert b[start..][1..] == b[start + 1..];
        ProcessMatches(s.(buffer := b[start + 1..]), tx, now);
      } else {
        ProcessAtMatches(s.(buffer := b[start..]), tx, now);
      }
    }
  }

  lemma {:induction false} ShortProcess(s: Link, tx: Transport, now: int)
    requires |s.buffer| < 9
    ensures Process(s, tx, now) == s
  {}

  /** What the reference does with a start of packet at the front, short of a packet that is handled. */
  lemma {:induction false} ReferenceTurn(s: Link, tx: Transport, b: Bytes)
    requires s.phase != Dead && |b| >= 9 && b[0] == 0xff && b[1] == 0x5a
    ensures var d := Drain(Parser(tx), s, b);
            match DecodeHeader(b[..9])
            case None => d == Drain(Parser(tx), s, b[1..])
            case Some(h) =>
              if h.length > s.lsp.maxLen then d.state == s.(phase := Dead)
              else if |b| < h.length then d == Drained(s, [], b)
              else b[9..h.length] != [] && !ValidChecksum(b[9..h.length]) ==> d == Drain(Parser(tx), s, b[h.length..])
  {
    hide DecodeHeader, ValidChecksum, Handle;
    NothingToParse(s.(phase := Dead), tx, b[1..]);
  }

  lemma {:induction false} ProcessAtMatches(s: Link, tx: Transport, now: int)
    requires s.phase != Dead && |s.buffer| >= 9 && s.buffer[0] == 0xff && s.buffer[1] == 0x5a
    ensures Matches(ProcessAt(s, tx, now), Drain(Parser(tx), Core(s), s.buffer), tx)
    decreases |s.buffer|, 0
  {
    hide Handle, Process, Parser, ValidChecksum;
    var b := s.buffer;
    ReferenceTurn(Core(s), tx, b);
    match DecodeHeader(b[..9])
    case None =>
      ProcessMatches(s.(buffer := b[1..]), tx, now);
    case Some(h) =>
      if h.length <= s.lsp.maxLen && h.length <= |b| {
        var body, rest := b[9..h.length], s.(buffer := b[h.length..]);
        if body != [] && !ValidChecksum(body) {
          ProcessMatches(rest, tx, now);
        } else {
          HandleMatches(s, tx, now, h);
          var u := Handle(rest, tx, now, h, PayloadOf(body));
          if u.phase == Dead {
            DeadSilent(u, tx, now);
          } else {
            ProcessMatches(u, tx, now);
          }
        }
      }
  }

  lemma {:induction false} HandleMatches(s: Link, tx: Transport, now: int, h: Header)
    requires s.phase != Dead && |s.buffer| >= 9 && s.buffer[0] == 0xff && s.buffer[1] == 0x5a
    requires DecodeHeader(s.buffer[..9]) == Some(h) && h.length <= s.lsp.maxLen && h.length <= |s.buffer|
    requires var body := s.buffer[9..h.length]; body == [] || ValidChecksum(body)
    ensures var body, rest := s.buffer[9..h.length], s.buffer[h.length..];
            var u := Handle(s.(buffer := rest), tx, now, h, PayloadOf(body));
            var d := Drain(Parser(tx), Core(u), rest);
            && Drain(Parser(tx), Core(s), s.buffer) == d.(messages := [Packet(h, PayloadOf(body))] + d.messages)
            && (u.phase != Dead ==> u.buffer == rest)
            && (u.phase == Dead ==> d.state == Core(u))
  {
    hide Handle;
    var p, b, core := Parser(tx), s.buffer, Core(s);
    var body, rest := b[9..h.length], b[h.length..];
    var payload := PayloadOf(body);
    HandleCore(s.(buffer := rest), tx, now, h, payload);
    assert Core(s.(buffer := rest)) == core;
    assert p(core, b) == Take(h.length, Core(Handle(core, tx, 0, h, payload)), [Packet(h, payload)]);
  }

  // ----- Cutting the stream into reads -----

  /** One read of the socket, at its own time. */
  datatype Read = Read(now: int, bytes: Bytes)

  function ReceiveAll(s: Link, tx: Transport, chunks: seq<Read>): Link
    decreases |chunks|
  {
    if |chunks| == 0 then s else ReceiveAll(Receive(s, tx, chunks[0].now, chunks[0].bytes), tx, chunks[1..])
  }

  /** All bytes read. */
  function Stream(chunks: seq<Read>): Bytes {
    if |chunks| == 0 then [] else chunks[0].bytes + Stream(chunks[1..])
  }

  ghost predicate SmallReads(chunks: seq<Read>) {
    forall r <- chunks :: |r.bytes| <= MAX_READ
  }

  lemma {:induction false} StreamFirst(before: Bytes, chunks: seq<Read>)
    requires |chunks| > 0
    ensures before + Stream(chunks) == (before + chunks[0].bytes) + Stream(chunks[1..])
  {}

  lemma {:induction false} StreamNone(before: Bytes)
    ensures before + Stream([]) == before
  {}

  /** `r` is a link past detection that behaves like the reference that has read `stream` from core `c`. */
  ghost predicate InStep(r: Link, tx: Transport, c: Link, stream: Bytes) {
    r.phase != Detect && Matches(r, Drain(Parser(tx), c, stream), tx)
  }

  /**
   One more read keeps an established link in step with the reference fed the longer stream; no small read ever
   overflows.
   */
  lemma {:induction false} ReceiveMatches(s: Link, tx: Transport, now: int, c: Link, stream: Bytes, read: Bytes)
    requires InStep(s, tx, c, stream) && |read| <= MAX_READ
    ensures InStep(Receive(s, tx, now, read), tx, c, stream + read)
  {
    hide Process, Parser, Drain;
    var p := Parser(tx);
    var d := Drain(p, c, stream);
    ParserPrefixed(tx);
    DrainAppend(p, c, stream, read);
    var t := s.(buffer := s.buffer + read);
    if s.phase == Dead {
      NothingToParse(d.state, tx, d.rest + read);
      DeadSilent(t, tx, now);
    } else {
      ProcessMatches(t, tx, now);
      assert Core(t) == Core(s);
      DrainAppend(p, Core(s), s.buffer, read);
      var next := Drain(p, c, stream + read);
      var mine := Drain(p, Core(s), s.buffer + read);
      assert mine.state == next.state && mine.rest == next.rest;
    }
  }

  lemma {:induction false} EstablishedReads(s: Link, tx: Transport, c: Link, stream: Bytes, chunks: seq<Read>)
    requires InStep(s, tx, c, stream) && SmallReads(chunks)
    ensures InStep(ReceiveAll(s, tx, chunks), tx, c, stream + Stream(chunks))
    decreases |chunks|
  {
    hide InStep, Receive, Stream;
    if chunks == [] {
      StreamNone(stream);
    } else {
      StreamFirst(stream, chunks);
      ReceiveMatches(s, tx, chunks[0].now, c, stream, chunks[0].bytes);
      var r := Receive(s, tx, chunks[0].now, chunks[0].bytes);
      EstablishedReads(r, tx, c, stream + chunks[0].bytes, chunks[1..]);
    }
  }

  // ----- Waiting for the marker -----

  function Tail(bytes: Bytes, n: nat): Bytes {
    if |bytes| > n then bytes[|bytes| - n..] else bytes
  }

  lemma {:induction false} OccursInSuffix(pattern: Bytes, whole: Bytes, skipped: nat, k: nat)
    requires skipped <= |whole|
    ensures OccursAt(pattern, whole[skipped..], k) <==> OccursAt(pattern, whole, k + skipped)
  {
    if k + skipped + |pattern| <= |whole| {
      assert whole[skipped..][k..k + |pattern|] == whole[k + skipped..k + skipped + |pattern|];
    }
  }

  lemma {:induction false} FindSuffix(pattern: Bytes, whole: Bytes, skipped: nat)
    requires skipped <= |whole|
    requires Find(pattern, whole).Some? ==> Find(pattern, whole).value >= skipped
    ensures var found := Find(pattern, whole[skipped..]);
            Find(pattern, whole) == if found.None? then None else Some(found.value + skipped)
  {
    hide Find, OccursAt;
    var a, b := Find(pattern, whole[skipped..]), Find(pattern, whole);
    if b.Some? {
      FindOccurs(pattern, whole);
      OccursInSuffix(pattern, whole, skipped, b.value - skipped);
      FindFirst(pattern, whole[skipped..], b.value - skipped);
    }
    if a.Some? {
      FindOccurs(pattern, whole[skipped..]);
      OccursInSuffix(pattern, whole, skipped, a.value);
      FindFirst(pattern, whole, a.value + skipped);
    }
  }

  /** An occurrence that lies within the first part does not depend on the second. */
  lemma {:induction false} OccursWithin(pattern: Bytes, stream: Bytes, later: Bytes, k: nat)
    requires k + |pattern| <= |stream|
    ensures OccursAt(pattern, stream + later, k) <==> OccursAt(pattern, stream, k)
  {
    assert (stream + later)[k..k + |pattern|] == stream[k..k + |pattern|];
  }

  /** What is found within the first part is found there without the second. */
  lemma {:induction false} FoundWithin(pattern: Bytes, stream: Bytes, later: Bytes)
    requires Find(pattern, stream + later).Some? && Find(pattern, stream + later).value + |pattern| <= |stream|
    ensures Find(pattern, stream).Some? && Find(pattern, stream).value <= Find(pattern, stream + later).value
  {
    hide Find, OccursAt;
    var k := Find(pattern, stream + later).value;
    FindOccurs(pattern, stream + later);
    OccursWithin(pattern, stream, later, k);
    FindFirst(pattern, stream, k);
  }

  /** A marker in the longer stream is found at the same place when only the last five unmatched bytes were kept. */
  lemma {:induction false} MarkerAcrossReads(stream: Bytes, read: Bytes)
    requires Find(MARKER, stream).None?
    ensures var skipped, found := |stream| - |Tail(stream, 5)|, Find(MARKER, Tail(stream, 5) + read);
            Find(MARKER, stream + read) == if found.None? then None else Some(found.value + skipped)
  {
    hide Find, OccursAt;
    var skipped, found := |stream| - |Tail(stream, 5)|, Find(MARKER, stream + read);
    TailOfStream(stream, read);
    if found.Some? && found.value < skipped {
      FoundWithin(MARKER, stream, read);
    }
    FindSuffix(MARKER, stream + read, skipped);
  }

  lemma {:induction false} TailOfStream(stream: Bytes, read: Bytes)
    ensures (stream + read)[|stream| - |Tail(stream, 5)|..] == Tail(stream, 5) + read
  {}

  lemma {:induction false} FindStable(stream: Bytes, later: Bytes)
    requires Find(MARKER, stream).Some?
    ensures Find(MARKER, stream + later) == Find(MARKER, stream)
  {
    hide OccursAt;
    var i := Find(MARKER, stream).value;
    FindOccurs(MARKER, stream);
    OccursWithin(MARKER, stream, later, i);
    FindFirst(MARKER, stream + later, i);
    FoundWithin(MARKER, stream, later);
  }

  /** The core of the link right after a marker. */
  function AfterMarker(s: Link, tx: Transport): Link {
    Core(SendSyn(Core(s).(phase := Negotiate), tx, 0, false))
  }

  /** What a link `r` must have become once the detecting link `s` has seen `stream`. */
  ghost predicate Detected(s: Link, r: Link, tx: Transport, stream: Bytes) {
    match Find(MARKER, stream)
    case None => r == s.(buffer := Tail(stream, 5))
    case Some(i) => InStep(r, tx, AfterMarker(s, tx), stream[i + 6..])
  }

  /** From the marker on, the link follows the reference. */
  lemma {:induction false} MarkerFound(s: Link, tx: Transport, now: int, after: Bytes)
    requires s.phase == Detect
    ensures InStep(MeetPeer(s.(buffer := after, phase := Negotiate), tx, now), tx, AfterMarker(s, tx), after)
  {
    hide Process, SendSyn;
    var n := s.(buffer := after, phase := Negotiate);
    SynCore(n, tx, now, false);
    assert Core(n) == Core(s).(phase := Negotiate);
    var u := SendSyn(n, tx, now, false);
    assert u.buffer == after && Core(u) == AfterMarker(s, tx);
    if u.phase == Dead {
      DeadSilent(u, tx, now);
    } else {
      ProcessMatches(u, tx, now);
    }
  }

  lemma {:induction false} DetectedFound(s: Link, r: Link, tx: Transport, stream: Bytes, i: nat, after: Bytes)
    requires Find(MARKER, stream) == Some(i) && after == stream[i + 6..] && InStep(r, tx, AfterMarker(s, tx), after)
    ensures Detected(s, r, tx, stream)
  {
    hide InStep;
  }

  /** A detecting link's next read, before the marker and with it. */
  lemma {:induction false} NoMarkerYet(s: Link, tx: Transport, now: int, before: Bytes, read: Bytes)
    requires s.phase == Detect && |before| <= 5 && |read| <= MAX_READ && Find(MARKER, before + read).None?
    ensures Receive(s.(buffer := before), tx, now, read) == s.(buffer := Tail(before + read, 5))
  {}

  lemma {:induction false} MarkerNow(s: Link, tx: Transport, now: int, before: Bytes, read: Bytes, after: Bytes)
    requires s.phase == Detect && |before| <= 5 && |read| <= MAX_READ && Find(MARKER, before + read).Some?
    requires after == (before + read)[Find(MARKER, before + read).value + 6..]
    ensures Receive(s.(buffer := before), tx, now, read) ==
            MeetPeer(s.(buffer := after, phase := Negotiate), tx, now)
  {
    hide Process, SendSyn, MeetPeer, Find;
    SameStart(s, before + read, Find(MARKER, before + read).value, after);
  }

  lemma {:induction false} SameStart(s: Link, bytes: Bytes, i: nat, after: Bytes)
    requires i + 6 <= |bytes| && after == bytes[i + 6..]
    ensures var t := s.(buffer := bytes);
            t.(buffer := t.buffer[i + 6..], phase := Negotiate) == s.(buffer := after, phase := Negotiate)
  {}

  lemma {:induction false} DetectOne(s: Link, tx: Transport, now: int, stream: Bytes, read: Bytes)
    requires s.phase == Detect && Find(MARKER, stream).None? && |read| <= MAX_READ
    ensures Detected(s, Receive(s.(buffer := Tail(stream, 5)), tx, now, read), tx, stream + read)
  {
    hide InStep, Receive, MeetPeer, Find, AfterMarker;
    var before, skipped := Tail(stream, 5), |stream| - |Tail(stream, 5)|;
    MarkerAcrossReads(stream, read);
    var found := Find(MARKER, before + read);
    if found.None? {
      KeptIsSuffix(stream, read, 0, skipped);
      NoMarkerYet(s, tx, now, before, read);
    } else {
      var i := found.value + skipped;
      var after := (stream + read)[i + 6..];
      KeptIsSuffix(stream, read, found.value + 6, i + 6);
      MarkerNow(s, tx, now, before, read, after);
      MarkerFound(s, tx, now, after);
      DetectedFound(s, Receive(s.(buffer := before), tx, now, read), tx, stream + read, i, after);
    }
  }

  lemma {:induction false} KeptIsSuffix(stream: Bytes, read: Bytes, k: nat, j: nat)
    requires k <= |Tail(stream, 5) + read| && j == k + |stream| - |Tail(stream, 5)|
    ensures Tail(Tail(stream, 5) + read, 5) == Tail(stream + read, 5)
    ensures (Tail(stream, 5) + read)[k..] == (stream + read)[j..]
  {
    var kept, whole, skipped := Tail(stream, 5) + read, stream + read, |stream| - |Tail(stream, 5)|;
    assert kept == whole[skipped..];
    assert whole[skipped..][k..] == whole[k + skipped..];
    if |kept| > 5 {
      assert whole[skipped..][|kept| - 5..] == whole[|whole| - 5..];
    }
  }

  lemma {:induction false} DetectReads(s: Link, tx: Transport, stream: Bytes, chunks: seq<Read>)
    requires s.phase == Detect && Find(MARKER, stream).None? && SmallReads(chunks)
    ensures Detected(s, ReceiveAll(s.(buffer := Tail(stream, 5)), tx, chunks), tx, stream + Stream(chunks))
    decreases |chunks|
  {
    hide Receive, Stream, Find, InStep;
    if chunks == [] {
      StreamNone(stream);
    } else {
      StreamFirst(stream, chunks);
      var now, bytes := chunks[0].now, chunks[0].bytes;
      var longer := stream + bytes;
      var r := Receive(s.(buffer := Tail(stream, 5)), tx, now, bytes);
      DetectOne(s, tx, now, stream, bytes);
      if Find(MARKER, longer).None? {
        DetectReads(s, tx, longer, chunks[1..]);
      } else {
        DetectRest(s, r, tx, longer, chunks[1..]);
      }
    }
  }

  lemma {:induction false} DropAppend(a: Bytes, b: Bytes, k: nat)
    requires k <= |a|
    ensures (a + b)[k..] == a[k..] + b
  {}

  lemma {:induction false} DetectRest(s: Link, r: Link, tx: Transport, stream: Bytes, chunks: seq<Read>)
    requires s.phase == Detect && Find(MARKER, stream).Some? && Detected(s, r, tx, stream) && SmallReads(chunks)
    ensures Detected(s, ReceiveAll(r, tx, chunks), tx, stream + Stream(chunks))
  {
    hide InStep;
    var i, later, c := Find(MARKER, stream).value, Stream(chunks), AfterMarker(s, tx);
    FindStable(stream, later);
    DropAppend(stream, later, i + 6);
    EstablishedReads(r, tx, c, stream[i + 6..], chunks);
    DetectedFound(s, ReceiveAll(r, tx, chunks), tx, stream + later, i, stream[i + 6..] + later);
  }

  // ----- Main results -----

  /** Same phase, same frames to the transport, same payloads to the application; a living link has the same state. */
  ghost predicate SameBehaviour(a: Link, b: Link) {
    && a.phase == b.phase && a.attempts == b.attempts && a.delivered == b.delivered
    && (a.phase != Dead ==> Core(a) == Core(b))
  }

  /** Everything read so far, from the first byte on, is the stream the reference has seen. */
  lemma {:induction false} FromTheFirstByte(s: Link, tx: Transport, chunks: seq<Read>)
    requires s.buffer == [] && s.phase != Dead && SmallReads(chunks)
    ensures var r := ReceiveAll(s, tx, chunks);
            if s.phase == Detect then Detected(s, r, tx, Stream(chunks)) else InStep(r, tx, Core(s), Stream(chunks))
  {
    assert [] + Stream(chunks) == Stream(chunks);
    assert s == s.(buffer := Tail([], 5));
    if s.phase == Detect {
      DetectReads(s, tx, [], chunks);
    } else {
      EstablishedReads(s, tx, Core(s), [], chunks);
    }
  }

  /**
   However the same bytes are cut into reads of at most 64 KiB, and whenever those happen, the link behaves the same;
   only the time of its next SYN may differ.
   */
  lemma {:induction false} ChunkingInvisible(s: Link, tx: Transport, chunks: seq<Read>, other: seq<Read>)
    requires s.buffer == [] && s.phase != Dead
    requires SmallReads(chunks) && SmallReads(other) && Stream(chunks) == Stream(other)
    ensures SameBehaviour(ReceiveAll(s, tx, chunks), ReceiveAll(s, tx, other))
  {
    hide Stream, ReceiveAll, Parser, Drain, AfterMarker;
    FromTheFirstByte(s, tx, chunks);
    FromTheFirstByte(s, tx, other);
  }

  /** What the loop leaves in the buffer is less than a packet, whatever the phase. */
  lemma {:induction false} LittleLeft(s: Link, tx: Transport, now: int)
    ensures |Process(s, tx, now).buffer| < 65535
    decreases |s.buffer|, 1
  {
    hide Process, ProcessAt;
    if |s.buffer| < 9 {
      ShortProcess(s, tx, now);
    } else {
      ProcessTurn(s, tx, now);
      var start := SyncIndex(s.buffer);
      if s.buffer[start..] != [s.buffer[start]] && s.buffer[start + 1] != 0x5a {
        LittleLeft(s.(buffer := s.buffer[start + 1..]), tx, now);
      } else if |s.buffer| - start >= 9 {
        LittleLeftAt(s.(buffer := s.buffer[start..]), tx, now);
      }
    }
  }

  lemma {:induction false} LittleLeftAt(s: Link, tx: Transport, now: int)
    requires |s.buffer| >= 9
    ensures |ProcessAt(s, tx, now).buffer| < 65535
    decreases |s.buffer|, 0
  {
    hide Process, Handle;
    match DecodeHeader(s.buffer[..9])
    case None => LittleLeft(s.(buffer := s.buffer[1..]), tx, now);
    case Some(h) =>
      if h.length <= s.lsp.maxLen && h.length <= |s.buffer| {
        var body, rest := s.buffer[9..h.length], s.(buffer := s.buffer[h.length..]);
        if body != [] && !ValidChecksum(body) {
          LittleLeft(rest, tx, now);
        } else {
          LittleLeft(Handle(rest, tx, now, h, PayloadOf(body)), tx, now);
        }
      }
  }

  /** Reads of at most 64 KiB never take the overflow branch: there is always room for one more. */
  lemma {:induction false} ReadsNeverOverflow(s: Link, tx: Transport, chunks: seq<Read>)
    requires |s.buffer| < 65535 && SmallReads(chunks)
    ensures |ReceiveAll(s, tx, chunks).buffer| + MAX_READ <= MAX_RECEIVE_BUFFER
    decreases |chunks|
  {
    hide Process, SendSyn, Find;
    if |chunks| > 0 {
      var now, t := chunks[0].now, s.(buffer := s.buffer + chunks[0].bytes);
      assert chunks[0] in chunks;
      if t.phase != Detect {
        LittleLeft(t, tx, now);
      } else if Find(MARKER, t.buffer).Some? {
        var n := t.(buffer := t.buffer[Find(MARKER, t.buffer).value + 6..], phase := Negotiate);
        LittleLeft(SendSyn(n, tx, now, false), tx, now);
      }
      ReadsNeverOverflow(Receive(s, tx, now, chunks[0].bytes), tx, chunks[1..]);
    }
  }

  /** The header announces the length the packet really has. */
  ghost predicate WellSized(p: Packet) {
    p.header.length == if p.payload == [] then 9 else |p.payload| + 10
  }

  /** Every packet up to the death of the link fits the maximum in force when it arrives. */
  ghost predicate Fitting(s: Link, tx: Transport, packets: seq<Packet>)
    decreases |packets|
  {
    |packets| == 0 || s.phase == Dead ||
    (WellSized(packets[0]) && packets[0].header.length <= s.lsp.maxLen &&
     Fitting(Core(Handle(s, tx, 0, packets[0].header, packets[0].payload)), tx, packets[1..]))
  }

  function Frames(packets: seq<Packet>): seq<Bytes> {
    if packets == [] then [] else [PacketBytes(packets[0].header, packets[0].payload)] + Frames(packets[1..])
  }

  lemma {:induction false} PacketParsed(s: Link, tx: Transport, p: Packet, later: Bytes)
    requires s.phase != Dead && WellSized(p) && p.header.length <= s.lsp.maxLen
    ensures ParseStep(s, tx, PacketBytes(p.header, p.payload) + later)
         == Take(p.header.length, Core(Handle(s, tx, 0, p.header, p.payload)), [p])
    ensures |PacketBytes(p.header, p.payload)| == p.header.length
  {
    var frame := PacketBytes(p.header, p.payload);
    var b := frame + later;
    assert b[..9] == EncodeHeader(p.header);
    HeaderRoundTrip(p.header);
    assert b[0] == 0xff && b[1] == 0x5a;
    assert b[9..p.header.length] == frame[9..];
    if p.payload != [] {
      ChecksumCompletes(p.payload, Checksum(p.payload));
      assert frame[9..] == p.payload + [Checksum(p.payload)];
      assert PayloadOf(frame[9..]) == p.payload;
    }
  }

  /**
   Encoded packets in a row are handled one by one, with exactly their headers and payloads, until the link dies.
   */
  lemma {:induction false} FramesParsed(s: Link, tx: Transport, packets: seq<Packet>)
    requires Fitting(s, tx, packets)
    ensures var d := Drain(Parser(tx), s, Concat(Frames(packets)));
            && d.messages <= packets
            && (d.state.phase != Dead ==> d.messages == packets && d.rest == [])
    decreases |packets|
  {
    hide Handle, ParseStep, PacketBytes;
    NothingToParse(s, tx, Concat(Frames(packets)));
    if |packets| > 0 && s.phase != Dead {
      var p, later := packets[0], Concat(Frames(packets[1..]));
      var frame := PacketBytes(p.header, p.payload);
      var t := Core(Handle(s, tx, 0, p.header, p.payload));
      PacketParsed(s, tx, p, later);
      assert Concat(Frames(packets)) == frame + later;
      assert (frame + later)[p.header.length..] == later;
      FramesParsed(t, tx, packets[1..]);
      var d := Drain(Parser(tx), t, later);
      assert Drain(Parser(tx), s, frame + later) == d.(messages := [p] + d.messages);
      assert packets == [p] + packets[1..];
    }
  }

  /**
   The two together: encoded packets, cut anywhere, leave the link as handling the packets one after the other does.
   */
  lemma {:induction false} FramesInChunks(s: Link, tx: Transport, packets: seq<Packet>, chunks: seq<Read>)
    requires s.buffer == [] && s.phase != Dead && s.phase != Detect && Fitting(Core(s), tx, packets)
    requires SmallReads(chunks) && Stream(chunks) == Concat(Frames(packets))
    ensures var d := Drain(Parser(tx), Core(s), Concat(Frames(packets)));
            && Matches(ReceiveAll(s, tx, chunks), d, tx)
            && d.messages <= packets
            && (d.state.phase != Dead ==> d.messages == packets && d.rest == [])
  {
    FromTheFirstByte(s, tx, chunks);
    FramesParsed(Core(s), tx, packets);
  }
}

/**
 The encrypted event channel: reads are decrypted frame by frame into a plaintext buffer, from which requests are
 taken and answered. At most one request is taken for each decrypted frame; anything odd closes the channel.
 */
module EventChannel {
  import opened ByteStrings
  import opened CipherFrames

  const MAX_ENCRYPTED: nat := 2 * 1024 * 1024
  const MAX_EVENT: nat := 1024 * 1024
  const MAX_HEADERS: nat := 64 * 1024

  // ----- Headers -----

  const CR: Byte := 0x0d
  const LF: Byte := 0x0a

  predicate BlankLine(b: Bytes) {
    |b| >= 4 && b[0] == CR && b[1] == LF && b[2] == CR && b[3] == LF
  }

  /** Where the headers end. */
  function HeaderEnd(b: Bytes): (r: Option<nat>)
    ensures r.Some? ==> r.value + 4 <= |b|
  {
    if |b| < 4 then None
    else if BlankLine(b) then Some(0)
    else
      match HeaderEnd(b[1..])
      case None => None
      case Some(e) => Some(1 + e)
  }

  /** The first place of a byte, or the length. */
  function Find(b: Bytes, wanted: Byte): (r: nat)
    ensures r <= |b|
  {
    if b == [] || b[0] == wanted then 0 else 1 + Find(b[1..], wanted)
  }

  function Lower(b: Bytes): Bytes {
    if b == [] then [] else [if 0x41 <= b[0] <= 0x5a then b[0] + 32 else b[0]] + Lower(b[1..])
  }

  predicate Blank(x: Byte) { x == 0x20 || x == 0x09 }

  function TrimFront(b: Bytes): Bytes {
    if b != [] && Blank(b[0]) then TrimFront(b[1..]) else b
  }

  function TrimBack(b: Bytes): Bytes {
    if b != [] && Blank(b[|b| - 1]) then TrimBack(b[..|b| - 1]) else b
  }

  predicate Digits(b: Bytes) {
    forall i :: 0 <= i < |b| ==> 0x30 <= b[i] <= 0x39
  }

  function DecimalValue(b: Bytes): nat
    requires Digits(b)
  {
    if b == [] then 0 else 10 * DecimalValue(b[..|b| - 1]) + (b[|b| - 1] - 0x30)
  }

  function Ascii(s: string): Bytes {
    seq(|s|, i requires 0 <= i < |s| => s[i] as int % 256)
  }

  datatype Headers = Headers(cseq: Bytes, length: Option<nat>, malformed: bool)

  const NO_HEADERS: Headers := Headers([], None, false)

  /** One header line; a second length, one that is no number, or one that is too large spoils the request. */
  function ReadLine(h: Headers, line: Bytes): Headers {
    var text := if line != [] && line[|line| - 1] == CR then line[..|line| - 1] else line;
    var colon := Find(text, 0x3a);
    if colon == |text| then h
    else
      var name, value := Lower(text[..colon]), TrimBack(TrimFront(text[colon + 1..]));
      if name == Ascii("cseq") then h.(cseq := value)
      else if name == Ascii("content-length") then
        if h.length.Some? || value == [] || !Digits(value) || DecimalValue(value) > MAX_EVENT then h.(malformed := true)
        else h.(length := Some(DecimalValue(value)))
      else h
  }

  function ReadLines(h: Headers, b: Bytes): Headers
    decreases |b|
  {
    if b == [] || h.malformed then h
    else
      var end := Find(b, LF);
      ReadLines(ReadLine(h, b[..end]), if end < |b| then b[end + 1..] else [])
  }

  datatype Verdict = More | Bad | Request(size: nat, cseq: Bytes)

  /** What the plaintext begins with: a whole request, the beginning of one, or something that is none. */
  function Judge(p: Bytes): (r: Verdict)
    ensures r.Request? ==> 4 <= r.size <= |p|
  {
    match HeaderEnd(p)
    case None => if |p| > MAX_HEADERS then Bad else More
    case Some(end) =>
      if end > MAX_HEADERS then Bad
      else
        var h := ReadLines(NO_HEADERS, p[..end]);
        if h.length.None? || h.malformed || end + 4 + h.length.value > MAX_EVENT then Bad
        else if |p| < end + 4 + h.length.value then More
        else Request(end + 4 + h.length.value, h.cseq)
  }

  function Reply(cseq: Bytes): Bytes {
    Ascii("HTTP/1.1 200 OK") + [CR, LF] + Ascii("Content-Length: 0") + [CR, LF] + Ascii("Audio-Latency: 0") + [CR, LF] +
    (if cseq != [] then Ascii("CSeq:") + cseq + [CR, LF] else []) + [CR, LF]
  }

  // ----- The channel -----

  /** The keys, and which replies the socket takes. */
  datatype Peer = Peer(aead: Aead, readKey: Bytes, writeKey: Bytes, canSend: nat -> bool)

  /**
   The last four fields are history: decrypted frames, requests handed on, replies sent, and the bytes they were sent
   as.
   */
  datatype Channel = Channel(
    open: bool, readCounter: Counter, writeCounter: Counter, encrypted: Bytes, plaintext: Bytes,
    taken: seq<Bytes>, handled: seq<Bytes>, replies: seq<Bytes>, sent: Bytes)

  const INITIAL: Channel := Channel(true, 0, 0, [], [], [], [], [], [])

  function Room(limit: nat, used: nat): nat { if used < limit then limit - used else 0 }

  function Answer(p: Peer, c: Channel, size: nat, cseq: Bytes): Channel
    requires size <= |c.plaintext|
  {
    var d := c.(handled := c.handled + [c.plaintext[..size]]);
    match Seal(p.aead, p.writeKey, c.writeCounter, Reply(cseq))
    case None => d.(open := false)
    case Some(frame) =>
      var e := d.(writeCounter := CounterAfter(c.writeCounter, 1));
      if !p.canSend(|c.replies|) then e.(open := false)
      else e.(replies := c.replies + [Reply(cseq)], sent := c.sent + frame, plaintext := c.plaintext[size..])
  }

  /** A decrypted frame arrives. */
  function TakeText(p: Peer, c: Channel, text: Bytes): (d: Channel)
    ensures d.encrypted == c.encrypted && d.readCounter == c.readCounter
  {
    if |text| > Room(MAX_EVENT, |c.plaintext|) then c.(open := false)
    else
      var d := c.(plaintext := c.plaintext + text, taken := c.taken + [text]);
      match Judge(d.plaintext)
      case More => d
      case Bad => d.(open := false)
      case Request(size, cseq) => Answer(p, d, size, cseq)
  }

  /** Frames are taken until there is none, until an empty one, or until the channel closes. */
  function Drain(p: Peer, c: Channel): Channel
    decreases |c.encrypted|
  {
    if !c.open then c
    else
      var one := ReadOne(p.aead, p.readKey, c.readCounter, c.encrypted);
      if one.text.None? then c.(open := false)
      else
        var d := c.(readCounter := one.counter, encrypted := one.buffer);
        if one.text.value == [] then d
        else if |d.encrypted| < |c.encrypted| then Drain(p, TakeText(p, d, one.text.value))
        else d
  }

  function Serve(p: Peer, c: Channel, chunk: Bytes): Channel {
    if !c.open then c
    else if |chunk| > Room(MAX_ENCRYPTED, |c.encrypted|) then c.(open := false)
    else Drain(p, c.(encrypted := c.encrypted + chunk))
  }

  function ServeAll(p: Peer, c: Channel, chunks: seq<Bytes>): Channel
    decreases |chunks|
  {
    if |chunks| == 0 then c else ServeAll(p, Serve(p, c, chunks[0]), chunks[1..])
  }

  // ----- What always holds -----

  /** A request by its own account: its headers and as many bytes as they announce. */
  ghost predicate IsRequest(r: Bytes) { Judge(r).Request? && Judge(r).size == |r| }

  ghost predicate Answered(handled: seq<Bytes>, replies: seq<Bytes>) {
    && |replies| <= |handled| <= |replies| + 1
    && (forall i :: 0 <= i < |handled| ==> IsRequest(handled[i]))
    && forall i :: 0 <= i < |replies| ==> replies[i] == Reply(Judge(handled[i]).cseq)
  }

  ghost predicate Conserved(c: Channel) {
    && Concat(c.handled) <= Concat(c.taken)
    && (c.open ==> Concat(c.handled) + c.plaintext == Concat(c.taken) && |c.replies| == |c.handled|)
  }

  ghost predicate Sealed(p: Peer, c: Channel) {
    && SealAll(p.aead, p.writeKey, 0, c.replies) == Some(c.sent)
    && (c.open ==> c.writeCounter == CounterAfter(0, |c.replies|))
  }

  ghost predicate Invariant(p: Peer, c: Channel) {
    |c.plaintext| <= MAX_EVENT && Conserved(c) && Answered(c.handled, c.replies) && Sealed(p, c)
  }

  lemma {:induction false} HeaderEndPrefix(b: Bytes, n: nat)
    requires HeaderEnd(b).Some? && HeaderEnd(b).value + 4 <= n <= |b|
    ensures HeaderEnd(b[..n]) == HeaderEnd(b)
    decreases |b|
  {
    if !BlankLine(b) {
      HeaderEndPrefix(b[1..], n - 1);
      assert b[..n][1..] == b[1..][..n - 1];
    }
  }

  /** A request taken off the front is a request by itself. */
  lemma {:induction false} RequestAlone(p: Bytes)
    requires Judge(p).Request?
    ensures Judge(p[..Judge(p).size]) == Judge(p)
  {
    var size, end := Judge(p).size, HeaderEnd(p).value;
    HeaderEndPrefix(p, size);
    assert p[..size][..end] == p[..end];
  }

  lemma {:induction false} ConcatOne(parts: seq<Bytes>, part: Bytes)
    ensures Concat(parts + [part]) == Concat(parts) + part
  {
    ConcatAppend(parts, [part]);
    assert Concat([part]) == part by { assert [part][1..] == []; }
  }

  lemma {:induction false} SealOneMore(a: Aead, key: Bytes, first: Counter, texts: seq<Bytes>, text: Bytes)
    requires SealAll(a, key, first, texts).Some? && Seal(a, key, CounterAfter(first, |texts|), text).Some?
    ensures SealAll(a, key, first, texts + [text]) ==
            Some(SealAll(a, key, first, texts).value + Seal(a, key, CounterAfter(first, |texts|), text).value)
    decreases |texts|
  {
    if |texts| == 0 {
      assert texts + [text] == [text] && [text][1..] == [];
      assert CounterAfter(first, 0) == first;
      var frame := Seal(a, key, first, text).value;
      assert frame + [] == frame && [] + frame == frame;
    } else {
      var next := CounterAfter(first, 1);
      CounterJoins(first, [texts[0]], texts[1..]);
      assert [texts[0]] + texts[1..] == texts;
      assert (texts + [text])[1..] == texts[1..] + [text];
      SealOneMore(a, key, next, texts[1..], text);
      Associates(Seal(a, key, first, texts[0]).value, SealAll(a, key, next, texts[1..]).value,
                 Seal(a, key, CounterAfter(first, |texts|), text).value);
    }
  }

  lemma {:induction false} HandOnKeeps(handled: seq<Bytes>, plaintext: Bytes, size: nat)
    requires size <= |plaintext|
    ensures Concat(handled + [plaintext[..size]]) + plaintext[size..] == Concat(handled) + plaintext
    ensures Concat(handled + [plaintext[..size]]) <= Concat(handled) + plaintext
  {
    var request, rest := plaintext[..size], plaintext[size..];
    ConcatOne(handled, request);
    assert plaintext == request + rest;
    Associates(Concat(handled), request, rest);
  }

  lemma {:induction false} AnsweredGrows(handled: seq<Bytes>, replies: seq<Bytes>, request: Bytes)
    requires Answered(handled, replies) && |replies| == |handled| && IsRequest(request)
    ensures Answered(handled + [request], replies) &&
            Answered(handled + [request], replies + [Reply(Judge(request).cseq)])
  {}

  lemma {:induction false} AnswerKeeps(p: Peer, c: Channel)
    requires Invariant(p, c) && c.open && Judge(c.plaintext).Request?
    ensures Invariant(p, Answer(p, c, Judge(c.plaintext).size, Judge(c.plaintext).cseq))
  {
    var size, cseq := Judge(c.plaintext).size, Judge(c.plaintext).cseq;
    RequestAlone(c.plaintext);
    HandOnKeeps(c.handled, c.plaintext, size);
    AnsweredGrows(c.handled, c.replies, c.plaintext[..size]);
    if Answer(p, c, size, cseq).open {
      SealOneMore(p.aead, p.writeKey, 0, c.replies, Reply(cseq));
      OneCounterMore(c.replies, Reply(cseq));
    }
  }

  lemma {:induction false} OneCounterMore(texts: seq<Bytes>, text: Bytes)
    ensures CounterAfter(CounterAfter(0, |texts|), 1) == CounterAfter(0, |texts + [text]|)
  {
    CounterJoins(0, texts, [text]);
  }

  lemma {:induction false} TakeTextKeeps(p: Peer, c: Channel, text: Bytes)
    requires Invariant(p, c) && c.open
    ensures Invariant(p, TakeText(p, c, text))
  {
    if |text| <= Room(MAX_EVENT, |c.plaintext|) {
      var d := c.(plaintext := c.plaintext + text, taken := c.taken + [text]);
      ConcatOne(c.taken, text);
      Associates(Concat(c.handled), c.plaintext, text);
      assert Invariant(p, d);
      if Judge(d.plaintext).Request? {
        AnswerKeeps(p, d);
      }
    }
  }

  lemma {:induction false} DrainKeeps(p: Peer, c: Channel)
    requires Invariant(p, c)
    ensures Invariant(p, Drain(p, c))
    decreases |c.encrypted|
  {
    if c.open {
      var one := ReadOne(p.aead, p.readKey, c.readCounter, c.encrypted);
      if one.text.Some? && one.text.value != [] && |one.buffer| < |c.encrypted| {
        var d := c.(readCounter := one.counter, encrypted := one.buffer);
        TakeTextKeeps(p, d, one.text.value);
        DrainKeeps(p, TakeText(p, d, one.text.value));
      }
    }
  }

  lemma {:induction false} ServeAllKeeps(p: Peer, c: Channel, chunks: seq<Bytes>)
    requires Invariant(p, c)
    ensures Invariant(p, ServeAll(p, c, chunks))
    decreases |chunks|
  {
    if |chunks| > 0 {
      if c.open && |chunks[0]| <= Room(MAX_ENCRYPTED, |c.encrypted|) {
        DrainKeeps(p, c.(encrypted := c.encrypted + chunks[0]));
      }
      ServeAllKeeps(p, Serve(p, c, chunks[0]), chunks[1..]);
    }
  }

  /**
   After any reads: the requests handed on are the beginning of what was decrypted, and while the channel is open the
   buffer is all the rest; each is a request by its own account and has one reply, in order; the buffer keeps to 1 MiB.
   */
  lemma {:induction false} NothingLost(p: Peer, chunks: seq<Bytes>)
    ensures var c := ServeAll(p, INITIAL, chunks);
            && Concat(c.handled) <= Concat(c.taken)
            && (c.open ==> Concat(c.handled) + c.plaintext == Concat(c.taken) && |c.replies| == |c.handled|)
            && Answered(c.handled, c.replies)
            && |c.plaintext| <= MAX_EVENT
  {
    InitialHolds(p);
    ServeAllKeeps(p, INITIAL, chunks);
  }

  lemma {:induction false} InitialHolds(p: Peer)
    ensures Invariant(p, INITIAL)
  {
    assert Concat([]) + [] == Concat([]);
    assert CounterAfter(0, 0) == 0;
  }

  lemma {:induction false} RepliesNotEmpty(handled: seq<Bytes>, replies: seq<Bytes>, i: nat)
    requires Answered(handled, replies) && i <= |replies|
    ensures NoneEmpty(replies[i..])
    decreases |replies| - i
  {
    if i < |replies| {
      assert replies[i] == Reply(Judge(handled[i]).cseq);
      assert replies[i..][1..] == replies[i + 1..];
      RepliesNotEmpty(handled, replies, i + 1);
    }
  }

  /** The other end, in whatever pieces, receives exactly the replies that were sent. */
  lemma {:induction false} RepliesArrive(p: Peer, chunks: seq<Bytes>, pieces: seq<Bytes>)
    requires Inverse(p.aead) && Concat(pieces) == ServeAll(p, INITIAL, chunks).sent
    ensures var c := ServeAll(p, INITIAL, chunks);
            CipherFrames.Receive(p.aead, p.writeKey, 0, [], pieces) ==
                Received(c.replies, CounterAfter(0, |c.replies|), [], false)
  {
    var c := ServeAll(p, INITIAL, chunks);
    InitialHolds(p);
    ServeAllKeeps(p, INITIAL, chunks);
    RepliesNotEmpty(c.handled, c.replies, 0);
    assert c.replies[0..] == c.replies && [] + Concat(pieces) == Concat(pieces);
    NothingYet(p.aead, p.writeKey, 0, []);
    TextsInChunks(p.aead, p.writeKey, 0, c.replies, [], pieces);
  }

  // ----- The service loop -----

  method FindHeaderEnd(p: Bytes) returns (end: Option<nat>)
    ensures end == HeaderEnd(p)
  {
    var i := 0;
    assert p[0..] == p;
    while i + 4 <= |p|
      invariant i <= |p|
      invariant HeaderEnd(p) == match HeaderEnd(p[i..]) { case None => None case Some(e) => Some(i + e) }
      decreases |p| - i
    {
      if p[i] == CR && p[i + 1] == LF && p[i + 2] == CR && p[i + 3] == LF {
        assert BlankLine(p[i..]);
        return Some(i);
      }
      assert p[i..][1..] == p[i + 1..];
      i := i + 1;
    }
    return None;
  }

  /** The next line of a text, as getline takes it off. */
  method TakeLine(text: Bytes, from: nat) returns (line: Bytes, next: nat)
    requires from < |text|
    ensures line == text[from..][..Find(text[from..], LF)] && from < next <= |text|
    ensures text[next..] == var rest := text[from..];
            var end := Find(rest, LF); if end < |rest| then rest[end + 1..] else []
  {
    var i := from;
    while i < |text| && text[i] != LF
      invariant from <= i <= |text|
      invariant Find(text[from..], LF) == (i - from) + Find(text[i..], LF)
      decreases |text| - i
    {
      assert text[i..][1..] == text[i + 1..];
      i := i + 1;
    }
    line := text[from..i];
    next := if i < |text| then i + 1 else i;
  }

  method ReadHeaders(text: Bytes) returns (h: Headers)
    ensures h == ReadLines(NO_HEADERS, text)
  {
    h := NO_HEADERS;
    var from := 0;
    assert text[0..] == text;
    while from < |text| && !h.malformed
      invariant from <= |text|
      invariant ReadLines(h, text[from..]) == ReadLines(NO_HEADERS, text)
      decreases |text| - from
    {
      var line, next := TakeLine(text, from);
      h := ReadLine(h, line);
      from := next;
    }
  }

  method Examine(p: Bytes) returns (verdict: Verdict)
    ensures verdict == Judge(p)
  {
    var end := FindHeaderEnd(p);
    if end.None? {
      return if |p| > MAX_HEADERS then Bad else More;
    }
    if end.value > MAX_HEADERS {
      return Bad;
    }
    var h := ReadHeaders(p[..end.value]);
    var bodyStart := end.value + 4;
    if h.length.None? || h.malformed || h.length.value > MAX_EVENT || bodyStart > MAX_EVENT - h.length.value {
      return Bad;
    }
    var requestSize := bodyStart + h.length.value;
    verdict := if |p| < requestSize then More else Request(requestSize, h.cseq);
  }

  class Service {
    const canSend: nat -> bool
    const cipher: ControlCipher
    var open: bool
    var encryptedBuffer: Bytes
    var plaintext: Bytes
    ghost var taken: seq<Bytes>
    ghost var handled: seq<Bytes>
    ghost var sent: Bytes
    var replies: seq<Bytes>

    ghost function Ends(): Peer {
      Peer(cipher.aead, cipher.readKey, cipher.writeKey, canSend)
    }

    ghost function State(): Channel
      reads this, cipher
    {
      Channel(open, cipher.readCounter, cipher.writeCounter, encryptedBuffer, plaintext, taken, handled, replies, sent)
    }

    constructor (peer: Peer)
      ensures fresh(cipher) && Ends() == peer && State() == INITIAL
    {
      canSend := peer.canSend;
      cipher := new ControlCipher(peer.aead, peer.readKey, peer.writeKey);
      open, encryptedBuffer, plaintext := true, [], [];
      taken, handled, replies, sent := [], [], [], [];
    }

    /** One read of the socket. */
    method OnRead(chunk: Bytes)
      modifies this, cipher
      ensures State() == Serve(Ends(), old(State()), chunk)
    {
      hide TakeText, Judge;
      if !open {
        return;
      }
      if |chunk| > MAX_ENCRYPTED - (if |encryptedBuffer| < MAX_ENCRYPTED then |encryptedBuffer| else MAX_ENCRYPTED) {
        open := false;
        return;
      }
      encryptedBuffer := encryptedBuffer + chunk;
      ghost var start := State();
      while open
        invariant Drain(Ends(), State()) == Drain(Ends(), start)
        decreases |encryptedBuffer|, open
      {
        ghost var before := State();
        var text, rest := cipher.DecryptOne(encryptedBuffer);
        if text.None? {
          open := false;
          break;
        }
        encryptedBuffer := rest;
        if text.value == [] {
          break;
        }
        OnText(text.value);
      }
    }

    method OnText(text: Bytes)
      requires open
      modifies this, cipher`writeCounter
      ensures State() == TakeText(Ends(), old(State()), text)
    {
      if |text| > MAX_EVENT - (if |plaintext| < MAX_EVENT then |plaintext| else MAX_EVENT) {
        open := false;
        return;
      }
      plaintext := plaintext + text;
      taken := taken + [text];
      var verdict := Examine(plaintext);
      if verdict.Bad? {
        open := false;
      } else if verdict.Request? {
        OnRequest(verdict.size, verdict.cseq);
      }
    }

    method OnRequest(size: nat, cseq: Bytes)
      requires size <= |plaintext|
      modifies this, cipher`writeCounter
      ensures State() == Answer(Ends(), old(State()), size, cseq)
    {
      handled := handled + [plaintext[..size]];
      var reply := Ascii("HTTP/1.1 200 OK") + [CR, LF] + Ascii("Content-Length: 0") + [CR, LF];
      reply := reply + Ascii("Audio-Latency: 0") + [CR, LF];
      reply := reply + if cseq != [] then Ascii("CSeq:") + cseq + [CR, LF] else [];
      reply := reply + [CR, LF];
      var frame := cipher.Encrypt(reply);
      if frame.None? || !canSend(|replies|) {
        open := false;
        return;
      }
      replies := replies + [reply];
      sent := sent + frame.value;
      plaintext := plaintext[size..];
    }
  }
}

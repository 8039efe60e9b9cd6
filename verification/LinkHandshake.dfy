/**
 What goes over the wire of a link, byte by byte, and what each packet and each call does to a link, in numbers: from
 these follows how a link is established, and that two established links can be made to face each other.
 */
module LinkHandshake {
  import opened ByteStrings
  import opened LinkCodec
  import opened LinkMachine
  import opened LinkWindow
  import opened LinkParsing
  import opened LinkDelivery

  // ----- The wire -----

  function Total(bytes: Bytes): nat {
    if bytes == [] then 0 else bytes[0] + Total(bytes[1..])
  }

  /** The byte that makes a sum a multiple of 256. */
  function Complement(sum: nat): Byte { (256 - sum % 256) % 256 }

  /** The header of a packet of n bytes in all: nine bytes, the last one completing their sum. */
  function Head(n: nat, control: Byte, sequence: Byte, acknowledgement: Byte, session: Byte): (r: Bytes)
    requires n <= 65535
    ensures |r| == 9
  {
    [0xff, 0x5a, n / 256, n % 256, control, sequence, acknowledgement, session,
     Complement(0xff + 0x5a + n / 256 + n % 256 + control + sequence + acknowledgement + session)]
  }

  /** A packet: the header, then the payload and its own last byte. */
  function Frame(control: Byte, sequence: Byte, acknowledgement: Byte, session: Byte, payload: Bytes): Bytes
    requires |payload| <= 65525
  {
    if payload == [] then Head(9, control, sequence, acknowledgement, session)
    else Head(|payload| + 10, control, sequence, acknowledgement, session) + payload + [Complement(Total(payload))]
  }

  function Triples(sessions: seq<Session>): (r: Bytes)
    ensures |r| == 3 * |sessions|
  {
    if sessions == [] then []
    else [sessions[0].id, sessions[0].kind, sessions[0].version] + Triples(sessions[1..])
  }

  /** Link parameters: version one, then the numbers with the high byte first, then three bytes for each session. */
  function Parameters(q: Lsp): (r: Bytes)
    ensures |r| == 10 + 3 * |q.sessions|
  {
    [1, q.maxOutgoing, q.maxLen / 256, q.maxLen % 256, q.retransmissionTimeout / 256, q.retransmissionTimeout % 256,
     q.ackTimeout / 256, q.ackTimeout % 256, q.maxRetransmissions, q.maxAck] + Triples(q.sessions)
  }

  lemma {:induction false} TotalIsSum(bytes: Bytes)
    ensures Total(bytes) == Sum(bytes)
    decreases |bytes|
  {
    var n := |bytes| - 1;
    if |bytes| == 1 {
      assert bytes[1..] == [] && bytes[..0] == [];
    } else if |bytes| > 1 {
      TotalIsSum(bytes[1..]);
      TotalIsSum(bytes[..n]);
      TotalIsSum(bytes[1..][..n - 1]);
      assert bytes[1..][..n - 1] == bytes[..n][1..];
      assert bytes[1..][n - 1] == bytes[n];
    }
  }

  lemma {:induction false} HeaderLayout(h: Header)
    ensures EncodeHeader(h) == Head(h.length, h.control, h.sequence, h.acknowledgement, h.sessionId)
  {
    hide Sum;
    var f := HeaderFields(h);
    assert f == [0xff, 0x5a, h.length / 256, h.length % 256, h.control, h.sequence, h.acknowledgement, h.sessionId];
    EightSum(f);
  }

  /** The packets of the link are these bytes. */
  lemma {:induction false} PacketLayout(h: Header, payload: Bytes)
    requires |payload| <= 65525 && h.length == if payload == [] then 9 else |payload| + 10
    ensures PacketBytes(h, payload) == Frame(h.control, h.sequence, h.acknowledgement, h.sessionId, payload)
  {
    hide Sum, Total, Head, EncodeHeader;
    HeaderLayout(h);
    TotalIsSum(payload);
    if payload == [] {
      assert EncodeHeader(h) + [] == EncodeHeader(h);
    } else {
      Associates(EncodeHeader(h), payload, [Checksum(payload)]);
    }
  }

  lemma {:induction false} EightSum(f: Bytes)
    requires |f| == 8
    ensures Sum(f) == f[0] as int + f[1] + f[2] + f[3] + f[4] + f[5] + f[6] + f[7]
  {
    hide Sum;
    SumStep(f);
    SumStep(f[..7]);
    SumStep(f[..6]);
    SumStep(f[..5]);
    SumStep(f[..4]);
    SumStep(f[..3]);
    SumStep(f[..2]);
    SumStep(f[..1]);
    assert f[..7][..6] == f[..6] && f[..6][..5] == f[..5] && f[..5][..4] == f[..4] && f[..4][..3] == f[..3];
    assert f[..3][..2] == f[..2] && f[..2][..1] == f[..1] && f[..1][..0] == [];
    SumNone();
  }

  lemma {:induction false} SumStep(b: Bytes)
    requires b != []
    ensures Sum(b) == Sum(b[..|b| - 1]) + b[|b| - 1]
  {}

  lemma {:induction false} SumNone()
    ensures Sum([]) == 0
  {}

  lemma {:induction false} TriplesAre(sessions: seq<Session>)
    ensures SessionBytes(sessions) == Triples(sessions)
  {
    if sessions != [] {
      TriplesAre(sessions[1..]);
    }
  }

  /** The parameters go over the wire as these bytes. */
  lemma {:induction false} LspLayout(q: Lsp)
    ensures EncodeLsp(q) == Parameters(q)
  {
    TriplesAre(q.sessions);
  }

  /** One packet in this form, read by a link with an empty buffer, is handled with its numbers and its payload. */
  lemma {:induction false} FrameRead(
    s: Link, tx: Transport, now: int, control: Byte, sequence: Byte, acknowledgement: Byte, session: Byte,
        payload: Bytes)
    requires s.buffer == [] && s.phase != Detect && |payload| <= 65525
    ensures var n := if payload == [] then 9 else |payload| + 10;
            Receive(s, tx, now, Frame(control, sequence, acknowledgement, session, payload)) ==
            if n > s.lsp.maxLen then s.(phase := Dead)
            else Handle(s, tx, now, Header(n, control, sequence, acknowledgement, session), payload)
  {
    hide Receive, Handle, PacketBytes, Frame;
    var h := Header(if payload == [] then 9 else |payload| + 10, control, sequence, acknowledgement, session);
    PacketLayout(h, payload);
    ReceiveFrame(s, tx, now, h, payload);
  }

  /** A packet whose payload does not add up is taken off the buffer, and nothing else happens. */
  lemma {:induction false} DamagedIgnored(
    s: Link, tx: Transport, now: int, control: Byte, sequence: Byte, acknowledgement: Byte, session: Byte, body: Bytes)
    requires s.buffer == [] && s.phase != Detect && body != [] && |body| <= 65526 && Total(body) % 256 != 0
    ensures Receive(s, tx, now, Head(9 + |body|, control, sequence, acknowledgement, session) + body) ==
            if 9 + |body| > s.lsp.maxLen then s.(phase := Dead) else s
  {
    hide Head, Process, ProcessAt, DecodeHeader, EncodeHeader, Total;
    var h := Header(9 + |body|, control, sequence, acknowledgement, session);
    var bytes := EncodeHeader(h) + body;
    HeaderLayout(h);
    assert s.buffer + bytes == bytes;
    var t := s.(buffer := bytes);
    FrontOfHeader(h, body);
    AtFront(t, tx, now);
    HeaderRoundTrip(h);
    assert bytes[..9] == EncodeHeader(h) && bytes[9..9 + |body|] == body && bytes[9 + |body|..] == [];
    TotalIsSum(body);
    DamagedTurn(t, tx, now, h, body);
  }

  lemma {:induction false} FrontOfHeader(h: Header, body: Bytes)
    ensures (EncodeHeader(h) + body)[0] == 0xff && (EncodeHeader(h) + body)[1] == 0x5a
  {}

  lemma {:induction false} DamagedTurn(t: Link, tx: Transport, now: int, h: Header, body: Bytes)
    requires |t.buffer| == 9 + |body| == h.length && DecodeHeader(t.buffer[..9]) == Some(h)
    requires t.buffer[9..h.length] == body != [] && t.buffer[h.length..] == [] && !ValidChecksum(body)
    ensures ProcessAt(t, tx, now) ==
            if h.length > t.lsp.maxLen then t.(phase := Dead, buffer := []) else t.(buffer := [])
  {
    hide DecodeHeader, ValidChecksum, Handle;
  }

  /** Bytes that would make more than 128 KiB with those still unread kill the link. */
  lemma {:induction false} OverfullDies(s: Link, tx: Transport, now: int, bytes: Bytes)
    requires |s.buffer| + |bytes| > 131072
    ensures Receive(s, tx, now, bytes) == s.(phase := Dead, buffer := [])
  {}

  // ----- What a packet does -----

  predicate Ack(control: Byte) { control / 64 % 2 == 1 }
  predicate Syn(control: Byte) { control / 128 % 2 == 1 }
  predicate Rst(control: Byte) { control / 16 % 2 == 1 }

  /**
   Exactly one thing establishes a link: a packet with ACK and neither SYN nor RST whose number is that of the SYN
   outstanding, or up to 127 ahead of it.
   */
  lemma {:induction false} EstablishedExactly(s: Link, tx: Transport, now: int, h: Header, payload: Bytes)
    requires s.phase == Negotiate
    ensures Handle(s, tx, now, h, payload).phase == Normal <==>
            Ack(h.control) && !Syn(h.control) && !Rst(h.control) &&
            s.synOutstanding && (h.acknowledgement - s.synSequence) % 256 < 128
    ensures Ack(h.control) && !Syn(h.control) && !Rst(h.control) ==>
              var t := Handle(s, tx, now, h, payload);
              t == s.(phase := t.phase, pending := t.pending, synOutstanding := s.synOutstanding && t.phase != Normal)
  {
    hide HandleSyn, HandleData, Unacknowledged;
    AheadIs(h.acknowledgement, s.synSequence);
  }

  lemma {:induction false} AheadIs(a: Byte, b: Byte)
    ensures Ahead(a, b) == (a - b) % 256
  {}

  /** A reset kills the link, whatever its state. */
  lemma {:induction false} ResetKills(s: Link, tx: Transport, now: int, h: Header, payload: Bytes)
    requires Rst(h.control)
    ensures Handle(s, tx, now, h, payload) == s.(phase := Dead, pending := [], synOutstanding := false, buffer := [])
  {}

  /** An acknowledgement as this link sends it. */
  lemma {:induction false} AckLayout(s: Link, tx: Transport)
    ensures SendAck(s, tx) ==
            s.(attempts := s.attempts + [Frame(0x40, s.sent, s.last, 0, [])],
               phase := if tx(|s.attempts|) then s.phase else Dead)
  {
    hide PacketBytes, Frame;
    PacketLayout(Header(9, 0x40, s.sent, s.last, 0), []);
    PacketNotEmpty(Header(9, 0x40, s.sent, s.last, 0), []);
  }

  lemma {:induction false} PacketNotEmpty(h: Header, payload: Bytes)
    ensures PacketBytes(h, payload) != []
  {}

  /**
   Data on an established link: the message after the last one, or the very first, is taken, any other is not; it is
   delivered if it belongs to the control session; and in every case the last message taken is acknowledged.
   */
  lemma {:induction false} DataTaken(s: Link, tx: Transport, now: int, h: Header, payload: Bytes)
    requires s.phase == Normal && payload != [] && (h.control == 0 || h.control == 0x40)
    ensures var t, next := Handle(s, tx, now, h, payload), !s.lastValid || (h.sequence - s.last) % 256 == 1;
            && t.last == (if next then h.sequence else s.last) && t.lastValid
            && t.delivered ==
               (if next && h.sessionId == s.controlSession then s.delivered + [payload] else s.delivered)
            && t.attempts == s.attempts + [Frame(0x40, s.sent, t.last, 0, [])]
            && t.phase == (if tx(|s.attempts|) then Normal else Dead)
            && (h.control == 0 ==> t.pending == s.pending) && t.lsp == s.lsp && t.sent == s.sent
  {
    hide SendAck, Unacknowledged, Frame, Ahead;
    AheadIs(h.sequence, s.last);
    var u := if HasAck(h.control) then s.(pending := Unacknowledged(s.pending, h.acknowledgement)) else s;
    AckLayout(u, tx);
    AckLayout(u.(lastValid := true, last := h.sequence), tx);
    AckLayout(u.(lastValid := true, last := h.sequence, delivered := s.delivered + [payload]), tx);
  }

  /** A SYN that reaches an established link changes nothing but is acknowledged again. */
  lemma {:induction false} SynRepeated(s: Link, tx: Transport, now: int, h: Header, payload: Bytes)
    requires s.phase == Normal && h.control == 0x80
    ensures Handle(s, tx, now, h, payload) ==
            s.(attempts := s.attempts + [Frame(0x40, s.sent, s.last, 0, [])],
               phase := if tx(|s.attempts|) then Normal else Dead)
  {
    AckLayout(s, tx);
  }

  /** A SYN changes nothing if it does not carry parameters, or ones that allow no packet of nine bytes. */
  lemma {:induction false} UnreadableSyn(s: Link, tx: Transport, now: int, h: Header, payload: Bytes)
    requires s.phase == Negotiate && h.control == 0x80
    requires forall q: Lsp :: payload == Parameters(q) ==> q.maxLen < 9
    ensures Handle(s, tx, now, h, payload) == s
  {
    hide Parameters, EncodeLsp, DecodeLsp;
    if DecodeLsp(payload).Some? {
      DecodedAllows(payload);
      LspUnique(payload);
      LspLayout(DecodeLsp(payload).value);
    }
  }

  lemma {:induction false} DecodedAllows(payload: Bytes)
    requires DecodeLsp(payload).Some?
    ensures DecodeLsp(payload).value.maxLen >= 9
  {}

  /** Data that comes before the link is established changes nothing. */
  lemma {:induction false} EarlyDataIgnored(s: Link, tx: Transport, now: int, h: Header, payload: Bytes)
    requires s.phase == Negotiate && h.control == 0
    ensures Handle(s, tx, now, h, payload) == s
  {}

  // ----- What a call does -----

  /** A control message is accepted exactly when link, length, window and transport allow it. */
  lemma {:induction false} SendAccepted(s: Link, tx: Transport, now: int, payload: Bytes)
    ensures var (t, ok) := SendControl(s, tx, now, payload);
            var fits := s.phase == Normal && payload != [] && |payload| + 10 <= s.lsp.maxLen &&
                        |s.pending| < s.lsp.maxOutgoing;
            && (ok <==> fits && tx(|s.attempts|))
            && (!fits ==> t == s)
            && (fits ==>
                  var number := (s.sent + 1) % 256;
                  var frame := Frame(0x40, number, s.last, s.controlSession, payload);
                  var sent := s.(sent := number, attempts := s.attempts + [frame]);
                  t == if ok then
                         sent.(pending := s.pending + [Pending(number, frame, now + s.lsp.retransmissionTimeout, 0)])
                       else sent.(phase := Dead, pending := []))
  {
    if payload != [] && |payload| + 10 <= s.lsp.maxLen {
      var number := (s.sent + 1) % 256;
      PacketLayout(Header(|payload| + 10, 0x40, number, s.last, s.controlSession), payload);
    }
  }

  lemma {:induction false} SynLayout(s: Link, tx: Transport, now: int, acknowledgePeer: bool)
    requires s.phase == Negotiate && 3 * |s.lsp.sessions| <= 65515
    ensures var number := if s.synOutstanding then s.synSequence else (s.sent + 1) % 256;
            SendSyn(s, tx, now, acknowledgePeer) ==
            s.(sent := if s.synOutstanding then s.sent else number, synSequence := number, synOutstanding := true,
               nextSyn := now + 500, phase := if tx(|s.attempts|) then Negotiate else Dead,
               attempts := s.attempts +
                           [Frame(if acknowledgePeer then 0xc0 else 0x80, number, s.last, 0, Parameters(s.lsp))])
  {
    hide PacketBytes, Frame, EncodeLsp, Parameters;
    var number := if s.synOutstanding then s.synSequence else (s.sent + 1) % 256;
    var control := if acknowledgePeer then 0xc0 else 0x80;
    LspLayout(s.lsp);
    var h := Header(|EncodeLsp(s.lsp)| + 10, control, number, s.last, 0);
    PacketLayout(h, EncodeLsp(s.lsp));
    PacketNotEmpty(h, EncodeLsp(s.lsp));
  }

  /** A new link that is started sends its marker and then its SYN; the first refusal kills it. */
  lemma {:induction false} Started(s: Link, tx: Transport, now: int)
    requires s.phase == Detect && !s.synOutstanding && 3 * |s.lsp.sessions| <= 65515
    ensures var marked := s.(attempts := s.attempts + [[0xff, 0x55, 2, 0, 0xee, 0x10]]);
            var number := (s.sent + 1) % 256;
            Start(s, tx, now) ==
            if !tx(|s.attempts|) then marked.(phase := Dead)
            else marked.(sent := number, synSequence := number, synOutstanding := true, nextSyn := now + 500,
                         phase := if tx(|s.attempts| + 1) then Negotiate else Dead,
                         attempts := marked.attempts + [Frame(0x80, number, s.last, 0, Parameters(s.lsp))])
  {
    hide SendSyn, Frame, Parameters;
    SynLayout(s.(attempts := s.attempts + [MARKER], phase := Negotiate), tx, now, false);
  }

  /** Until it is established, a link sends its marker every second, then its SYN every half second. */
  lemma {:induction false} TickBeforeNormal(s: Link, tx: Transport, now: int)
    requires s.pending == [] && 3 * |s.lsp.sessions| <= 65515
    ensures s.phase == Detect ==>
              Tick(s, tx, now) ==
              if now < s.nextMarker then s
              else if tx(|s.attempts|) then
                s.(attempts := s.attempts + [[0xff, 0x55, 2, 0, 0xee, 0x10]], nextMarker := now + 1000)
              else s.(attempts := s.attempts + [[0xff, 0x55, 2, 0, 0xee, 0x10]], phase := Dead)
    ensures s.phase == Negotiate && s.synOutstanding ==>
              Tick(s, tx, now) ==
              if now < s.nextSyn then s
              else s.(attempts := s.attempts + [Frame(0x80, s.synSequence, s.last, 0, Parameters(s.lsp))],
                      nextSyn := now + 500, phase := if tx(|s.attempts|) then Negotiate else Dead)
  {
    hide SendSyn, Frame, Parameters;
    if s.phase == Negotiate {
      SynLayout(s, tx, now, false);
    }
  }

  // ----- The handshake -----

  /** The peer's parameters as a link adopts them. */
  function Adopted(q: Lsp): Lsp {
    Lsp(if q.maxOutgoing < 1 then 1 else if q.maxOutgoing > 128 then 128 else q.maxOutgoing, q.maxLen,
        if q.retransmissionTimeout < 100 then 100 else q.retransmissionTimeout,
        if q.ackTimeout < 50 then 50 else q.ackTimeout,
        if q.maxRetransmissions < 1 then 1 else q.maxRetransmissions, q.maxAck, q.sessions)
  }

  /** The id is that of the first session of kind 0, or ten when there is none. */
  ghost predicate ControlId(sessions: seq<Session>, id: Byte) {
    ((forall i :: 0 <= i < |sessions| ==> sessions[i].kind != 0) && id == 10) ||
    exists i :: 0 <= i < |sessions| && FirstOfKind0(sessions, i) && sessions[i].id == id
  }

  ghost predicate FirstOfKind0(sessions: seq<Session>, i: nat)
    requires i < |sessions|
  {
    sessions[i].kind == 0 && forall j :: 0 <= j < i ==> sessions[j].kind != 0
  }

  lemma {:induction false} ControlFound(sessions: seq<Session>)
    ensures ControlId(sessions, ControlSessionOf(sessions, 10))
  {
    if sessions != [] {
      if sessions[0].kind == 0 {
        assert FirstOfKind0(sessions, 0);
      } else {
        var tail := sessions[1..];
        ControlFound(tail);
        if exists i :: 0 <= i < |tail| && FirstOfKind0(tail, i) && tail[i].id == ControlSessionOf(tail, 10) {
          var i :| 0 <= i < |tail| && FirstOfKind0(tail, i) && tail[i].id == ControlSessionOf(tail, 10);
          assert forall j :: 0 < j <= i ==> sessions[j] == tail[j - 1];
          assert FirstOfKind0(sessions, i + 1) && sessions[i + 1].id == tail[i].id;
        } else {
          assert forall j :: 0 < j < |sessions| ==> sessions[j] == tail[j - 1];
        }
      }
    }
  }

  const DETECT: Bytes := [0xff, 0x55, 2, 0, 0xee, 0x10]

  /** The SYN a new link sends: number 100, window 4, packets of up to 65535 bytes, and its three sessions. */
  const FIRST_SYN: Bytes :=
    [0xff, 0x5a, 0, 29, 0x80, 100, 0, 0, 166,
     1, 4, 0xff, 0xff, 0, 0, 0, 0, 0, 0, 10, 0, 2, 11, 2, 1, 12, 1, 2, 212]

  lemma {:induction false} TotalJoin(a: Bytes, b: Bytes)
    ensures Total(a + b) == Total(a) + Total(b)
    decreases |a|
  {
    if a == [] {
      assert a + b == b;
    } else {
      assert (a + b)[1..] == a[1..] + b;
      TotalJoin(a[1..], b);
    }
  }

  lemma {:induction false} TotalOne(x: Byte)
    ensures Total([x]) == x
  {
    assert [x][1..] == [];
  }

  lemma {:induction false} TotalOf(w: Byte, x: Byte, y: Byte, z: Byte)
    ensures Total([w, x, y, z]) == w as int + x + y + z
  {
    hide Total;
    TotalOne(w);
    TotalOne(x);
    TotalOne(y);
    TotalOne(z);
    TotalJoin([y], [z]);
    TotalJoin([x], [y] + [z]);
    TotalJoin([w], [x] + ([y] + [z]));
    assert [w] + ([x] + ([y] + [z])) == [w, x, y, z];
  }

  lemma {:induction false} FirstParameters()
    ensures Parameters(INITIAL.lsp) == [1, 4, 0xff, 0xff, 0, 0, 0, 0, 0, 0, 10, 0, 2, 11, 2, 1, 12, 1, 2]
  {
    hide Triples;
    TriplesStep(Session(10, 0, 2), [Session(11, 2, 1), Session(12, 1, 2)]);
    TriplesStep(Session(11, 2, 1), [Session(12, 1, 2)]);
    TriplesStep(Session(12, 1, 2), []);
    assert [Session(12, 1, 2)] + [] == [Session(12, 1, 2)];
    assert INITIAL.lsp.sessions == [Session(10, 0, 2)] + ([Session(11, 2, 1)] + [Session(12, 1, 2)]);
    assert [Session(11, 2, 1), Session(12, 1, 2)] == [Session(11, 2, 1)] + [Session(12, 1, 2)];
    assert Triples(INITIAL.lsp.sessions) == [10, 0, 2] + ([11, 2, 1] + ([12, 1, 2] + []));
  }

  lemma {:induction false} TriplesStep(first: Session, rest: seq<Session>)
    ensures Triples([first] + rest) == [first.id, first.kind, first.version] + Triples(rest) && Triples([]) == []
  {
    assert ([first] + rest)[1..] == rest;
  }

  lemma {:induction false} FirstTotal()
    ensures Total([1, 4, 0xff, 0xff, 0, 0, 0, 0, 0, 0, 10, 0, 2, 11, 2, 1, 12, 1, 2]) == 556
  {
    hide Total;
    TotalOf(1, 4, 0xff, 0xff);
    TotalOf(0, 0, 0, 0);
    TotalOf(0, 0, 10, 0);
    TotalOf(2, 11, 2, 1);
    TotalOf(12, 1, 2, 0);
    TotalJoin([12, 1, 2], [0]);
    TotalOne(0);
    assert [12, 1, 2] + [0] == [12, 1, 2, 0];
    TotalJoin([2, 11, 2, 1], [12, 1, 2]);
    TotalJoin([0, 0, 10, 0], [2, 11, 2, 1] + [12, 1, 2]);
    TotalJoin([0, 0, 0, 0], [0, 0, 10, 0] + ([2, 11, 2, 1] + [12, 1, 2]));
    TotalJoin([1, 4, 0xff, 0xff], [0, 0, 0, 0] + ([0, 0, 10, 0] + ([2, 11, 2, 1] + [12, 1, 2])));
    assert [1, 4, 0xff, 0xff] + ([0, 0, 0, 0] + ([0, 0, 10, 0] + ([2, 11, 2, 1] + [12, 1, 2]))) ==
           [1, 4, 0xff, 0xff, 0, 0, 0, 0, 0, 0, 10, 0, 2, 11, 2, 1, 12, 1, 2];
  }

  lemma {:induction false} FirstSynIs()
    ensures Frame(0x80, 100, 0, 0, Parameters(INITIAL.lsp)) == FIRST_SYN
  {
    hide Parameters, Total;
    FirstParameters();
    FirstTotal();
  }

  // ----- From a new link to an established one -----

  /** The link after its first SYN. */
  function Asking(opening: seq<Bytes>, nextMarker: int, nextSyn: int): Link {
    INITIAL.(phase := Negotiate, sent := 100, synSequence := 100, synOutstanding := true, nextMarker := nextMarker,
             nextSyn := nextSyn, attempts := opening + [FIRST_SYN])
  }

  lemma {:induction false} Opened(tx: Transport, now: int, byMarker: bool)
    requires tx(0) && tx(1)
    ensures Apply(INITIAL, tx, if byMarker then ReceiveAt(now, DETECT) else StartAt(now)) ==
            Asking(if byMarker then [] else [DETECT], 0, now + 500)
  {
    hide Frame, Parameters, Process;
    FirstSynIs();
    if byMarker {
      MarkerAlone(tx, now);
    } else {
      var s := Put(INITIAL, MARKER).(phase := Negotiate);
      SynLayout(s, tx, now, false);
    }
  }

  lemma {:induction false} MarkerAlone(tx: Transport, now: int)
    requires tx(0)
    ensures Receive(INITIAL, tx, now, DETECT) == Asking([], 0, now + 500)
  {
    hide Frame, Parameters;
    FirstSynIs();
    assert [] + DETECT == DETECT && DETECT[..6] == DETECT && DETECT[6..] == [];
    var s := INITIAL.(phase := Negotiate);
    SynLayout(s, tx, now, false);
    var t := SendSyn(s, tx, now, false);
    assert t.buffer == [] && Process(t, tx, now) == t;
    assert [] + [FIRST_SYN] == [FIRST_SYN];
  }

  /**
   The peer's SYN: its parameters are adopted, its number is taken, and our SYN goes out again with the answer in it.
   */
  lemma {:induction false} PeerSynTaken(
    s: Link, tx: Transport, now: int, q: Lsp, control: Byte, n: Byte, acknowledgement: Byte, session: Byte)
    requires s.phase == Negotiate && s.buffer == [] && s.pending == [] && s.synOutstanding && tx(|s.attempts|)
    requires 9 <= q.maxLen && 3 * |q.sessions| <= 65515 && 3 * |q.sessions| + 20 <= s.lsp.maxLen
    requires Syn(control) && !Rst(control)
    ensures var read := Receive(s, tx, now, Frame(control, n, acknowledgement, session, Parameters(q)));
            read == s.(lsp := Adopted(q), controlSession := ControlSessionOf(q.sessions, s.controlSession),
                       lastValid := true, last := n, nextSyn := now + 500,
                       attempts := s.attempts + [Frame(0xc0, s.synSequence, n, 0, Parameters(Adopted(q)))])
  {
    hide Frame, Parameters, Receive, SendSyn, DecodeLsp, EncodeLsp;
    LspLayout(q);
    LspRoundTrip(q);
    FrameRead(s, tx, now, control, n, acknowledgement, session, Parameters(q));
    assert Clamped(q) == Adopted(q);
    var t := s.(lsp := Adopted(q), controlSession := ControlSessionOf(q.sessions, s.controlSession),
                lastValid := true, last := n);
    SynLayout(t, tx, now, true);
  }

  lemma {:induction false} AckTaken(s: Link, tx: Transport, now: int, m: Byte, acknowledgement: Byte, session: Byte)
    requires s.phase == Negotiate && s.buffer == [] && s.pending == [] && s.synOutstanding && s.lsp.maxLen >= 9
    ensures Receive(s, tx, now, Frame(0x40, m, acknowledgement, session, [])) ==
            if (acknowledgement - s.synSequence) % 256 < 128 then s.(phase := Normal, synOutstanding := false) else s
  {
    hide Frame, Receive, Handle;
    FrameRead(s, tx, now, 0x40, m, acknowledgement, session, []);
    AckHandled(s, tx, now, Header(9, 0x40, m, acknowledgement, session));
  }

  lemma {:induction false} AckHandled(s: Link, tx: Transport, now: int, h: Header)
    requires s.phase == Negotiate && s.pending == [] && s.synOutstanding && h.control == 0x40
    ensures Handle(s, tx, now, h, []) ==
            if (h.acknowledgement - s.synSequence) % 256 < 128 then s.(phase := Normal, synOutstanding := false) else s
  {
    AheadIs(h.acknowledgement, s.synSequence);
  }

  /** What a new link does: it starts or sees the peer's marker, reads the peer's SYN, and reads an acknowledgement. */
  function Opening(
    first: int, second: int, third: int, byMarker: bool, q: Lsp, control: Byte, n: Byte, acknowledgement: Byte,
    session: Byte, m: Byte, a: Byte): seq<Operation>
    requires 3 * |q.sessions| <= 65515
  {
    [if byMarker then ReceiveAt(first, DETECT) else StartAt(first),
     ReceiveAt(second, Frame(control, n, acknowledgement, session, Parameters(q))),
     ReceiveAt(third, Frame(0x40, m, a, 0, []))]
  }

  lemma {:induction false} ThreeApplied(s: Link, tx: Transport, a: Operation, b: Operation, c: Operation)
    ensures ApplyAll(s, tx, [a, b, c]) == Apply(Apply(Apply(s, tx, a), tx, b), tx, c)
  {
    assert [a, b, c][1..] == [b, c] && [b, c][1..] == [c] && [c][1..] == [];
    assert ApplyAll(Apply(Apply(s, tx, a), tx, b), tx, [c]) == Apply(Apply(Apply(s, tx, a), tx, b), tx, c);
  }

  /**
   A new link, started or woken by the peer's marker, that reads the peer's SYN and an acknowledgement of its own is
   established, exactly if the acknowledgement names its SYN. It then has the peer's parameters within their limits, the
   peer's number and the peer's first control session; it has nothing outstanding and nothing delivered; and what it has
   sent is its marker, if it was started, its SYN, and its SYN again with the acknowledgement and the parameters
   adopted.
   */
  lemma {:induction false} LinkEstablished(
    tx: Transport, first: int, second: int, third: int, byMarker: bool, q: Lsp, control: Byte, n: Byte,
    acknowledgement: Byte, session: Byte, m: Byte, a: Byte)
    requires tx(0) && tx(1) && tx(2)
    requires 9 <= q.maxLen && 3 * |q.sessions| <= 65515 && Syn(control) && !Rst(control)
    ensures var ops := Opening(first, second, third, byMarker, q, control, n, acknowledgement, session, m, a);
            var s := ApplyAll(INITIAL, tx, ops);
            && (s.phase == Normal <==> (a - 100) % 256 < 128) && s.phase in {Negotiate, Normal}
            && s.lsp == Adopted(q) && ControlId(q.sessions, s.controlSession)
            && s.last == n && s.lastValid && s.sent == 100 && s.pending == [] && s.delivered == [] && s.buffer == []
            && s.attempts ==
               (if byMarker then [] else [[0xff, 0x55, 2, 0, 0xee, 0x10]]) +
               [FIRST_SYN, Frame(0xc0, 100, n, 0, Parameters(Adopted(q)))]
  {
    hide Frame, Parameters, Receive, Start, ControlSessionOf, ControlId, FIRST_SYN;
    var ops := Opening(first, second, third, byMarker, q, control, n, acknowledgement, session, m, a);
    ThreeApplied(INITIAL, tx, ops[0], ops[1], ops[2]);
    Opened(tx, first, byMarker);
    var s1 := Apply(INITIAL, tx, ops[0]);
    PeerSynTaken(s1, tx, second, q, control, n, acknowledgement, session);
    var s2 := Apply(s1, tx, ops[1]);
    AckTaken(s2, tx, third, m, a, 0);
    ControlFound(q.sessions);
  }

  /**
   Two new links, each established with a peer that calls the other's number 100 and offers the same control session,
   can be put to face each other: what delivery is proved for does occur.
   */
  lemma {:induction false} EndsMeet(
    txA: Transport, txB: Transport, first: int, second: int, third: int, qa: Lsp, qb: Lsp, na: Byte)
    requires forall k :: k < 3 ==> txA(k) && txB(k)
    requires 9 <= qa.maxLen && 9 <= qb.maxLen && 3 * |qa.sessions| <= 65515 && qa.sessions == qb.sessions
    ensures var opsA := Opening(first, second, third, false, qa, 0x80, na, 0, 0, na, 100);
            var opsB := Opening(first, second, third, true, qb, 0x80, 100, 0, 0, 100, 100);
            Established(System(ApplyAll(INITIAL, txA, opsA), ApplyAll(INITIAL, txB, opsB), [], [], []))
  {
    hide Frame, Parameters, FIRST_SYN, ControlId, Adopted;
    LinkEstablished(txA, first, second, third, false, qa, 0x80, na, 0, 0, na, 100);
    LinkEstablished(txB, first, second, third, true, qb, 0x80, 100, 0, 0, 100, 100);
    var opsA := Opening(first, second, third, false, qa, 0x80, na, 0, 0, na, 100);
    var opsB := Opening(first, second, third, true, qb, 0x80, 100, 0, 0, 100, 100);
    var a, b := ApplyAll(INITIAL, txA, opsA), ApplyAll(INITIAL, txB, opsB);
    OneControlId(qa.sessions, a.controlSession, b.controlSession);
    AdoptedWindow(qa);
  }

  lemma {:induction false} AdoptedWindow(q: Lsp)
    ensures 1 <= Adopted(q).maxOutgoing <= 128
  {}

  lemma {:induction false} OneControlId(sessions: seq<Session>, x: Byte, y: Byte)
    requires ControlId(sessions, x) && ControlId(sessions, y)
    ensures x == y
  {
    if exists i :: 0 <= i < |sessions| && FirstOfKind0(sessions, i) && sessions[i].id == x {
      var i :| 0 <= i < |sessions| && FirstOfKind0(sessions, i) && sessions[i].id == x;
      if exists j :: 0 <= j < |sessions| && FirstOfKind0(sessions, j) && sessions[j].id == y {
        var j :| 0 <= j < |sessions| && FirstOfKind0(sessions, j) && sessions[j].id == y;
        assert i == j;
      }
    }
  }
}

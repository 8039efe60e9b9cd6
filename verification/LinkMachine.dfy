/**
 The phone-side link as a machine on values: what each operation of the link turns a state into.
 The transport is an oracle saying which of the frames handed to it, counted from the first,
 it accepts; time is supplied by the caller.
 */
module LinkMachine {
  import opened ByteStrings
  import opened LinkCodec

  datatype Phase = Detect | Negotiate | Normal | Dead

  datatype Pending = Pending(sequence: Byte, frame: Bytes, deadline: int, retries: nat)

  datatype Link = Link(
    phase: Phase,
    lsp: Lsp,
    sent: Byte,                // sequence number of the last message sent
    controlSession: Byte,      // the peer's control session
    last: Byte,                // sequence number of the last message received in order
    lastValid: bool,
    buffer: Bytes,             // received bytes not yet parsed
    nextMarker: int,
    nextSyn: int,
    pending: seq<Pending>,     // messages sent and not acknowledged
    synSequence: Byte,
    synOutstanding: bool,
    attempts: seq<Bytes>,      // every frame handed to the transport
    delivered: seq<Bytes>)     // every payload handed to the control-data callback

  /** Whether the transport accepts the n-th frame handed to it. */
  type Transport = nat -> bool

  const MARKER: Bytes := [0xff, 0x55, 0x02, 0x00, 0xee, 0x10]
  const MAX_RECEIVE_BUFFER: nat := 128 * 1024
  const MARKER_INTERVAL: nat := 1000
  const SYN_INTERVAL: nat := 500

  const INITIAL: Link := Link(
    Detect,
    Lsp(4, 65535, 0, 0, 0, 0, [Session(10, 0, 2), Session(11, 2, 1), Session(12, 1, 2)]),
    99, 10, 0, false, [], 0, 0, [], 0, false, [], [])

  function Next(n: Byte): Byte { if n == 255 then 0 else n + 1 }

  /** How far `a` is ahead of `b` on the 8-bit circle. */
  function Ahead(a: Byte, b: Byte): Byte { if a >= b then a - b else a as int - b + 256 }

  // ----- Sending -----

  /** Hands one frame to the transport. */
  function Put(s: Link, frame: Bytes): Link {
    s.(attempts := s.attempts + [frame])
  }

  predicate Accepts(tx: Transport, s: Link) { tx(|s.attempts|) }

  function PacketHeader(s: Link, payload: Bytes, sequence: Byte, control: Byte, session: Byte): Header
    requires |payload| <= 65525
  {
    Header(if payload == [] then 9 else |payload| + 10, control, sequence, s.last, session)
  }

  function PacketBytes(h: Header, payload: Bytes): Bytes {
    EncodeHeader(h) + if payload == [] then [] else payload + [Checksum(payload)]
  }

  /** The frame for a payload, or nothing when the payload does not fit a 16-bit length. */
  function EncodePacket(s: Link, payload: Bytes, sequence: Byte, control: Byte, session: Byte): Bytes {
    if |payload| > 65525 then [] else PacketBytes(PacketHeader(s, payload, sequence, control, session), payload)
  }

  /** Adds at most one frame and changes nothing else, except that a refusal kills the link. */
  function WritePacket(s: Link, tx: Transport, payload: Bytes, sequence: Byte, control: Byte, session: Byte): (r: Link)
    ensures r == s.(phase := r.phase, attempts := r.attempts)
    ensures r.phase == s.phase || r.phase == Dead
  {
    var packet := EncodePacket(s, payload, sequence, control, session);
    if packet == [] then s.(phase := Dead)
    else if Accepts(tx, s) then Put(s, packet)
    else Put(s, packet).(phase := Dead)
  }

  function SendAck(s: Link, tx: Transport): (r: Link)
    ensures r == s.(phase := r.phase, attempts := r.attempts)
    ensures r.phase == s.phase || r.phase == Dead
  {
    WritePacket(s, tx, [], s.sent, CONTROL_ACK, 0)
  }

  /** A SYN that is already outstanding keeps its number; otherwise it takes the next one. */
  function WithSyn(s: Link): Link {
    if s.synOutstanding then s else s.(sent := Next(s.sent), synSequence := Next(s.sent), synOutstanding := true)
  }

  function SendSyn(s: Link, tx: Transport, now: int, acknowledgePeer: bool): (r: Link)
    ensures r.phase == s.phase || r.phase == Dead
    ensures r.buffer == s.buffer && r.delivered == s.delivered
    ensures s.phase != Negotiate ==> r == s
  {
    if s.phase != Negotiate then s else
      var t := WithSyn(s);
      WritePacket(t, tx, EncodeLsp(s.lsp), t.synSequence, CONTROL_SYN + if acknowledgePeer then CONTROL_ACK else 0, 0)
        .(nextSyn := now + SYN_INTERVAL)
  }

  function SendMarker(s: Link, tx: Transport): Link {
    if Accepts(tx, s) then Put(s, MARKER) else Put(s, MARKER).(phase := Dead)
  }

  function Start(s: Link, tx: Transport, now: int): Link {
    if s.phase != Detect then s else
      var t := SendMarker(s, tx);
      if t.phase == Dead then t else SendSyn(t.(phase := Negotiate), tx, now, false)
  }

  function Deadline(s: Link, now: int): int { now + s.lsp.retransmissionTimeout }

  /**
   A control message is accepted only in Normal, within the length and window limits, and if the transport takes it.
   */
  function SendControl(s: Link, tx: Transport, now: int, payload: Bytes): (r: (Link, bool)) {
    if s.phase != Normal || payload == [] || s.lsp.maxLen < 10 || |payload| > s.lsp.maxLen - 10 then (s, false)
    else if |s.pending| >= s.lsp.maxOutgoing then (s, false)
    else
      var sequence := Next(s.sent);
      var frame := EncodePacket(s, payload, sequence, CONTROL_ACK, s.controlSession);
      var t := Put(s, frame).(sent := sequence);
      if Accepts(tx, s)
      then (t.(pending := s.pending + [Pending(sequence, frame, Deadline(s, now), 0)]), true)
      else (t.(phase := Dead, pending := []), false)
  }

  function Kill(s: Link): Link { s.(phase := Dead, pending := []) }

  /** The retransmission pass from the i-th pending message on. */
  function Resend(s: Link, tx: Transport, now: int, i: nat): Link
    requires i <= |s.pending|
    decreases |s.pending| - i
  {
    if i == |s.pending| then s else
      var m := s.pending[i];
      if now < m.deadline then Resend(s, tx, now, i + 1)
      else if m.retries >= s.lsp.maxRetransmissions then Kill(s)
      else
        var again := m.(retries := m.retries + 1, deadline := Deadline(s, now));
        var t := Put(s, m.frame).(pending := s.pending[i := again]);
        if Accepts(tx, s) then Resend(t, tx, now, i + 1) else Kill(t)
  }

  function Tick(s: Link, tx: Transport, now: int): Link {
    if s.phase == Dead then s else
      var a := if s.phase == Detect && now >= s.nextMarker then SendMarker(s, tx) else s;
      if a.phase == Dead then a else
        var b := if s.phase == Detect && now >= s.nextMarker then a.(nextMarker := now + MARKER_INTERVAL) else a;
        var c := if b.phase == Negotiate && now >= b.nextSyn then SendSyn(b, tx, now, false) else b;
        Resend(c, tx, now, 0)
  }

  // ----- Receiving -----

  /** Cumulative acknowledgement on wrapping numbers: the signed 8-bit difference is not negative. */
  predicate AcknowledgedBy(sequence: Byte, acknowledgement: Byte) {
    Ahead(acknowledgement, sequence) < 128
  }

  /** The messages an acknowledgement leaves outstanding. */
  function Unacknowledged(pending: seq<Pending>, acknowledgement: Byte): (r: seq<Pending>)
    ensures |r| <= |pending|
  {
    if pending == [] then [] else
      (if AcknowledgedBy(pending[0].sequence, acknowledgement) then [] else [pending[0]]) +
      Unacknowledged(pending[1..], acknowledgement)
  }

  function Max(a: int, b: int): int { if a < b then b else a }

  /** The peer's parameters with hostile values clamped. */
  function Clamped(lsp: Lsp): Lsp {
    lsp.(
      retransmissionTimeout := Max(lsp.retransmissionTimeout, 100),
      maxOutgoing := if lsp.maxOutgoing < 1 then 1 else if lsp.maxOutgoing > 128 then 128 else lsp.maxOutgoing,
      maxRetransmissions := Max(lsp.maxRetransmissions, 1),
      ackTimeout := Max(lsp.ackTimeout, 50))
  }

  /** The id of the first session of kind 0, if the peer offers one. */
  function ControlSessionOf(sessions: seq<Session>, otherwise: Byte): Byte {
    if sessions == [] then otherwise
    else if sessions[0].kind == 0 then sessions[0].id
    else ControlSessionOf(sessions[1..], otherwise)
  }

  function HandleSyn(s: Link, tx: Transport, now: int, h: Header, payload: Bytes): (r: Link)
    ensures r.phase == s.phase || r.phase == Dead
    ensures r.buffer == s.buffer && r.delivered == s.delivered
  {
    if s.phase == Normal then SendAck(s, tx)
    else match DecodeLsp(payload)
      case None => s
      case Some(received) =>
        var lsp := Clamped(received);
        SendSyn(s.(lsp := lsp, controlSession := ControlSessionOf(lsp.sessions, s.controlSession),
                   lastValid := true, last := h.sequence),
                tx, now, true)
  }

  function HandleData(s: Link, tx: Transport, h: Header, payload: Bytes): (r: Link)
    ensures r.phase == s.phase || r.phase == Dead
    ensures r.buffer == s.buffer && s.delivered <= r.delivered
    ensures s.phase != Normal ==> r == s
  {
    if s.phase != Normal then s
    else if s.lastValid && Ahead(h.sequence, s.last) != 1 then SendAck(s, tx)
    else
      SendAck(s.(lastValid := true, last := h.sequence,
                 delivered := if h.sessionId == s.controlSession then s.delivered + [payload] else s.delivered),
              tx)
  }

  function Handle(s: Link, tx: Transport, now: int, h: Header, payload: Bytes): (r: Link)
    ensures |r.buffer| <= |s.buffer|
    ensures s.phase == Dead ==> r.phase == Dead
    ensures s.phase != Detect ==> r.phase != Detect
    ensures s.delivered <= r.delivered
  {
    if HasRst(h.control) then s.(phase := Dead, pending := [], synOutstanding := false, buffer := [])
    else
      var t := if HasAck(h.control) then s.(pending := Unacknowledged(s.pending, h.acknowledgement)) else s;
      if HasSyn(h.control) then HandleSyn(t, tx, now, h, payload)
      else if HasAck(h.control) && t.phase == Negotiate then
        if t.synOutstanding && AcknowledgedBy(t.synSequence, h.acknowledgement)
        then t.(synOutstanding := false, phase := Normal)
        else t
      else if (h.control == 0 || h.control == CONTROL_ACK) && payload != [] then HandleData(t, tx, h, payload)
      else t
  }

  // ----- Parsing -----

  /** Index of the first 0xff that is not the last byte, or the index of the last byte. */
  function SyncIndex(buffer: Bytes): (i: nat)
    requires buffer != []
    ensures i < |buffer|
    ensures forall k :: 0 <= k < i ==> buffer[k] != 0xff
    ensures i < |buffer| - 1 ==> buffer[i] == 0xff
  {
    if |buffer| == 1 || buffer[0] == 0xff then 0 else 1 + SyncIndex(buffer[1..])
  }

  /** The parsing loop: handles every complete packet in the buffer. */
  function Process(s: Link, tx: Transport, now: int): (r: Link)
    ensures s.phase == Dead ==> r.phase == Dead
    ensures s.phase != Detect ==> r.phase != Detect
    decreases |s.buffer|, 1
  {
    if |s.buffer| < 9 then s else
      var start := SyncIndex(s.buffer);
      if start == |s.buffer| - 1 then s.(buffer := s.buffer[start..])
      else if s.buffer[start + 1] != 0x5a then Process(s.(buffer := s.buffer[start + 1..]), tx, now)
      else if |s.buffer| - start < 9 then s.(buffer := s.buffer[start..])
      else ProcessAt(s.(buffer := s.buffer[start..]), tx, now)
  }

  /** The loop body once a start of packet is at the front of the buffer. */
  function ProcessAt(s: Link, tx: Transport, now: int): (r: Link)
    requires |s.buffer| >= 9
    ensures s.phase == Dead ==> r.phase == Dead
    ensures s.phase != Detect ==> r.phase != Detect
    decreases |s.buffer|, 0
  {
    match DecodeHeader(s.buffer[..9])
    case None => Process(s.(buffer := s.buffer[1..]), tx, now)
    case Some(h) =>
      if h.length > s.lsp.maxLen then s.(phase := Dead, buffer := [])
      else if |s.buffer| < h.length then s
      else
        var body, rest := s.buffer[9..h.length], s.(buffer := s.buffer[h.length..]);
        if body != [] && !ValidChecksum(body) then Process(rest, tx, now)
        else Process(Handle(rest, tx, now, h, PayloadOf(body)), tx, now)
  }

  /** What follows the header, without its closing checksum. */
  function PayloadOf(body: Bytes): Bytes {
    if body == [] then [] else body[..|body| - 1]
  }

  predicate OccursAt(pattern: Bytes, bytes: Bytes, k: nat) {
    k + |pattern| <= |bytes| && bytes[k..k + |pattern|] == pattern
  }

  /** Where a pattern first occurs in a byte string. */
  function Find(pattern: Bytes, bytes: Bytes): (r: Option<nat>)
    ensures r.Some? ==> r.value + |pattern| <= |bytes|
  {
    if |bytes| < |pattern| then None
    else if bytes[..|pattern|] == pattern then Some(0)
    else
      var r := Find(pattern, bytes[1..]);
      if r.Some? then Some(r.value + 1) else None
  }

  lemma {:induction false} FindOccurs(pattern: Bytes, bytes: Bytes)
    requires Find(pattern, bytes).Some?
    ensures OccursAt(pattern, bytes, Find(pattern, bytes).value)
    decreases |bytes|
  {
    if bytes[..|pattern|] != pattern {
      FindOccurs(pattern, bytes[1..]);
      var k := Find(pattern, bytes[1..]).value;
      assert bytes[1..][k..k + |pattern|] == bytes[k + 1..k + 1 + |pattern|];
    }
  }

  lemma {:induction false} FindFirst(pattern: Bytes, bytes: Bytes, k: nat)
    requires OccursAt(pattern, bytes, k)
    ensures Find(pattern, bytes).Some? && Find(pattern, bytes).value <= k
    decreases |bytes|
  {
    if bytes[..|pattern|] != pattern {
      assert k > 0;
      assert bytes[1..][k - 1..k - 1 + |pattern|] == bytes[k..k + |pattern|];
      FindFirst(pattern, bytes[1..], k - 1);
    }
  }

  function MeetPeer(s: Link, tx: Transport, now: int): Link { Process(SendSyn(s, tx, now, false), tx, now) }

  function Receive(s: Link, tx: Transport, now: int, bytes: Bytes): Link {
    if |s.buffer| > MAX_RECEIVE_BUFFER || |bytes| > MAX_RECEIVE_BUFFER - |s.buffer| then s.(phase := Dead, buffer := [])
    else
      var t := s.(buffer := s.buffer + bytes);
      if t.phase != Detect then Process(t, tx, now)
      else match Find(MARKER, t.buffer)
        case None => t.(buffer := if |t.buffer| > 5 then t.buffer[|t.buffer| - 5..] else t.buffer)
        case Some(i) => MeetPeer(t.(buffer := t.buffer[i + 6..], phase := Negotiate), tx, now)
  }
}

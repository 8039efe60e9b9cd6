/**
 Two links over lossy channels. One sends control messages, the other acknowledges; each direction is a
 queue of frames that may drop or repeat any frame but not reorder. Whatever happens, what the
 receiver has delivered is a prefix of what the sender has accepted, across any number of
 wrap-arounds of the 8-bit sequence numbers.
 */
module LinkDelivery {
  import opened ByteStrings
  import opened LinkCodec
  import opened LinkMachine
  import opened LinkWindow
  import opened LinkParsing

  datatype System = System(
    a: Link,                // the sender
    b: Link,                // the receiver
    ab: seq<Bytes>,         // frames on their way to the receiver
    ba: seq<Bytes>,         // frames on their way back
    accepted: seq<Bytes>)   // payloads for which the sender's send call returned true

  datatype Event =
    | Send(payload: Bytes, now: int)
    | TickSender(now: int)
    | TickReceiver(now: int)
    | Deliver(now: int)          // the receiver reads the oldest frame
    | Acknowledge(now: int)      // the sender reads the oldest frame
    | Lose(k: nat)               // a frame to the receiver disappears
    | LoseAck(k: nat)
    | Repeat(k: nat)             // a frame to the receiver is duplicated
    | RepeatAck(k: nat)

  /** The frames from attempt `from` on that the transport took. */
  function Taken(attempts: seq<Bytes>, tx: Transport, from: nat): seq<Bytes> {
    if |attempts| <= from then [] else
      var n := |attempts| - 1;
      Taken(attempts[..n], tx, from) + if tx(n) then [attempts[n]] else []
  }

  function Drop(q: seq<Bytes>, k: nat): seq<Bytes> {
    if k < |q| then q[..k] + q[k + 1..] else q
  }

  function Double(q: seq<Bytes>, k: nat): seq<Bytes> {
    if k < |q| then q[..k] + [q[k]] + q[k..] else q
  }

  function Step(s: System, txA: Transport, txB: Transport, e: Event): System {
    match e
    case Send(payload, now) =>
      var (a, ok) := SendControl(s.a, txA, now, payload);
      s.(a := a, ab := s.ab + Taken(a.attempts, txA, |s.a.attempts|),
         accepted := if ok then s.accepted + [payload] else s.accepted)
    case TickSender(now) =>
      var a := Tick(s.a, txA, now);
      s.(a := a, ab := s.ab + Taken(a.attempts, txA, |s.a.attempts|))
    case TickReceiver(now) =>
      var b := Tick(s.b, txB, now);
      s.(b := b, ba := s.ba + Taken(b.attempts, txB, |s.b.attempts|))
    case Deliver(now) =>
      if s.ab == [] then s else
        var b := Receive(s.b, txB, now, s.ab[0]);
        s.(b := b, ab := s.ab[1..], ba := s.ba + Taken(b.attempts, txB, |s.b.attempts|))
    case Acknowledge(now) =>
      if s.ba == [] then s else
        var a := Receive(s.a, txA, now, s.ba[0]);
        s.(a := a, ba := s.ba[1..], ab := s.ab + Taken(a.attempts, txA, |s.a.attempts|))
    case Lose(k) => s.(ab := Drop(s.ab, k))
    case LoseAck(k) => s.(ba := Drop(s.ba, k))
    case Repeat(k) => s.(ab := Double(s.ab, k))
    case RepeatAck(k) => s.(ba := Double(s.ba, k))
  }

  function Run(s: System, txA: Transport, txB: Transport, events: seq<Event>): System
    decreases |events|
  {
    if |events| == 0 then s else Run(Step(s, txA, txB, events[0]), txA, txB, events[1..])
  }

  /** Both ends established, agreed on the numbers and on the control session, nothing under way. */
  ghost predicate Established(s: System) {
    && s.a.phase == Normal && s.b.phase == Normal
    && s.a.pending == [] && s.b.pending == [] && s.a.buffer == [] && s.b.buffer == []
    && 1 <= s.a.lsp.maxOutgoing <= 128
    && s.b.lastValid && s.b.last == s.a.sent && s.a.controlSession == s.b.controlSession
    && s.b.delivered == [] && s.accepted == [] && s.ab == [] && s.ba == []
  }

  // ----- Invariant -----

  /** Unbounded numbers behind the 8-bit ones: message i is the i-th accepted one. */
  datatype Numbers = Numbers(
    base: Byte,         // sequence number before the first message
    una: nat,           // oldest message not acknowledged
    ab: seq<nat>,       // the message each frame in `ab` carries
    ba: seq<nat>)       // the message each frame in `ba` acknowledges

  function Seq(base: Byte, i: int): Byte { (base as int + i) % 256 }

  /** A frame carrying accepted message i; only its acknowledgement field is left open. */
  ghost predicate Carries(frame: Bytes, accepted: seq<Bytes>, session: Byte, base: Byte, i: nat) {
    && 1 <= i <= |accepted| && 9 <= |frame|
    && var p := accepted[i - 1];
       && p != [] && |p| <= 65525
       && frame == PacketBytes(Header(|p| + 10, CONTROL_ACK, Seq(base, i), frame[6], session), p)
  }

  function AckFrame(sent: Byte, base: Byte, i: nat): Bytes {
    PacketBytes(Header(9, CONTROL_ACK, sent, Seq(base, i), 0), [])
  }

  ghost predicate Progress(delivered: seq<Bytes>, accepted: seq<Bytes>, una: nat) {
    && delivered <= accepted
    && 1 <= una <= |delivered| + 1 && |accepted| <= una + 127
  }

  ghost predicate SenderOk(a: Link, accepted: seq<Bytes>, session: Byte, base: Byte, una: nat) {
    && a.phase in {Normal, Dead} && a.buffer == [] && a.controlSession == session
    && (a.phase == Normal ==>
          && a.sent == Seq(base, |accepted|)
          && 1 <= a.lsp.maxOutgoing <= 128
          && |a.pending| == |accepted| + 1 - una
          && forall j :: 0 <= j < |a.pending| ==>
               && a.pending[j].sequence == Seq(base, una + j)
               && Carries(a.pending[j].frame, accepted, session, base, una + j))
  }

  ghost predicate ReceiverOk(b: Link, session: Byte, base: Byte) {
    && b.phase in {Normal, Dead} && b.buffer == [] && b.pending == [] && b.controlSession == session
    && b.lastValid && b.last == Seq(base, |b.delivered|)
  }

  /** No frame on its way is more than 127 messages behind the receiver or behind a frame ahead of it. */
  ghost predicate DataOk(q: seq<Bytes>, index: seq<nat>, accepted: seq<Bytes>, session: Byte, base: Byte, last: nat) {
    && |index| == |q|
    && (forall j :: 0 <= j < |q| ==> Carries(q[j], accepted, session, base, index[j]) && index[j] + 127 >= last)
    && (forall i, j :: 0 <= i < j < |index| ==> index[j] + 127 >= index[i])
  }

  /** Acknowledgements on their way never decrease and name delivered messages only. */
  ghost predicate AcksOk(q: seq<Bytes>, index: seq<nat>, sent: Byte, base: Byte, una: nat, last: nat) {
    && |index| == |q|
    && (forall j :: 0 <= j < |q| ==> q[j] == AckFrame(sent, base, index[j]) && una - 1 <= index[j] <= last)
    && (forall i, j :: 0 <= i < j < |index| ==> index[i] <= index[j])
  }

  ghost predicate Inv(s: System, n: Numbers) {
    && Progress(s.b.delivered, s.accepted, n.una)
    && SenderOk(s.a, s.accepted, s.a.controlSession, n.base, n.una)
    && ReceiverOk(s.b, s.a.controlSession, n.base)
    && DataOk(s.ab, n.ab, s.accepted, s.a.controlSession, n.base, |s.b.delivered|)
    && AcksOk(s.ba, n.ba, s.b.sent, n.base, n.una, |s.b.delivered|)
  }

  lemma {:induction false} QueueLengths(s: System, n: Numbers)
    requires Inv(s, n)
    ensures |n.ab| == |s.ab| && |n.ba| == |s.ba|
  {}

  // ----- Arithmetic on the circle -----

  /** Within 127 behind and 128 ahead, exactly the next message is one step ahead on the circle. */
  lemma {:induction false} NextOnCircle(base: Byte, last: nat, i: nat)
    requires last - 127 <= i <= last + 128
    ensures Ahead(Seq(base, i), Seq(base, last)) == 1 <==> i == last + 1
  {
    var d := i - last;
    assert (base as int + i) - (base as int + last) == d;
  }

  lemma {:induction false} NextSeq(base: Byte, i: nat)
    ensures Next(Seq(base, i)) == Seq(base, i + 1)
  {}

  lemma {:induction false} AckOnCircle(base: Byte, message: nat, acknowledged: nat)
    requires message - 128 <= acknowledged <= message + 127
    ensures AcknowledgedBy(Seq(base, message), Seq(base, acknowledged)) <==> message <= acknowledged
  {
    AcknowledgedExact(base as int + message, base as int + acknowledged);
  }

  // ----- Frames -----

  lemma {:induction false} TakenNone(attempts: seq<Bytes>, tx: Transport, from: nat)
    requires |attempts| <= from
    ensures Taken(attempts, tx, from) == []
  {}

  lemma {:induction false} TakenOne(attempts: seq<Bytes>, frame: Bytes, tx: Transport, from: nat)
    requires from <= |attempts|
    ensures Taken(attempts + [frame], tx, from) == Taken(attempts, tx, from) + if tx(|attempts|) then [frame] else []
  {
    assert (attempts + [frame])[..|attempts|] == attempts;
  }

  lemma {:induction false} FrameShape(h: Header, payload: Bytes)
    requires WellSized(Packet(h, payload))
    ensures var frame := PacketBytes(h, payload);
            && |frame| == h.length && frame[0] == 0xff && frame[1] == 0x5a && frame[6] == h.acknowledgement
            && DecodeHeader(frame[..9]) == Some(h)
            && PayloadOf(frame[9..h.length]) == payload
            && (frame[9..h.length] == [] || ValidChecksum(frame[9..h.length]))
  {
    var frame := PacketBytes(h, payload);
    assert frame[..9] == EncodeHeader(h);
    HeaderRoundTrip(h);
    if payload != [] {
      ChecksumCompletes(payload, Checksum(payload));
      assert frame[9..h.length] == payload + [Checksum(payload)];
    }
  }

  lemma {:induction false} TakenNew(attempts: seq<Bytes>, frame: Bytes, tx: Transport)
    ensures Taken(attempts + [frame], tx, |attempts|) == if tx(|attempts|) then [frame] else []
  {
    TakenNone(attempts, tx, |attempts|);
    TakenOne(attempts, frame, tx, |attempts|);
  }

  /** One whole frame read by an established link with an empty buffer. */
  lemma {:induction false} ReceiveFrame(s: Link, tx: Transport, now: int, h: Header, payload: Bytes)
    requires s.buffer == [] && s.phase != Detect && WellSized(Packet(h, payload))
    ensures Receive(s, tx, now, PacketBytes(h, payload))
         == if h.length > s.lsp.maxLen then s.(phase := Dead) else Handle(s, tx, now, h, payload)
  {
    hide Process, ProcessAt, Handle, PacketBytes;
    var frame := PacketBytes(h, payload);
    FrameShape(h, payload);
    assert s.buffer + frame == frame;
    AtFront(s.(buffer := frame), tx, now);
    WholeFrame(s.(buffer := frame), tx, now, h, payload);
  }

  lemma {:induction false} AtFront(t: Link, tx: Transport, now: int)
    requires |t.buffer| >= 9 && t.buffer[0] == 0xff && t.buffer[1] == 0x5a
    ensures Process(t, tx, now) == ProcessAt(t, tx, now)
  {
    assert SyncIndex(t.buffer) == 0;
    assert t.buffer[0..] == t.buffer;
  }

  lemma {:induction false} WholeFrame(t: Link, tx: Transport, now: int, h: Header, payload: Bytes)
    requires WellSized(Packet(h, payload)) && t.buffer == PacketBytes(h, payload) && |t.buffer| >= 9
    ensures ProcessAt(t, tx, now)
         == if h.length > t.lsp.maxLen then t.(phase := Dead, buffer := [])
             else Handle(t.(buffer := []), tx, now, h, payload)
  {
    FrameShape(h, payload);
    if h.length <= t.lsp.maxLen {
      assert t.buffer[h.length..] == [];
      assert Handle(t.(buffer := []), tx, now, h, payload).buffer == [];
    }
  }

  // ----- Queues -----

  lemma {:induction false} CarriesLonger(
    frame: Bytes, accepted: seq<Bytes>, more: seq<Bytes>, session: Byte, base: Byte, i: nat)
    requires Carries(frame, accepted, session, base, i)
    ensures Carries(frame, accepted + more, session, base, i)
  {
    assert (accepted + more)[i - 1] == accepted[i - 1];
  }

  lemma {:induction false} DataLonger(
    q: seq<Bytes>, index: seq<nat>, accepted: seq<Bytes>, more: seq<Bytes>, session: Byte, base: Byte, last: nat)
    requires DataOk(q, index, accepted, session, base, last)
    ensures DataOk(q, index, accepted + more, session, base, last)
  {
    forall j | 0 <= j < |q|
      ensures Carries(q[j], accepted + more, session, base, index[j])
    {
      CarriesLonger(q[j], accepted, more, session, base, index[j]);
    }
  }

  lemma {:induction false} DataAppend(
    q: seq<Bytes>, index: seq<nat>, accepted: seq<Bytes>, session: Byte, base: Byte, last: nat, frame: Bytes, i: nat)
    requires DataOk(q, index, accepted, session, base, last)
    requires Carries(frame, accepted, session, base, i) && last <= |accepted| <= i + 127
    ensures DataOk(q + [frame], index + [i], accepted, session, base, last)
  {
    var q', index' := q + [frame], index + [i];
    forall j | 0 <= j < |q'|
      ensures Carries(q'[j], accepted, session, base, index'[j]) && index'[j] + 127 >= last
    {
      if j < |q| {
        assert q'[j] == q[j] && index'[j] == index[j];
      }
    }
    forall k, j | 0 <= k < j < |index'|
      ensures index'[j] + 127 >= index'[k]
    {
      assert Carries(q[k], accepted, session, base, index[k]);
    }
  }

  function DropIndex(q: seq<nat>, k: nat): seq<nat> {
    if k < |q| then q[..k] + q[k + 1..] else q
  }

  function DoubleIndex(q: seq<nat>, k: nat): seq<nat> {
    if k < |q| then q[..k] + [q[k]] + q[k..] else q
  }

  lemma {:induction false} DataLose(
    q: seq<Bytes>, index: seq<nat>, accepted: seq<Bytes>, session: Byte, base: Byte, last: nat, k: nat)
    requires DataOk(q, index, accepted, session, base, last)
    ensures DataOk(Drop(q, k), DropIndex(index, k), accepted, session, base, last)
  {
    hide Carries;
    var q', index' := Drop(q, k), DropIndex(index, k);
    forall j | 0 <= j < |q'|
      ensures Carries(q'[j], accepted, session, base, index'[j]) && index'[j] + 127 >= last
    {
      var o := if k < |q| && j >= k then j + 1 else j;
      assert q'[j] == q[o] && index'[j] == index[o];
    }
  }

  lemma {:induction false} DataRepeat(
    q: seq<Bytes>, index: seq<nat>, accepted: seq<Bytes>, session: Byte, base: Byte, last: nat, k: nat)
    requires DataOk(q, index, accepted, session, base, last)
    ensures DataOk(Double(q, k), DoubleIndex(index, k), accepted, session, base, last)
  {
    hide Carries;
    var q', index' := Double(q, k), DoubleIndex(index, k);
    forall j | 0 <= j < |q'|
      ensures Carries(q'[j], accepted, session, base, index'[j]) && index'[j] + 127 >= last
    {
      var o := if k < |q| && j > k then j - 1 else j;
      assert q'[j] == q[o] && index'[j] == index[o];
    }
  }

  lemma {:induction false} AcksLose(q: seq<Bytes>, index: seq<nat>, sent: Byte, base: Byte, una: nat, last: nat, k: nat)
    requires AcksOk(q, index, sent, base, una, last)
    ensures AcksOk(Drop(q, k), DropIndex(index, k), sent, base, una, last)
  {
    hide AckFrame;
    var q', index' := Drop(q, k), DropIndex(index, k);
    forall j | 0 <= j < |q'|
      ensures q'[j] == AckFrame(sent, base, index'[j]) && una - 1 <= index'[j] <= last
    {
      var o := if k < |q| && j >= k then j + 1 else j;
      assert q'[j] == q[o] && index'[j] == index[o];
    }
  }

  lemma {:induction false} AcksRepeat(
    q: seq<Bytes>, index: seq<nat>, sent: Byte, base: Byte, una: nat, last: nat, k: nat)
    requires AcksOk(q, index, sent, base, una, last)
    ensures AcksOk(Double(q, k), DoubleIndex(index, k), sent, base, una, last)
  {
    hide AckFrame;
    var q', index' := Double(q, k), DoubleIndex(index, k);
    forall j | 0 <= j < |q'|
      ensures q'[j] == AckFrame(sent, base, index'[j]) && una - 1 <= index'[j] <= last
    {
      var o := if k < |q| && j > k then j - 1 else j;
      assert q'[j] == q[o] && index'[j] == index[o];
    }
  }

  // ----- Steps of the sender -----

  lemma {:induction false} SendStep(
    s: System, n: Numbers, tx: Transport, txB: Transport, payload: Bytes, now: int) returns (m: Numbers)
    requires Inv(s, n)
    ensures Inv(Step(s, tx, txB, Send(payload, now)), m)
  {
    hide SendControl, SenderOk, DataOk, AcksOk, Carries, Taken, ReceiverOk;
    var (a, ok) := SendControl(s.a, tx, now, payload);
    var from, session, last := |s.a.attempts|, s.a.controlSession, |s.b.delivered|;
    SendEffect(s.a, tx, now, payload, s.accepted, n.base, n.una);
    TakenNone(s.a.attempts, tx, from);
    assert s.ab + [] == s.ab;
    m := n;
    if a.attempts != s.a.attempts {
      var frame := a.attempts[from];
      TakenOne(s.a.attempts, frame, tx, from);
      assert Taken(a.attempts, tx, from) == if ok then [frame] else [];
      if ok {
        DataLonger(s.ab, n.ab, s.accepted, [payload], session, n.base, last);
        DataAppend(s.ab, n.ab, s.accepted + [payload], session, n.base, last, frame, |s.accepted| + 1);
        m := n.(ab := n.ab + [|s.accepted| + 1]);
      }
    }
  }

  /** A payload that is accepted is on the wire and in the window; one that is refused leaves the window alone. */
  lemma {:induction false} SendEffect(
    a: Link, tx: Transport, now: int, payload: Bytes, accepted: seq<Bytes>, base: Byte, una: nat)
    requires SenderOk(a, accepted, a.controlSession, base, una) && una <= |accepted| + 1
    ensures var (t, ok) := SendControl(a, tx, now, payload);
            var from, session := |a.attempts|, a.controlSession;
            && t.controlSession == session
            && (t.attempts != a.attempts ==>
                  |t.attempts| == from + 1 && t.attempts == a.attempts + [t.attempts[from]] && ok == tx(from))
            && SenderOk(t, if ok then accepted + [payload] else accepted, session, base, una)
            && (ok ==> t.attempts != a.attempts && |accepted| + 1 <= una + 127 &&
                       Carries(t.attempts[from], accepted + [payload], session, base, |accepted| + 1))
  {
    var (t, ok) := SendControl(a, tx, now, payload);
    if ok {
      NextSeq(base, |accepted|);
      assert (accepted + [payload])[|accepted|] == payload;
      NewFrame(a, tx, now, payload, accepted + [payload], base);
      PendingLonger(a, t, accepted, payload, a.controlSession, base, una);
    }
  }

  lemma {:induction false} NewFrame(s: Link, tx: Transport, now: int, payload: Bytes, accepted: seq<Bytes>, base: Byte)
    requires SendControl(s, tx, now, payload).1
    requires accepted != [] && accepted[|accepted| - 1] == payload && Next(s.sent) == Seq(base, |accepted|)
    ensures var t := SendControl(s, tx, now, payload).0;
            t.attempts == s.attempts + [t.attempts[|s.attempts|]]
            && Carries(t.attempts[|s.attempts|], accepted, s.controlSession, base, |accepted|)
  {
    var t := SendControl(s, tx, now, payload).0;
    FrameShape(PacketHeader(s, payload, Next(s.sent), CONTROL_ACK, s.controlSession), payload);
  }

  lemma {:induction false} PendingLonger(
    a: Link, t: Link, accepted: seq<Bytes>, payload: Bytes, session: Byte, base: Byte, una: nat)
    requires SenderOk(a, accepted, session, base, una) && a.phase == Normal
    requires t.phase == Normal && t.buffer == [] && t.controlSession == session && t.lsp == a.lsp
    requires t.sent == Seq(base, |accepted| + 1) && |t.pending| == |a.pending| + 1 &&
             t.pending[..|a.pending|] == a.pending
    requires var last := t.pending[|a.pending|];
             last.sequence == t.sent && Carries(last.frame, accepted + [payload], session, base, |accepted| + 1)
    requires una <= |accepted| + 1
    ensures SenderOk(t, accepted + [payload], session, base, una)
  {
    forall j | 0 <= j < |t.pending|
      ensures t.pending[j].sequence == Seq(base, una + j)
      ensures Carries(t.pending[j].frame, accepted + [payload], session, base, una + j)
    {
      if j < |a.pending| {
        assert t.pending[j] == t.pending[..|a.pending|][j] == a.pending[j];
        CarriesLonger(a.pending[j].frame, accepted, [payload], session, base, una + j);
      }
    }
  }

  /** A retransmission pass puts only outstanding messages on the queue. */
  lemma {:induction false} ResendStep(
    a: Link, tx: Transport, now: int, k: nat, q: seq<Bytes>, index: seq<nat>, from: nat,
    accepted: seq<Bytes>, session: Byte, base: Byte, una: nat, last: nat) returns (index': seq<nat>)
    requires SenderOk(a, accepted, session, base, una) && a.phase == Normal && k <= |a.pending| && from <= |a.attempts|
    requires DataOk(q + Taken(a.attempts, tx, from), index, accepted, session, base, last)
    requires last <= |accepted| <= una + 127
    ensures var t := Resend(a, tx, now, k);
            && SenderOk(t, accepted, session, base, una)
            && DataOk(q + Taken(t.attempts, tx, from), index', accepted, session, base, last)
    decreases |a.pending| - k
  {
    hide SenderOk, DataOk, Carries, Taken, Resend, Again, Kill, Deadline;
    ResendTurn(a, tx, now, k);
    if k == |a.pending| {
      index' := index;
    } else {
      var m := a.pending[k];
      if now < m.deadline {
        index' := ResendStep(a, tx, now, k + 1, q, index, from, accepted, session, base, una, last);
      } else if m.retries >= a.lsp.maxRetransmissions {
        KilledOk(a, accepted, session, base, una);
        index' := index;
      } else {
        var t := Again(a, now, k);
        ChargedOk(a, now, k, accepted, session, base, una);
        ResendOne(a.attempts, m.frame, tx, from, q, index, accepted, session, base, una + k, last);
        if tx(|a.attempts|) {
          index' := ResendStep(t, tx, now, k + 1, q, index + [una + k], from, accepted, session, base, una, last);
        } else {
          KilledOk(t, accepted, session, base, una);
          index' := index;
        }
      }
    }
  }

  lemma {:induction false} KilledOk(a: Link, accepted: seq<Bytes>, session: Byte, base: Byte, una: nat)
    requires SenderOk(a, accepted, session, base, una)
    ensures SenderOk(Kill(a), accepted, session, base, una) && Kill(a).attempts == a.attempts
  {}

  lemma {:induction false} ResendOne(
    attempts: seq<Bytes>, frame: Bytes, tx: Transport, from: nat, q: seq<Bytes>, index: seq<nat>,
    accepted: seq<Bytes>, session: Byte, base: Byte, i: nat, last: nat)
    requires from <= |attempts| && DataOk(q + Taken(attempts, tx, from), index, accepted, session, base, last)
    requires Carries(frame, accepted, session, base, i) && last <= |accepted| <= i + 127
    ensures DataOk(q + Taken(attempts + [frame], tx, from), if tx(|attempts|) then index + [i] else index,
                   accepted, session, base, last)
  {
    var taken := Taken(attempts, tx, from);
    TakenOne(attempts, frame, tx, from);
    if tx(|attempts|) {
      DataAppend(q + taken, index, accepted, session, base, last, frame, i);
      assert q + (taken + [frame]) == q + taken + [frame];
    } else {
      assert taken + [] == taken;
    }
  }

  lemma {:induction false} ChargedOk(
    a: Link, now: int, k: nat, accepted: seq<Bytes>, session: Byte, base: Byte, una: nat)
    requires k < |a.pending| && SenderOk(a, accepted, session, base, una) && a.phase == Normal
    ensures SenderOk(Again(a, now, k), accepted, session, base, una)
    ensures Carries(a.pending[k].frame, accepted, session, base, una + k) && |a.pending| == |accepted| + 1 - una
    ensures var t := Again(a, now, k);
            t.phase == Normal && |t.pending| == |a.pending| && t.attempts == a.attempts + [a.pending[k].frame]
  {}

  lemma {:induction false} TickSenderStep(
    s: System, n: Numbers, tx: Transport, txB: Transport, now: int) returns (m: Numbers)
    requires Inv(s, n)
    ensures Inv(Step(s, tx, txB, TickSender(now)), m) && m == n.(ab := m.ab)
  {
    var from := |s.a.attempts|;
    TakenNone(s.a.attempts, tx, from);
    assert s.ab + [] == s.ab;
    if s.a.phase == Dead {
      m := n;
    } else {
      var index :=
          ResendStep(s.a, tx, now, 0, s.ab, n.ab, from, s.accepted, s.a.controlSession, n.base, n.una, |s.b.delivered|);
      m := n.(ab := index);
    }
  }

  /** An acknowledgement of message i leaves exactly the messages after i. */
  lemma {:induction false} AcknowledgeFrom(pending: seq<Pending>, base: Byte, una: nat, i: nat)
    requires |pending| <= 128 && una - 1 <= i < una + 128 && i + 128 >= una + |pending| - 1
    requires forall j :: 0 <= j < |pending| ==> pending[j].sequence == Seq(base, una + j)
    ensures var k := if i < una then 0 else i + 1 - una;
            Unacknowledged(pending, Seq(base, i)) == if k <= |pending| then pending[k..] else []
    decreases |pending|
  {
    if pending != [] {
      AckOnCircle(base, una, i);
      var tail := pending[1..];
      forall j | 0 <= j < |tail|
        ensures tail[j].sequence == Seq(base, una + 1 + j)
      {
        assert tail[j] == pending[j + 1];
      }
      if i < una {
        NoneAcknowledged(tail, base, una + 1, i);
      } else {
        AcknowledgeFrom(tail, base, una + 1, i);
      }
    }
  }

  lemma {:induction false} NoneAcknowledged(pending: seq<Pending>, base: Byte, una: nat, i: nat)
    requires i < una && i + 128 >= una + |pending| - 1
    requires forall j :: 0 <= j < |pending| ==> pending[j].sequence == Seq(base, una + j)
    ensures Unacknowledged(pending, Seq(base, i)) == pending
    decreases |pending|
  {
    if pending != [] {
      AckOnCircle(base, una, i);
      forall j | 0 <= j < |pending[1..]|
        ensures pending[1..][j].sequence == Seq(base, una + 1 + j)
      {
        assert pending[1..][j] == pending[j + 1];
      }
      NoneAcknowledged(pending[1..], base, una + 1, i);
    }
  }

  /**
   An established sender drops exactly the messages up to the one acknowledged from its window, and nothing else
   changes.
   */
  lemma {:induction false} SenderReadsAck(
    a: Link, tx: Transport, now: int, sent: Byte, accepted: seq<Bytes>, session: Byte, base: Byte, una: nat, i: nat)
    requires SenderOk(a, accepted, session, base, una) && 1 <= una && una - 1 <= i <= |accepted| <= una + 127
    ensures var t := Receive(a, tx, now, AckFrame(sent, base, i));
            && SenderOk(t, accepted, session, base, i + 1)
            && t == a.(phase := t.phase, pending := t.pending)
            && (a.phase == Normal && HEADER_SIZE <= a.lsp.maxLen ==>
                  t.phase == Normal && t.pending == a.pending[i + 1 - una..])
  {
    hide Receive, Handle, Unacknowledged, Carries, PacketBytes;
    ReceiveFrame(a, tx, now, Header(9, CONTROL_ACK, sent, Seq(base, i), 0), []);
    HandleAck(a, tx, now, sent, Seq(base, i));
    if a.phase == Normal {
      AcknowledgeFrom(a.pending, base, una, i);
      WindowSlides(a, accepted, session, base, una, i + 1 - una);
    }
  }

  lemma {:induction false} HandleAck(a: Link, tx: Transport, now: int, sent: Byte, acknowledgement: Byte)
    requires a.phase in {Normal, Dead}
    ensures Handle(a, tx, now, Header(9, CONTROL_ACK, sent, acknowledgement, 0), [])
         == a.(pending := Unacknowledged(a.pending, acknowledgement))
  {}

  lemma {:induction false} WindowSlides(a: Link, accepted: seq<Bytes>, session: Byte, base: Byte, una: nat, k: nat)
    requires SenderOk(a, accepted, session, base, una) && a.phase == Normal && k <= |a.pending|
    ensures SenderOk(a.(pending := a.pending[k..]), accepted, session, base, una + k)
  {}

  lemma {:induction false} AcknowledgeStep(
    s: System, n: Numbers, tx: Transport, txB: Transport, now: int) returns (m: Numbers)
    requires Inv(s, n)
    ensures Inv(Step(s, tx, txB, Acknowledge(now)), m)
    ensures s.ba != [] ==> m == n.(una := n.ba[0] + 1, ba := n.ba[1..])
  {
    hide SenderOk, DataOk, ReceiverOk, Receive, AckFrame, Taken;
    if s.ba == [] {
      m := n;
    } else {
      var i := n.ba[0];
      SenderReadsAck(s.a, tx, now, s.b.sent, s.accepted, s.a.controlSession, n.base, n.una, i);
      var a := Receive(s.a, tx, now, s.ba[0]);
      TakenNone(a.attempts, tx, |s.a.attempts|);
      assert s.ab + [] == s.ab;
      m := n.(una := i + 1, ba := n.ba[1..]);
      AcksTail(s.ba, n.ba, s.b.sent, n.base, n.una, |s.b.delivered|);
    }
  }

  lemma {:induction false} AcksTail(q: seq<Bytes>, index: seq<nat>, sent: Byte, base: Byte, una: nat, last: nat)
    requires AcksOk(q, index, sent, base, una, last) && q != []
    ensures AcksOk(q[1..], index[1..], sent, base, index[0] + 1, last)
  {
    hide AckFrame;
    forall j | 0 <= j < |q[1..]|
      ensures q[1..][j] == AckFrame(sent, base, index[1..][j]) && index[0] <= index[1..][j] <= last
    {
      assert q[1..][j] == q[j + 1] && index[1..][j] == index[j + 1];
    }
  }

  // ----- Steps of the receiver -----

  lemma {:induction false} AckSent(b: Link, tx: Transport, base: Byte)
    requires b.last == Seq(base, |b.delivered|)
    ensures var t := SendAck(b, tx);
            && t.attempts == b.attempts + [AckFrame(b.sent, base, |b.delivered|)]
            && t == b.(phase := t.phase, attempts := t.attempts)
            && t.phase == if tx(|b.attempts|) then b.phase else Dead
  {}

  /**
   A living receiver delivers message i exactly when it is the next one, and acknowledges the last one it has either
   way. A frame longer than it allows kills it, and a dead one does nothing.
   */
  lemma {:induction false} ReceiverReadsFrame(
    b: Link, tx: Transport, now: int, frame: Bytes, accepted: seq<Bytes>, session: Byte, base: Byte, i: nat)
    requires ReceiverOk(b, session, base) && Carries(frame, accepted, session, base, i)
    requires |b.delivered| - 127 <= i <= |b.delivered| + 128
    ensures var t := Receive(b, tx, now, frame);
            && ReceiverOk(t, session, base)
            && if b.phase == Normal && |frame| <= b.lsp.maxLen then
                 && t.delivered == (if i == |b.delivered| + 1 then b.delivered + [accepted[i - 1]] else b.delivered)
                 && t.attempts == b.attempts + [AckFrame(b.sent, base, |t.delivered|)]
                 && t.phase == (if tx(|b.attempts|) then Normal else Dead)
                 && t == b.(phase := t.phase, last := t.last, delivered := t.delivered, attempts := t.attempts)
               else t == b.(phase := Dead)
  {
    hide Receive, Handle, SendAck, PacketBytes, AckFrame, Ahead;
    var p := accepted[i - 1];
    var h := Header(|p| + 10, CONTROL_ACK, Seq(base, i), frame[6], session);
    FrameShape(h, p);
    ReceiveFrame(b, tx, now, h, p);
    HandleDataFrame(b, tx, now, h, p);
    NextOnCircle(base, |b.delivered|, i);
    if i == |b.delivered| + 1 {
      AckSent(b.(last := h.sequence, delivered := b.delivered + [p]), tx, base);
    } else {
      AckSent(b, tx, base);
    }
  }

  lemma {:induction false} HandleDataFrame(b: Link, tx: Transport, now: int, h: Header, p: Bytes)
    requires b.phase in {Normal, Dead} && b.pending == [] && b.lastValid && b.controlSession == h.sessionId
    requires h.control == CONTROL_ACK && p != []
    ensures Handle(b, tx, now, h, p) ==
            if b.phase == Dead then b
            else if Ahead(h.sequence, b.last) == 1
            then SendAck(b.(last := h.sequence, delivered := b.delivered + [p]), tx)
            else SendAck(b, tx)
  {
    assert b.(pending := Unacknowledged(b.pending, h.acknowledgement)) == b;
  }

  lemma {:induction false} DeliverStep(
    s: System, n: Numbers, txA: Transport, tx: Transport, now: int) returns (m: Numbers)
    requires Inv(s, n)
    ensures Inv(Step(s, txA, tx, Deliver(now)), m)
    ensures s.ab != [] && s.b.phase == Normal && |s.ab[0]| <= s.b.lsp.maxLen && tx(|s.b.attempts|) ==>
              m == n.(ab := n.ab[1..], ba := n.ba + [|Step(s, txA, tx, Deliver(now)).b.delivered|])
  {
    hide Receive, DataOk, AcksOk, Carries, AckFrame, SenderOk, Taken;
    QueueLengths(s, n);
    if s.ab == [] {
      m := n;
    } else {
      var i, session, last := n.ab[0], s.a.controlSession, |s.b.delivered|;
      DataHead(s.ab, n.ab, s.accepted, session, n.base, last);
      ReceiverReadsFrame(s.b, tx, now, s.ab[0], s.accepted, session, n.base, i);
      var b := Receive(s.b, tx, now, s.ab[0]);
      DataTail(s.ab, n.ab, s.accepted, session, n.base, last, |b.delivered|);
      AcksLater(s.ba, n.ba, s.b.sent, n.base, n.una, last, |b.delivered|);
      m := n.(ab := n.ab[1..]);
      TakenNone(s.b.attempts, tx, |s.b.attempts|);
      assert s.ba + [] == s.ba;
      if b.attempts != s.b.attempts {
        var ack := AckFrame(s.b.sent, n.base, |b.delivered|);
        TakenNew(s.b.attempts, ack, tx);
        if tx(|s.b.attempts|) {
          AcksAppend(s.ba, n.ba, s.b.sent, n.base, n.una, |b.delivered|);
          m := m.(ba := n.ba + [|b.delivered|]);
        }
      }
    }
  }

  lemma {:induction false} DataHead(
    q: seq<Bytes>, index: seq<nat>, accepted: seq<Bytes>, session: Byte, base: Byte, last: nat)
    requires DataOk(q, index, accepted, session, base, last) && q != [] && |accepted| <= last + 128
    ensures index != [] && Carries(q[0], accepted, session, base, index[0]) && last - 127 <= index[0] <= last + 128
  {}

  lemma {:induction false} DataTail(
    q: seq<Bytes>, index: seq<nat>, accepted: seq<Bytes>, session: Byte, base: Byte, last: nat, last': nat)
    requires DataOk(q, index, accepted, session, base, last) && q != [] && (last' == last || last' == index[0])
    ensures DataOk(q[1..], index[1..], accepted, session, base, last')
  {
    hide Carries;
    forall j | 0 <= j < |q[1..]|
      ensures Carries(q[1..][j], accepted, session, base, index[1..][j]) && index[1..][j] + 127 >= last'
    {
      assert q[1..][j] == q[j + 1] && index[1..][j] == index[j + 1];
    }
  }

  lemma {:induction false} AcksLater(
    q: seq<Bytes>, index: seq<nat>, sent: Byte, base: Byte, una: nat, last: nat, last': nat)
    requires AcksOk(q, index, sent, base, una, last) && last <= last'
    ensures AcksOk(q, index, sent, base, una, last')
  {}

  lemma {:induction false} AcksAppend(q: seq<Bytes>, index: seq<nat>, sent: Byte, base: Byte, una: nat, last: nat)
    requires AcksOk(q, index, sent, base, una, last) && una <= last + 1
    ensures AcksOk(q + [AckFrame(sent, base, last)], index + [last], sent, base, una, last)
  {
    hide AckFrame;
    var q', index' := q + [AckFrame(sent, base, last)], index + [last];
    forall j | 0 <= j < |q'|
      ensures q'[j] == AckFrame(sent, base, index'[j]) && una - 1 <= index'[j] <= last
    {
      if j < |q| {
        assert q'[j] == q[j] && index'[j] == index[j];
      }
    }
  }

  lemma {:induction false} TickReceiverStep(s: System, n: Numbers, txA: Transport, tx: Transport, now: int)
    requires Inv(s, n)
    ensures Inv(Step(s, txA, tx, TickReceiver(now)), n)
  {
    assert Tick(s.b, tx, now) == s.b;
    TakenNone(s.b.attempts, tx, |s.b.attempts|);
    assert s.ba + [] == s.ba;
  }

  // ----- Whole runs -----

  lemma {:induction false} OneStep(s: System, n: Numbers, txA: Transport, txB: Transport, e: Event) returns (m: Numbers)
    requires Inv(s, n)
    ensures Inv(Step(s, txA, txB, e), m)
  {
    var session, last := s.a.controlSession, |s.b.delivered|;
    match e {
      case Send(payload, now) => m := SendStep(s, n, txA, txB, payload, now);
      case TickSender(now) => m := TickSenderStep(s, n, txA, txB, now);
      case TickReceiver(now) =>
        TickReceiverStep(s, n, txA, txB, now);
        m := n;
      case Deliver(now) => m := DeliverStep(s, n, txA, txB, now);
      case Acknowledge(now) => m := AcknowledgeStep(s, n, txA, txB, now);
      case Lose(k) =>
        DataLose(s.ab, n.ab, s.accepted, session, n.base, last, k);
        m := n.(ab := DropIndex(n.ab, k));
      case LoseAck(k) =>
        AcksLose(s.ba, n.ba, s.b.sent, n.base, n.una, last, k);
        m := n.(ba := DropIndex(n.ba, k));
      case Repeat(k) =>
        DataRepeat(s.ab, n.ab, s.accepted, session, n.base, last, k);
        m := n.(ab := DoubleIndex(n.ab, k));
      case RepeatAck(k) =>
        AcksRepeat(s.ba, n.ba, s.b.sent, n.base, n.una, last, k);
        m := n.(ba := DoubleIndex(n.ba, k));
    }
  }

  function StartNumbers(s: System): Numbers { Numbers(s.a.sent, 1, [], []) }

  lemma {:induction false} StartInv(s: System)
    requires Established(s)
    ensures Inv(s, StartNumbers(s))
  {}

  lemma {:induction false} RunKeepsInv(
    s: System, n: Numbers, txA: Transport, txB: Transport, events: seq<Event>) returns (m: Numbers)
    requires Inv(s, n)
    ensures Inv(Run(s, txA, txB, events), m)
    decreases |events|
  {
    if |events| == 0 {
      m := n;
    } else {
      m := OneStep(s, n, txA, txB, events[0]);
      m := RunKeepsInv(Step(s, txA, txB, events[0]), m, txA, txB, events[1..]);
    }
  }

  /**
   Safety of every run: the delivered payloads are a prefix of the accepted ones, in order and each
   once, and a message leaves the sender's window only after it has been delivered.
   */
  lemma {:induction false} InOrderExactlyOnce(s: System, txA: Transport, txB: Transport, events: seq<Event>)
    requires Established(s)
    ensures var r := Run(s, txA, txB, events);
            && r.b.delivered <= r.accepted
            && (r.a.phase == Normal ==> |r.accepted| <= |r.b.delivered| + |r.a.pending|)
            && (r.a.phase == Normal ==> |r.a.pending| <= 128 && Block(r.a.pending, r.a.sent))
  {
    StartInv(s);
    var m := RunKeepsInv(s, StartNumbers(s), txA, txB, events);
    var r := Run(s, txA, txB, events);
    if r.a.phase == Normal {
      forall j | 0 <= j < |r.a.pending|
        ensures Ahead(r.a.sent, r.a.pending[j].sequence) == |r.a.pending| - 1 - j
      {
        OnCircle(m.base, m.una + j, |r.accepted|);
      }
    }
  }

  lemma {:induction false} OnCircle(base: Byte, i: nat, total: nat)
    requires i <= total < i + 256
    ensures Ahead(Seq(base, total), Seq(base, i)) == total - i
  {}

  // ----- Everything arrives -----

  /** Both ends established and able to send, and no accepted message too long for the receiver. */
  ghost predicate Healthy(s: System, txA: Transport, txB: Transport) {
    && s.a.phase == Normal && s.b.phase == Normal && HEADER_SIZE <= s.a.lsp.maxLen
    && (forall k :: k >= |s.a.attempts| ==> txA(k)) && (forall k :: k >= |s.b.attempts| ==> txB(k))
    && forall p <- s.accepted :: |p| + 10 <= s.b.lsp.maxLen
  }

  lemma {:induction false} RunOne(s: System, txA: Transport, txB: Transport, e: Event, events: seq<Event>)
    ensures Run(s, txA, txB, [e] + events) == Run(Step(s, txA, txB, e), txA, txB, events)
  {
    assert ([e] + events)[1..] == events;
  }

  lemma {:induction false} RunJoins(s: System, txA: Transport, txB: Transport, a: seq<Event>, b: seq<Event>)
    ensures Run(s, txA, txB, a + b) == Run(Run(s, txA, txB, a), txA, txB, b)
    decreases |a|
  {
    if |a| == 0 {
      assert a + b == b;
    } else {
      assert (a + b)[1..] == a[1..] + b;
      RunJoins(Step(s, txA, txB, a[0]), txA, txB, a[1..], b);
    }
  }

  lemma {:induction false} CarriedLength(frame: Bytes, accepted: seq<Bytes>, session: Byte, base: Byte, i: nat)
    requires Carries(frame, accepted, session, base, i)
    ensures accepted[i - 1] in accepted && |frame| == |accepted[i - 1]| + 10
  {
    var p := accepted[i - 1];
    FrameShape(Header(|p| + 10, CONTROL_ACK, Seq(base, i), frame[6], session), p);
  }

  /** State `t` with numbers `m` is what one read of the receiver makes of `s` with numbers `n`. */
  ghost predicate OneRead(s: System, n: Numbers, t: System, m: Numbers) {
    && s.ab != [] && n.ab != [] && t.a == s.a && t.accepted == s.accepted && t.ab == s.ab[1..]
    && m == n.(ab := n.ab[1..], ba := n.ba + [|t.b.delivered|])
    && |t.b.delivered| == if n.ab[0] == |s.b.delivered| + 1 then n.ab[0] else |s.b.delivered|
  }

  lemma {:induction false} DeliverOne(
    s: System, n: Numbers, txA: Transport, txB: Transport, now: int) returns (m: Numbers)
    requires Inv(s, n) && Healthy(s, txA, txB) && s.ab != []
    ensures var t := Step(s, txA, txB, Deliver(now)); Inv(t, m) && Healthy(t, txA, txB) && OneRead(s, n, t, m)
  {
    hide DataOk, AcksOk, Carries, AckFrame, SenderOk, Taken, Receive;
    var session := s.a.controlSession;
    DataHead(s.ab, n.ab, s.accepted, session, n.base, |s.b.delivered|);
    CarriedLength(s.ab[0], s.accepted, session, n.base, n.ab[0]);
    ReceiverReadsFrame(s.b, txB, now, s.ab[0], s.accepted, session, n.base, n.ab[0]);
    m := DeliverStep(s, n, txA, txB, now);
  }

  /** The frames on their way are consecutive messages, from one the receiver can take up to the last one. */
  ghost predicate LeadsToEnd(index: seq<nat>, last: nat, total: nat)
    requires index != []
  {
    index[0] <= last + 1 && index[|index| - 1] == total &&
    forall j :: 0 <= j < |index| ==> index[j] == index[0] + j
  }

  /** The receiver reads all there is; consecutive frames up to the last message bring everything in, acknowledged. */
  lemma {:induction false} DeliverAll(s: System, n: Numbers, txA: Transport, txB: Transport, now: int)
    returns (events: seq<Event>, m: Numbers)
    requires Inv(s, n) && Healthy(s, txA, txB)
    ensures forall e <- events :: e == Deliver(now)
    ensures var t := Run(s, txA, txB, events);
            && Inv(t, m) && Healthy(t, txA, txB) && t.a == s.a && t.accepted == s.accepted && t.ab == [] &&
               m.una == n.una
            && (n.ab != [] && LeadsToEnd(n.ab, |s.b.delivered|, |s.accepted|) ==>
                  |t.b.delivered| == |s.accepted| && m.ba != [] && m.ba[|m.ba| - 1] == |s.accepted|)
    decreases |s.ab|
  {
    hide Step, SenderOk, ReceiverOk, AcksOk, DataOk, Healthy, LeadsToEnd;
    events, m := [], n;
    QueueLengths(s, n);
    if s.ab != [] {
      var t := Step(s, txA, txB, Deliver(now));
      var last, total := |s.b.delivered|, |s.accepted|;
      m := DeliverOne(s, n, txA, txB, now);
      LeadsOn(n.ab, last, |t.b.delivered|, total);
      if |s.ab| > 1 {
        events, m := DeliverAll(t, m, txA, txB, now);
      }
      RunOne(s, txA, txB, Deliver(now), events);
      events := [Deliver(now)] + events;
    }
  }

  lemma {:induction false} LeadsOn(index: seq<nat>, last: nat, last': nat, total: nat)
    requires index != [] && last <= total && last' == if index[0] == last + 1 then index[0] else last
    ensures LeadsToEnd(index, last, total) ==> if |index| == 1 then last' == total
            else LeadsToEnd(index[1..], last', total)
  {}

  lemma {:induction false} TakenAll(attempts: seq<Bytes>, more: seq<Bytes>, tx: Transport)
    requires forall k :: k >= |attempts| ==> tx(k)
    ensures Taken(attempts + more, tx, |attempts|) == more
    decreases |more|
  {
    if |more| == 0 {
    } else {
      var n := |more| - 1;
      TakenAll(attempts, more[..n], tx);
      assert attempts + more == (attempts + more[..n]) + [more[n]];
      TakenOne(attempts + more[..n], more[n], tx, |attempts|);
    }
  }

  ghost predicate AllDue(a: Link, now: int) {
    forall m <- a.pending :: m.deadline <= now && m.retries < a.lsp.maxRetransmissions
  }

  lemma {:induction false} AllExpired(pending: seq<Pending>, now: int)
    requires forall m <- pending :: m.deadline <= now
    ensures var e := Expired(pending, now);
            |e| == |pending| && forall j :: 0 <= j < |e| ==> e[j] == pending[j].frame
    decreases |pending|
  {
    if pending != [] {
      AllExpired(pending[1..], now);
    }
  }

  function From(first: nat, count: nat): seq<nat> { seq(count, j requires j >= 0 => first + j) }

  /** A tick at which all messages are due, with retries left: it sends the whole window. */
  lemma {:induction false} TickSendsAll(a: Link, tx: Transport, now: int)
    requires a.phase == Normal && AllDue(a, now) && forall k :: k >= |a.attempts| ==> tx(k)
    ensures var t := Tick(a, tx, now);
            && t == a.(pending := t.pending, attempts := t.attempts)
            && t.attempts == a.attempts + Expired(a.pending, now)
  {
    hide Resend, Expired;
    assert a.pending[0..] == a.pending;
    ResendEffect(a, tx, now, 0);
  }

  lemma {:induction false} WindowOk(
    a: Link, frames: seq<Bytes>, accepted: seq<Bytes>, session: Byte, base: Byte, una: nat, last: nat)
    requires SenderOk(a, accepted, session, base, una) && a.phase == Normal && last <= |accepted| <= una + 127
    requires |frames| == |a.pending| && forall j :: 0 <= j < |frames| ==> frames[j] == a.pending[j].frame
    ensures DataOk(frames, From(una, |frames|), accepted, session, base, last)
  {
    var index := From(una, |frames|);
    forall j | 0 <= j < |frames|
      ensures Carries(frames[j], accepted, session, base, index[j]) && index[j] + 127 >= last
    {}
  }

  lemma {:induction false} TickSends(s: System, txA: Transport, txB: Transport, now: int)
    requires s.a.phase == Normal && s.ab == [] && AllDue(s.a, now) && forall k :: k >= |s.a.attempts| ==> txA(k)
    ensures var t, frames := Step(s, txA, txB, TickSender(now)), Expired(s.a.pending, now);
            && t == s.(a := t.a, ab := frames)
            && t.a == s.a.(pending := t.a.pending, attempts := s.a.attempts + frames)
  {
    hide Taken, Expired, Tick;
    TickSendsAll(s.a, txA, now);
    var frames := Expired(s.a.pending, now);
    TakenAll(s.a.attempts, frames, txA);
    assert [] + frames == frames;
  }

  lemma {:induction false} TickOne(s: System, n: Numbers, txA: Transport, txB: Transport, now: int) returns (m: Numbers)
    requires Inv(s, n) && Healthy(s, txA, txB) && s.ab == [] && AllDue(s.a, now)
    ensures var t := Step(s, txA, txB, TickSender(now));
            && Inv(t, m) && Healthy(t, txA, txB) && t.b == s.b && t.accepted == s.accepted
            && m == n.(ab := From(n.una, |s.accepted| + 1 - n.una))
  {
    hide SenderOk, ReceiverOk, DataOk, AcksOk, Carries, Expired, Step;
    m := TickSenderStep(s, n, txA, txB, now);
    TickSends(s, txA, txB, now);
    AllExpired(s.a.pending, now);
    var frames := Expired(s.a.pending, now);
    WindowOk(s.a, frames, s.accepted, s.a.controlSession, n.base, n.una, |s.b.delivered|);
    WindowLength(s.a, s.accepted, s.a.controlSession, n.base, n.una);
    m := n.(ab := From(n.una, |frames|));
  }

  lemma {:induction false} WindowLength(a: Link, accepted: seq<Bytes>, session: Byte, base: Byte, una: nat)
    requires SenderOk(a, accepted, session, base, una) && a.phase == Normal
    ensures |a.pending| == |accepted| + 1 - una
  {}

  /** The sender reads all acknowledgements there are; the last one counts. */
  lemma {:induction false} AcknowledgeAll(s: System, n: Numbers, txA: Transport, txB: Transport, now: int)
    returns (events: seq<Event>, m: Numbers)
    requires Inv(s, n) && Healthy(s, txA, txB)
    ensures forall e <- events :: e == Acknowledge(now)
    ensures var t := Run(s, txA, txB, events);
            && Inv(t, m) && Healthy(t, txA, txB) && t.b == s.b && t.accepted == s.accepted
            && m.una >= n.una && m.una == if n.ba == [] then n.una else n.ba[|n.ba| - 1] + 1
    decreases |s.ba|
  {
    hide Step, SenderOk, ReceiverOk, AcksOk, DataOk, Healthy;
    events, m := [], n;
    QueueLengths(s, n);
    if s.ba != [] {
      m := AcknowledgeOne(s, n, txA, txB, now);
      events, m := AcknowledgeAll(Step(s, txA, txB, Acknowledge(now)), m, txA, txB, now);
      RunOne(s, txA, txB, Acknowledge(now), events);
      events := [Acknowledge(now)] + events;
    }
  }

  lemma {:induction false} AcknowledgeOne(
    s: System, n: Numbers, txA: Transport, txB: Transport, now: int) returns (m: Numbers)
    requires Inv(s, n) && Healthy(s, txA, txB) && s.ba != []
    ensures var t := Step(s, txA, txB, Acknowledge(now));
            && Inv(t, m) && Healthy(t, txA, txB) && t.b == s.b && t.accepted == s.accepted && t.ba == s.ba[1..]
            && n.ba != [] && n.ba[0] + 1 >= n.una && m == n.(una := n.ba[0] + 1, ba := n.ba[1..])
  {
    hide DataOk, Carries, AckFrame, SenderOk, Receive;
    m := AcknowledgeStep(s, n, txA, txB, now);
    SenderReadsAck(s.a, txA, now, s.b.sent, s.accepted, s.a.controlSession, n.base, n.una, n.ba[0]);
    var a := Receive(s.a, txA, now, s.ba[0]);
    TakenNone(a.attempts, txA, |s.a.attempts|);
  }

  lemma {:induction false} FullQueue(una: nat, last: nat, total: nat)
    requires 1 <= una <= last + 1 && una <= total && From(una, total + 1 - una) != []
    ensures LeadsToEnd(From(una, total + 1 - una), last, total)
  {}

  lemma {:induction false} AllIn(s: System, n: Numbers, txA: Transport, txB: Transport)
    requires Inv(s, n) && Healthy(s, txA, txB) && n.una == |s.accepted| + 1
    ensures s.b.delivered == s.accepted && s.a.phase == Normal && s.a.pending == []
  {}

  /**
   Nothing is lost for good: from any state of any run in which both ends are established, there are ticks, reads and
   nothing else after which every accepted payload has been delivered and the window is empty. What it takes is that the
   transports accept what comes, that no outstanding message is out of retries, and that the receiver allows the
   lengths.
   */
  lemma {:induction false} EverythingArrives(
    start: System, txA: Transport, txB: Transport, events: seq<Event>, now: int) returns (more: seq<Event>)
    requires Established(start)
    requires var s := Run(start, txA, txB, events); Healthy(s, txA, txB) && AllDue(s.a, now)
    ensures forall e <- more :: e == Deliver(now) || e == TickSender(now) || e == Acknowledge(now)
    ensures var s, r := Run(start, txA, txB, events), Run(start, txA, txB, events + more);
            r.accepted == s.accepted && r.b.delivered == r.accepted && r.a.phase == Normal && r.a.pending == []
  {
    hide Step, Run, SenderOk, ReceiverOk, DataOk, AcksOk, Healthy, LeadsToEnd;
    var s := Run(start, txA, txB, events);
    StartInv(start);
    var n := RunKeepsInv(start, StartNumbers(start), txA, txB, events);
    var first, m1 := DeliverAll(s, n, txA, txB, now);
    var s1 := Run(s, txA, txB, first);
    var m2 := TickOne(s1, m1, txA, txB, now);
    var s2 := Step(s1, txA, txB, TickSender(now));
    if m2.una <= |s2.accepted| {
      FullQueue(m2.una, |s2.b.delivered|, |s2.accepted|);
    }
    var second, m3 := DeliverAll(s2, m2, txA, txB, now);
    var s3 := Run(s2, txA, txB, second);
    var third, m4 := AcknowledgeAll(s3, m3, txA, txB, now);
    var s4 := Run(s3, txA, txB, third);
    AllIn(s4, m4, txA, txB);
    more := first + ([TickSender(now)] + (second + third));
    RunJoins(start, txA, txB, events, more);
    RunJoins(s, txA, txB, first, [TickSender(now)] + (second + third));
    RunOne(s1, txA, txB, TickSender(now), second + third);
    RunJoins(s2, txA, txB, second, third);
  }
}

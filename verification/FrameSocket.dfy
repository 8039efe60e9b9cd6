/**
 The length-prefixed socket between the worker and the daemon: a bounded queue, a writer that
 connects, writes in pieces, fails and puts frames back, and a receiver that serves one connection after the other.
 The two ends and the network take steps in any order.
 */
module FrameSocket {
  import opened ByteStrings
  import opened Lists

  const MAX_FRAME: nat := 4 * 1024 * 1024
  const MAX_FRAMES: nat := 256
  const MAX_QUEUED: nat := 16 * 1024 * 1024

  // ----- The queue -----

  datatype Queue = Queue(frames: seq<Bytes>, bytes: nat)

  predicate Sendable(frame: Bytes) { 0 < |frame| <= MAX_FRAME }

  ghost predicate Bounded(q: Queue) {
    |q.frames| <= MAX_FRAMES && q.bytes == Total(q.frames) <= MAX_QUEUED && forall f <- q.frames :: Sendable(f)
  }

  predicate HasRoom(q: Queue, frame: Bytes) {
    |q.frames| < MAX_FRAMES && q.bytes + |frame| <= MAX_QUEUED
  }

  function Offered(q: Queue, frame: Bytes): Queue { Queue(q.frames + [frame], q.bytes + |frame|) }

  function Requeued(q: Queue, frame: Bytes): Queue { Queue([frame] + q.frames, q.bytes + |frame|) }

  function Popped(q: Queue): Queue
    requires q.frames != [] && |q.frames[0]| <= q.bytes
  {
    Queue(q.frames[1..], q.bytes - |q.frames[0]|)
  }

  lemma {:induction false} OfferedBounded(q: Queue, frame: Bytes)
    requires Bounded(q) && Sendable(frame) && HasRoom(q, frame)
    ensures Bounded(Offered(q, frame)) && Bounded(Requeued(q, frame))
  {
    TotalAppend(q.frames, frame);
    assert ([frame] + q.frames)[1..] == q.frames;
  }

  lemma {:induction false} PoppedBounded(q: Queue)
    requires Bounded(q) && q.frames != []
    ensures |q.frames[0]| <= q.bytes && Bounded(Popped(q)) && Sendable(q.frames[0])
  {}

  class FrameSocketWriter {
    var frames: seq<Bytes>
    var queuedBytes: nat

    ghost function Contents(): Queue
      reads this
    {
      Queue(frames, queuedBytes)
    }

    constructor ()
      ensures Contents() == Queue([], 0)
    {
      frames, queuedBytes := [], 0;
    }

    method Send(frame: Bytes) returns (accepted: bool)
      requires Bounded(Contents())
      modifies this
      ensures accepted == (Sendable(frame) && HasRoom(old(Contents()), frame))
      ensures Contents() == if accepted then Offered(old(Contents()), frame) else old(Contents())
      ensures Bounded(Contents())
    {
      if frame == [] || |frame| > MAX_FRAME || |frame| > MAX_QUEUED {
        return false;
      }
      if |frames| >= MAX_FRAMES || queuedBytes + |frame| > MAX_QUEUED {
        return false;
      }
      OfferedBounded(Contents(), frame);
      frames := frames + [frame];
      queuedBytes := queuedBytes + |frame|;
      return true;
    }

    method Pop() returns (frame: Bytes)
      requires Bounded(Contents()) && frames != []
      modifies this
      ensures frame == old(frames)[0] && Sendable(frame)
      ensures Contents() == Queue(old(frames)[1..], old(queuedBytes) - |frame|) && Bounded(Contents())
    {
      PoppedBounded(Contents());
      frame := frames[0];
      frames := frames[1..];
      queuedBytes := queuedBytes - |frame|;
    }

    /** Puts a frame that was not written back to the front; it is lost when others have taken its room. */
    method Requeue(frame: Bytes, stopping: bool)
      requires Bounded(Contents()) && Sendable(frame)
      modifies this
      ensures Contents() == if !stopping && HasRoom(old(Contents()), frame) then Requeued(old(Contents()), frame)
                            else old(Contents())
      ensures Bounded(Contents())
    {
      if stopping {
        return;
      }
      if |frames| < MAX_FRAMES && queuedBytes + |frame| <= MAX_QUEUED {
        OfferedBounded(Contents(), frame);
        queuedBytes := queuedBytes + |frame|;
        frames := [frame] + frames;
      }
    }
  }

  // ----- The wire -----

  function Wire(frame: Bytes): (r: Bytes)
    ensures |r| == 4 + |frame|
  {
    BigEndian(|frame|, 4) + frame
  }

  method Header(size: nat) returns (header: Bytes)
    requires size <= MAX_FRAME
    ensures header == BigEndian(size, 4)
  {
    header := [size / 0x100_0000 % 256, size / 0x1_0000 % 256, size / 0x100 % 256, size % 256];
    assert BigEndian(size, 4) == BigEndian(size / 256, 3) + [size % 256];
    assert BigEndian(size / 256, 3) == BigEndian(size / 256 / 256, 2) + [size / 256 % 256];
    assert BigEndian(size / 256 / 256, 2) == BigEndian(size / 256 / 256 / 256, 1) + [size / 256 / 256 % 256];
  }

  datatype Progress = More | Frame(frame: Bytes) | Invalid

  /** What the receiver makes of the bytes it has for the frame it is reading. */
  function Judge(taken: Bytes): Progress {
    if |taken| < 4 then More
    else
      var size := FromBigEndian(taken[..4]);
      if size == 0 || size > MAX_FRAME then Invalid
      else if |taken| < 4 + size then More
      else Frame(taken[4..])
  }

  /** How many bytes it asks for at most: never more than what is missing of the header or of the frame. */
  function Wanted(taken: Bytes): nat
    requires Judge(taken).More?
  {
    if |taken| < 4 then 4 - |taken| else 4 + FromBigEndian(taken[..4]) - |taken|
  }

  lemma {:induction false} HeaderRead(frame: Bytes)
    requires Sendable(frame)
    ensures FromBigEndian(Wire(frame)[..4]) == |frame|
  {
    assert Wire(frame)[..4] == BigEndian(|frame|, 4);
    assert Capacity(4) == 0x1_0000_0000 by { assert Capacity(3) == 0x100_0000 by { assert Capacity(2) == 0x1_0000; } }
    BigEndianRoundTrip(|frame|, 4);
  }

  /** Of a frame on the wire, nothing but the whole is ever taken for a frame. */
  lemma {:induction false} OnlyWhole(frame: Bytes, n: nat)
    requires Sendable(frame) && n <= |Wire(frame)|
    ensures Judge(Wire(frame)[..n]) == if n == |Wire(frame)| then Frame(frame) else More
    ensures n < |Wire(frame)| ==> n + Wanted(Wire(frame)[..n]) <= |Wire(frame)|
  {
    HeaderRead(frame);
    if n >= 4 {
      assert Wire(frame)[..n][..4] == Wire(frame)[..4];
    }
  }

  // ----- Both ends -----

  /**
   A connection the receiver has not given up yet. `taken` and `unread` are the bytes it has taken and those still to
   come. The rest is history: the numbers of the frames written whole, and the frame `tail` is a part of.
   */
  datatype Connection = Connection(taken: Bytes, unread: Bytes, whole: seq<nat>, tail: Bytes, source: Bytes)

  datatype Socket = Closed | Last | Orphan

  /**
   `accepted` lists all frames ever accepted; a frame is known by its place in it. `socket` says whether the
   writer has a connection, and whether the receiver has already given it up.
   */
  datatype System = System(
    accepted: seq<Bytes>, queue: Queue, numbers: seq<nat>,
    current: Option<nat>, written: nat, socket: Socket, stopping: bool,
    connections: seq<Connection>, delivered: seq<Bytes>, arrived: seq<nat>)

  const INITIAL: System := System([], Queue([], 0), [], None, 0, Closed, false, [], [], [])

  datatype Event =
    | Send(frame: Bytes) | Pop | Connect(ok: bool) | Write(count: nat) | Fail | Stop
    | Read(count: nat) | Drop

  /** An event that cannot happen in a state changes nothing. */
  function Step(s: System, e: Event): System {
    match e
    case Send(frame) =>
      if Sendable(frame) && HasRoom(s.queue, frame) then
        s.(accepted := s.accepted + [frame], queue := Offered(s.queue, frame), numbers := s.numbers + [|s.accepted|])
      else s
    case Pop =>
      if s.current.None? && |s.queue.frames| > 0 && |s.numbers| > 0 && |s.queue.frames[0]| <= s.queue.bytes then
        s.(queue := Popped(s.queue), current := Some(s.numbers[0]), numbers := s.numbers[1..], written := 0)
      else s
    case Connect(ok) =>
      if s.current.Some? && s.socket == Closed then
        if ok then s.(connections := s.connections + [Connection([], [], [], [], [])], socket := Last) else PutBack(s)
      else s
    case Write(count) => if CanWrite(s, count) then Written(s, count) else s
    case Fail => if s.current.Some? && s.socket != Closed then PutBack(s.(socket := Closed)) else s
    case Stop => s.(stopping := true)
    case Read(count) => if CanRead(s, count) then ReadSome(s, count) else s
    case Drop => if |s.connections| > 0 then Dropped(s) else s
  }

  /** The frame in hand goes back to the front of the queue, or is lost. */
  function PutBack(s: System): System {
    if s.current.Some? && s.current.value < |s.accepted| && !s.stopping &&
        HasRoom(s.queue, s.accepted[s.current.value]) then
      s.(current := None, queue := Requeued(s.queue, s.accepted[s.current.value]),
          numbers := [s.current.value] + s.numbers)
    else s.(current := None)
  }

  predicate CanWrite(s: System, count: nat) {
    && s.current.Some? && s.current.value < |s.accepted| && s.socket != Closed
    && 0 < count <= 4 + |s.accepted[s.current.value]| - s.written
  }

  /** The next bytes of the frame in hand go out; with the last of them it is done. */
  function Written(s: System, count: nat): System
    requires CanWrite(s, count)
  {
    var frame := s.accepted[s.current.value];
    var upto := s.written + count;
    var done := upto == 4 + |frame|;
    var t := s.(written := upto, current := if done then None else s.current);
    var n := |s.connections|;
    if s.socket == Last && n > 0 then
      var c := s.connections[n - 1];
      t.(connections := s.connections[..n - 1] + [Sent(c, Wire(frame)[s.written..upto], frame, s.current.value, done)])
    else t
  }

  function Sent(c: Connection, part: Bytes, frame: Bytes, number: nat, done: bool): Connection {
    if done then Connection(c.taken, c.unread + part, c.whole + [number], [], [])
    else Connection(c.taken, c.unread + part, c.whole, c.tail + part, frame)
  }

  predicate CanRead(s: System, count: nat) {
    && |s.connections| > 0
    && 0 < count <= |s.connections[0].unread|
    && Judge(s.connections[0].taken).More? && count <= Wanted(s.connections[0].taken)
  }

  /**
   Bytes arrive at the connection being served; a frame is handed on when it is whole, a bad length ends the connection.
   */
  function ReadSome(s: System, count: nat): System
    requires CanRead(s, count)
  {
    var c := s.connections[0];
    var taken, unread := c.taken + c.unread[..count], c.unread[count..];
    match Judge(taken)
    case More => s.(connections := [c.(taken := taken, unread := unread)] + s.connections[1..])
    case Invalid => Dropped(s)
    case Frame(frame) =>
      s.(delivered := s.delivered + [frame],
         arrived := s.arrived + c.whole[..if c.whole == [] then 0 else 1],
         connections := [c.(taken := [], unread := unread, whole := if c.whole == [] then [] else c.whole[1..])]
                        + s.connections[1..])
  }

  /** The receiver gives the connection up: what it had not delivered is lost. */
  function Dropped(s: System): System
    requires |s.connections| > 0
  {
    s.(connections := s.connections[1..],
       socket := if s.socket == Last && |s.connections| == 1 then Orphan else s.socket)
  }

  function Run(s: System, events: seq<Event>): System
    decreases |events|
  {
    if |events| == 0 then s else Run(Step(s, events[0]), events[1..])
  }

  // ----- What every step keeps -----

  function FrameAt(accepted: seq<Bytes>, k: nat): Bytes { if k < |accepted| then accepted[k] else [] }

  function WireAll(accepted: seq<Bytes>, numbers: seq<nat>): Bytes {
    if |numbers| == 0 then [] else Wire(FrameAt(accepted, numbers[0])) + WireAll(accepted, numbers[1..])
  }

  ghost predicate AllSendable(frames: seq<Bytes>) {
    forall i :: 0 <= i < |frames| ==> Sendable(frames[i])
  }

  /** The stream of a connection is a list of whole frames and at most the beginning of one more. */
  ghost predicate Stream(accepted: seq<Bytes>, c: Connection) {
    && AllBelow(c.whole, |accepted|)
    && BeginningOf(c.tail, c.source)
    && c.taken + c.unread == WireAll(accepted, c.whole) + c.tail
    && (c.whole != [] ==> |c.taken| < |Wire(FrameAt(accepted, c.whole[0]))|)
  }

  /** Less than a whole frame; nothing at all when there is no frame. */
  ghost predicate BeginningOf(tail: Bytes, source: Bytes) {
    if tail == [] then true else Sendable(source) && |tail| < |Wire(source)| && tail == Wire(source)[..|tail|]
  }

  ghost predicate Streams(accepted: seq<Bytes>, connections: seq<Connection>) {
    && (forall i :: 0 <= i < |connections| ==> Stream(accepted, connections[i]))
    && (forall i :: 0 < i < |connections| ==> connections[i].taken == [])
  }

  ghost predicate QueueHolds(accepted: seq<Bytes>, queue: Queue, numbers: seq<nat>) {
    && Bounded(queue) && |numbers| == |queue.frames| && AllBelow(numbers, |accepted|)
    && forall i :: 0 <= i < |numbers| ==> queue.frames[i] == accepted[numbers[i]]
  }

  /** The frame in hand, and how much of it is on the last connection. */
  ghost predicate HandHolds(
    accepted: seq<Bytes>, current: Option<nat>, written: nat, socket: Socket, connections: seq<Connection>) {
    && (current.Some? ==> current.value < |accepted| && written < |Wire(accepted[current.value])|)
    && (socket == Closed && current.Some? ==> written == 0)
    && (socket == Last ==>
          |connections| > 0 && 
          var tail := connections[|connections| - 1].tail;
          tail == if current.Some? then Wire(accepted[current.value])[..written] else [])
  }

  function AllWhole(connections: seq<Connection>): seq<nat> {
    if |connections| == 0 then [] else connections[0].whole + AllWhole(connections[1..])
  }

  function InHand(current: Option<nat>): seq<nat> { if current.None? then [] else [current.value] }

  /** All frames that have arrived or still may, in the order in which they will. */
  function Line(s: System): seq<nat> {
    s.arrived + AllWhole(s.connections) + InHand(s.current) + s.numbers
  }

  ghost predicate Invariant(s: System) {
    && AllSendable(s.accepted)
    && QueueHolds(s.accepted, s.queue, s.numbers)
    && Streams(s.accepted, s.connections)
    && HandHolds(s.accepted, s.current, s.written, s.socket, s.connections)
    && Named(s.accepted, s.arrived, s.delivered)
    && Increasing(Line(s)) && AllBelow(Line(s), |s.accepted|)
  }

  // ----- Lists of numbers -----

  lemma {:induction false} AllWholeAppend(connections: seq<Connection>, c: Connection)
    ensures AllWhole(connections + [c]) == AllWhole(connections) + c.whole
    decreases |connections|
  {
    if |connections| == 0 {
      assert connections + [c] == [c] && [c][1..] == [];
    } else {
      assert (connections + [c])[1..] == connections[1..] + [c];
      AllWholeAppend(connections[1..], c);
    }
  }

  lemma {:induction false} WireAllAppend(accepted: seq<Bytes>, numbers: seq<nat>, k: nat)
    ensures WireAll(accepted, numbers + [k]) == WireAll(accepted, numbers) + Wire(FrameAt(accepted, k))
    decreases |numbers|
  {
    if |numbers| == 0 {
      assert numbers + [k] == [k] && [k][1..] == [];
    } else {
      assert (numbers + [k])[1..] == numbers[1..] + [k];
      WireAllAppend(accepted, numbers[1..], k);
    }
  }

  lemma {:induction false} WireAllGrows(accepted: seq<Bytes>, frame: Bytes, numbers: seq<nat>)
    requires AllBelow(numbers, |accepted|)
    ensures WireAll(accepted + [frame], numbers) == WireAll(accepted, numbers)
    decreases |numbers|
  {
    if |numbers| > 0 {
      WireAllGrows(accepted, frame, numbers[1..]);
    }
  }

  // ----- One connection -----

  lemma {:induction false} SplitAt(a: Bytes, b: Bytes, w: Bytes, r: Bytes)
    requires a + b == w + r
    ensures |a| <= |w| ==> a == w[..|a|]
    ensures |a| == |w| ==> b == r
  {
    assert (a + b)[..|a|] == a && (a + b)[|a|..] == b;
    assert (w + r)[|w|..] == r;
    if |a| <= |w| {
      assert (w + r)[..|a|] == w[..|a|];
    }
  }

  lemma {:induction false} TailOnly(tail: Bytes, source: Bytes, n: nat)
    requires BeginningOf(tail, source) && n <= |tail| && tail != []
    ensures Judge(tail[..n]).More?
  {
    assert tail[..n] == Wire(source)[..n];
    OnlyWhole(source, n);
  }

  /** Reading on: either the first whole frame is complete and is that frame, or there is still nothing to hand on. */
  lemma {:induction false} ReadKeeps(accepted: seq<Bytes>, c: Connection, count: nat)
    requires AllSendable(accepted) && Stream(accepted, c)
    requires 0 < count <= |c.unread| && Judge(c.taken).More? && count <= Wanted(c.taken)
    ensures var taken, unread := c.taken + c.unread[..count], c.unread[count..];
            if c.whole != [] && |taken| == |Wire(FrameAt(accepted, c.whole[0]))| then
              Judge(taken) == Frame(accepted[c.whole[0]]) &&
                  Stream(accepted, Connection([], unread, c.whole[1..], c.tail, c.source))
            else Judge(taken).More? && Stream(accepted, Connection(taken, unread, c.whole, c.tail, c.source))
  {
    hide Judge, Wanted, Wire, BeginningOf;
    var taken, unread := c.taken + c.unread[..count], c.unread[count..];
    assert taken + unread == c.taken + c.unread;
    if c.whole == [] {
      assert WireAll(accepted, c.whole) + c.tail == c.tail;
      assert taken == c.tail[..|taken|];
      TailOnly(c.tail, c.source, |taken|);
    } else {
      var first := accepted[c.whole[0]];
      var rest := WireAll(accepted, c.whole[1..]) + c.tail;
      assert taken + unread == Wire(first) + rest && c.taken + c.unread == Wire(first) + rest;
      SplitAt(c.taken, c.unread, Wire(first), rest);
      OnlyWhole(first, |c.taken|);
      SplitAt(taken, unread, Wire(first), rest);
      OnlyWhole(first, |taken|);
      if |taken| == |Wire(first)| {
        assert taken == Wire(first);
        assert Wire(first)[..|taken|] == taken;
        assert [] + unread == unread;
      }
    }
  }

  lemma {:induction false} SentKeeps(accepted: seq<Bytes>, c: Connection, number: nat, written: nat, count: nat)
    requires AllSendable(accepted) && Stream(accepted, c) && number < |accepted|
    requires written <= |Wire(accepted[number])| && c.tail == Wire(accepted[number])[..written]
    requires 0 < count <= |Wire(accepted[number])| - written
    ensures var frame := accepted[number];
            var upto := written + count;
            var sent := Sent(c, Wire(frame)[written..upto], frame, number, upto == |Wire(frame)|);
            Stream(accepted, sent) && sent.tail == if upto == |Wire(frame)| then [] else Wire(frame)[..upto]
  {
    hide Wire;
    var frame, upto := accepted[number], written + count;
    var w := Wire(frame);
    var part := w[written..upto];
    assert c.tail + part == w[..upto];
    assert c.taken + (c.unread + part) == (c.taken + c.unread) + part;
    assert (WireAll(accepted, c.whole) + c.tail) + part == WireAll(accepted, c.whole) + (c.tail + part);
    if upto == |w| {
      WireAllAppend(accepted, c.whole, number);
      assert w[..upto] == w;
      assert WireAll(accepted, c.whole) + w + [] == WireAll(accepted, c.whole) + w;
      if c.whole == [] {
        assert |c.taken + c.unread| == |c.tail|;
      }
    }
  }

  // ----- One step -----

  lemma {:induction false} StreamGrows(accepted: seq<Bytes>, frame: Bytes, c: Connection)
    requires Stream(accepted, c)
    ensures Stream(accepted + [frame], c)
  {
    WireAllGrows(accepted, frame, c.whole);
  }

  lemma {:induction false} SendKeeps(s: System, frame: Bytes)
    requires Invariant(s) && Sendable(frame) && HasRoom(s.queue, frame)
    ensures Invariant(Step(s, Send(frame))) && Line(Step(s, Send(frame))) == Line(s) + [|s.accepted|]
  {
    hide Stream, BeginningOf, Bounded;
    var t := Step(s, Send(frame));
    assert t.queue == Offered(s.queue, frame) && t.accepted == s.accepted + [frame];
    OfferedBounded(s.queue, frame);
    assert QueueHolds(t.accepted, t.queue, t.numbers);
    assert Streams(t.accepted, t.connections) by {
      forall i | 0 <= i < |s.connections| ensures Stream(t.accepted, s.connections[i]) {
        StreamGrows(s.accepted, frame, s.connections[i]);
      }
    }
    assert Line(t) == Line(s) + [|s.accepted|];
  }

  lemma {:induction false} PopKeeps(s: System)
    requires Invariant(s) && s.current.None? && s.queue.frames != []
    ensures Invariant(Step(s, Pop)) && Line(Step(s, Pop)) == Line(s)
  {
    PoppedBounded(s.queue);
    var t := Step(s, Pop);
    assert s.numbers == [s.numbers[0]] + s.numbers[1..];
    assert Line(t) == Line(s);
    assert Wire(s.accepted[s.numbers[0]])[..0] == [];
  }

  lemma {:induction false} RequeueHolds(accepted: seq<Bytes>, queue: Queue, numbers: seq<nat>, k: nat)
    requires QueueHolds(accepted, queue, numbers) && k < |accepted| && Sendable(accepted[k]) &&
             HasRoom(queue, accepted[k])
    ensures QueueHolds(accepted, Requeued(queue, accepted[k]), [k] + numbers)
  {
    OfferedBounded(queue, accepted[k]);
  }

  lemma {:induction false} BackInLine(a: seq<nat>, k: nat, numbers: seq<nat>)
    ensures a + [k] + numbers == a + [] + ([k] + numbers)
  {}

  /** Putting the frame in hand back keeps the order; losing it leaves a gap. */
  lemma {:induction false} PutBackKeeps(s: System)
    requires Invariant(s) && s.socket != Last
    ensures Invariant(PutBack(s))
  {
    var t := PutBack(s);
    if s.current.Some? {
      var a := s.arrived + AllWhole(s.connections);
      var frame := s.accepted[s.current.value];
      if !s.stopping && HasRoom(s.queue, frame) {
        RequeueHolds(s.accepted, s.queue, s.numbers, s.current.value);
        BackInLine(a, s.current.value, s.numbers);
      } else {
        WithoutMiddle(a, InHand(s.current), s.numbers, |s.accepted|);
        assert Line(t) == a + s.numbers;
      }
    }
  }

  lemma {:induction false} ConnectKeeps(s: System)
    requires Invariant(s) && s.current.Some? && s.socket == Closed
    ensures Invariant(Step(s, Connect(true))) && Line(Step(s, Connect(true))) == Line(s)
  {
    var blank := Connection([], [], [], [], []);
    var t := Step(s, Connect(true));
    assert t.connections == s.connections + [blank];
    AllWholeAppend(s.connections, blank);
    assert AllWhole(s.connections) + [] == AllWhole(s.connections);
    assert Stream(s.accepted, blank);
    assert Wire(s.accepted[s.current.value])[..0] == [];
  }

  lemma {:induction false} ReplaceLast(accepted: seq<Bytes>, connections: seq<Connection>, c: Connection)
    requires Streams(accepted, connections) && connections != [] && Stream(accepted, c)
    requires c.taken == connections[|connections| - 1].taken
    ensures Streams(accepted, connections[..|connections| - 1] + [c])
  {}

  lemma {:induction false} LastWhole(connections: seq<Connection>)
    requires connections != []
    ensures var n := |connections| - 1; AllWhole(connections) == AllWhole(connections[..n]) + connections[n].whole
  {
    var n := |connections| - 1;
    assert connections == connections[..n] + [connections[n]];
    AllWholeAppend(connections[..n], connections[n]);
  }

  lemma {:induction false} WriteKeeps(s: System, count: nat)
    requires Invariant(s) && CanWrite(s, count) && s.socket == Last
    ensures Invariant(Written(s, count)) && Line(Written(s, count)) == Line(s)
  {
    hide Stream, BeginningOf, Increasing, Bounded, Line;
    var n, number := |s.connections| - 1, s.current.value;
    var c, t := s.connections[n], Written(s, count);
    SentKeeps(s.accepted, c, number, s.written, count);
    ReplaceLast(s.accepted, s.connections, t.connections[n]);
    assert Line(t) == Line(s) by {
      LastWhole(s.connections);
      AllWholeAppend(s.connections[..n], t.connections[n]);
      WriteLine(s, t, AllWhole(s.connections[..n]), c.whole, number);
    }
  }

  lemma {:induction false} WriteLine(s: System, t: System, before: seq<nat>, whole: seq<nat>, number: nat)
    requires AllWhole(s.connections) == before + whole && s.current == Some(number)
    requires t.arrived == s.arrived && t.numbers == s.numbers
    requires if t.current.None? then AllWhole(t.connections) == before + (whole + [number])
             else t.current == s.current && AllWhole(t.connections) == AllWhole(s.connections)
    ensures Line(t) == Line(s)
  {
    assert before + (whole + [number]) == before + whole + [number];
  }

  /** Bytes written to a connection that is gone are gone. */
  lemma {:induction false} WriteLost(s: System, count: nat)
    requires Invariant(s) && CanWrite(s, count) && s.socket != Last
    ensures Invariant(Written(s, count))
  {
    var t := Written(s, count);
    if t.current.None? {
      var a := s.arrived + AllWhole(s.connections);
      WithoutMiddle(a, InHand(s.current), s.numbers, |s.accepted|);
      assert Line(t) == a + s.numbers;
    }
  }

  lemma {:induction false} DropKeeps(s: System)
    requires Invariant(s) && s.connections != []
    ensures Invariant(Dropped(s))
  {
    hide Stream, BeginningOf, Increasing, Bounded;
    var t := Dropped(s);
    var first, after := s.connections[0].whole, AllWhole(s.connections[1..]) + InHand(s.current) + s.numbers;
    assert Line(s) == s.arrived + first + after;
    WithoutMiddle(s.arrived, first, after, |s.accepted|);
    assert Line(t) == s.arrived + after;
  }

  lemma {:induction false} ReplaceFirst(accepted: seq<Bytes>, connections: seq<Connection>, c: Connection)
    requires Streams(accepted, connections) && connections != [] && Stream(accepted, c)
    ensures Streams(accepted, [c] + connections[1..])
  {}

  lemma {:induction false} ArrivalLine(arrived: seq<nat>, whole: seq<nat>, rest: seq<nat>)
    requires whole != []
    ensures whole[..1] == [whole[0]]
    ensures arrived + (whole + rest) == (arrived + whole[..1]) + (whole[1..] + rest)
  {}

  lemma {:induction false} ReadStepKeeps(s: System, count: nat)
    requires Invariant(s) && CanRead(s, count)
    ensures Invariant(ReadSome(s, count)) && Line(ReadSome(s, count)) == Line(s) &&
            ReadSome(s, count).socket == s.socket
  {
    var c, t := s.connections[0], ReadSome(s, count);
    ReadKeeps(s.accepted, c, count);
    ReplaceFirst(s.accepted, s.connections, t.connections[0]);
    var rest := AllWhole(s.connections[1..]);
    assert AllWhole(t.connections) == t.connections[0].whole + rest by {
      assert t.connections[1..] == s.connections[1..];
    }
    if Judge(c.taken + c.unread[..count]).Frame? {
      NamedAppend(s.accepted, s.arrived, s.delivered, c.whole[0]);
      ArrivalLine(s.arrived, c.whole, rest);
    }
  }

  lemma {:induction false} StepKeeps(s: System, e: Event)
    requires Invariant(s)
    ensures Invariant(Step(s, e))
  {
    match e
    case Send(frame) => if Sendable(frame) && HasRoom(s.queue, frame) { SendKeeps(s, frame); }
    case Pop => if s.current.None? && s.queue.frames != [] { PopKeeps(s); }
    case Connect(ok) =>
      if s.current.Some? && s.socket == Closed {
        if ok { ConnectKeeps(s); } else { PutBackKeeps(s); }
      }
    case Write(count) =>
      if CanWrite(s, count) {
        if s.socket == Last { WriteKeeps(s, count); } else { WriteLost(s, count); }
      }
    case Fail => if s.current.Some? && s.socket != Closed { FailKeeps(s); }
    case Stop => assert Line(s.(stopping := true)) == Line(s);
    case Read(count) => if CanRead(s, count) { ReadStepKeeps(s, count); }
    case Drop => if s.connections != [] { DropKeeps(s); }
  }

  /** A failed write ends the connection; what is on it stays there for the receiver. */
  lemma {:induction false} FailKeeps(s: System)
    requires Invariant(s) && s.current.Some? && s.socket != Closed
    ensures Invariant(PutBack(s.(socket := Closed)))
  {
    var rest := s.(socket := Orphan);
    assert Line(rest) == Line(s);
    PutBackKeeps(rest);
    var t := PutBack(s.(socket := Closed));
    assert t == PutBack(rest).(socket := Closed);
    assert Line(t) == Line(PutBack(rest));
  }

  lemma {:induction false} RunKeeps(s: System, events: seq<Event>)
    requires Invariant(s)
    ensures Invariant(Run(s, events))
    decreases |events|
  {
    if |events| > 0 {
      StepKeeps(s, events[0]);
      RunKeeps(Step(s, events[0]), events[1..]);
    }
  }

  /** The frames of `part` are frames of `whole`, in the same order, none of them twice. */
  ghost predicate InOrderPart(part: seq<Bytes>, whole: seq<Bytes>) {
    exists places: seq<nat> :: Increasing(places) && Named(whole, places, part)
  }

  /**
   Over any run, what the receiver hands on is an in-order part of what was accepted, and the queue keeps to its limits.
   */
  lemma {:induction false} DeliveredInOrder(events: seq<Event>)
    ensures var s := Run(INITIAL, events); InOrderPart(s.delivered, s.accepted) && Bounded(s.queue)
  {
    assert Invariant(INITIAL) by { assert Line(INITIAL) == []; }
    RunKeeps(INITIAL, events);
    var s := Run(INITIAL, events);
    ArrivedIncreasing(s);
  }

  lemma {:induction false} ArrivedIncreasing(s: System)
    requires Increasing(Line(s))
    ensures Increasing(s.arrived)
  {
    forall i | 0 <= i < |s.arrived|
      ensures s.arrived[i] == Line(s)[i]
    {}
  }

  // ----- Runs without failures -----

  /** Nothing fails, nobody gives up, nobody stops. */
  predicate Calm(e: Event) {
    !e.Fail? && !e.Drop? && !e.Stop? && e != Connect(false)
  }

  lemma {:induction false} CalmStep(s: System, e: Event)
    requires Invariant(s) && s.socket != Orphan && |Line(s)| == |s.accepted| && Calm(e)
    ensures var t := Step(s, e); Invariant(t) && t.socket != Orphan && |Line(t)| == |t.accepted|
  {
    hide Invariant, Line;
    match e
    case Send(frame) => if Sendable(frame) && HasRoom(s.queue, frame) { SendKeeps(s, frame); }
    case Pop => if s.current.None? && s.queue.frames != [] { PopKeeps(s); }
    case Connect(ok) => if s.current.Some? && s.socket == Closed { ConnectKeeps(s); }
    case Write(count) => if CanWrite(s, count) { assert s.socket == Last; WriteKeeps(s, count); }
    case Read(count) => if CanRead(s, count) { ReadStepKeeps(s, count); }
    case _ =>
  }

  lemma {:induction false} CalmRun(s: System, events: seq<Event>)
    requires Invariant(s) && s.socket != Orphan && |Line(s)| == |s.accepted|
    requires forall e <- events :: Calm(e)
    ensures var t := Run(s, events); Invariant(t) && |Line(t)| == |t.accepted|
    decreases |events|
  {
    if |events| > 0 {
      assert events[0] in events;
      CalmStep(s, events[0]);
      CalmRun(Step(s, events[0]), events[1..]);
    }
  }

  lemma {:induction false} AllNumbers(numbers: seq<nat>, i: nat)
    requires Increasing(numbers) && i < |numbers|
    requires forall j :: 0 <= j < |numbers| ==> numbers[j] < |numbers|
    ensures numbers[i] == i
  {
    AtLeast(numbers, i);
    AtMost(numbers, i);
  }

  lemma {:induction false} AtLeast(numbers: seq<nat>, i: nat)
    requires Increasing(numbers) && i < |numbers|
    ensures i <= numbers[i]
  {
    if i > 0 {
      AtLeast(numbers, i - 1);
      assert numbers[i - 1] < numbers[i];
    }
  }

  lemma {:induction false} AtMost(numbers: seq<nat>, i: nat)
    requires Increasing(numbers) && i < |numbers|
    requires forall j :: 0 <= j < |numbers| ==> numbers[j] < |numbers|
    ensures numbers[i] <= i
    decreases |numbers| - i
  {
    if i + 1 < |numbers| {
      AtMost(numbers, i + 1);
      assert numbers[i] < numbers[i + 1];
    }
  }

  /**
   Without failures nothing is lost: what has been delivered is the first part of what was accepted, the rest is on its
   way.
   */
  lemma {:induction false} NothingLost(events: seq<Event>)
    requires forall e <- events :: Calm(e)
    ensures var s := Run(INITIAL, events);
            s.delivered <= s.accepted &&
            |s.accepted| == |s.delivered| + |AllWhole(s.connections)| + |InHand(s.current)| + |s.queue.frames|
  {
    assert Invariant(INITIAL) && |Line(INITIAL)| == 0 by { assert Line(INITIAL) == []; }
    CalmRun(INITIAL, events);
    var s := Run(INITIAL, events);
    forall i | 0 <= i < |s.delivered|
      ensures i < |s.accepted| && s.delivered[i] == s.accepted[i]
    {
      assert s.arrived[i] == Line(s)[i];
      AllNumbers(Line(s), i);
    }
  }
}

/**
 What the steps of the length-prefixed socket do, in numbers; and that they get there: once nothing fails any more, all
 that has not been lost arrives, in order.
 */
module FrameDelivery {
  import opened ByteStrings
  import opened Lists
  import opened FrameSocket

  // ----- Single steps -----

  /** A frame on the wire: four bytes of length, the highest first, and the frame. */
  lemma {:induction false} WireForm(frame: Bytes)
    requires |frame| <= 4194304
    ensures Wire(frame) ==
            [|frame| / 16777216 % 256, |frame| / 65536 % 256, |frame| / 256 % 256, |frame| % 256] + frame
  {
    var n := |frame|;
    assert BigEndian(n, 4) == BigEndian(n / 256, 3) + [n % 256];
    assert BigEndian(n / 256, 3) == BigEndian(n / 256 / 256, 2) + [n / 256 % 256];
    assert BigEndian(n / 256 / 256, 2) == BigEndian(n / 256 / 256 / 256, 1) + [n / 256 / 256 % 256];
  }

  /** What the receiver makes of bytes: a length of none, or of more than 4 MiB, ends the connection. */
  lemma {:induction false} ReceiverMeans(b: Bytes)
    ensures |b| < 4 ==> Judge(b) == More
    ensures |b| >= 4 ==>
              var size := b[0] as int * 16777216 + b[1] as int * 65536 + b[2] as int * 256 + b[3];
              Judge(b) == if size == 0 || size > 4194304 then Invalid
                          else if |b| < 4 + size then More
                          else Frame(b[4..])
  {
    if |b| >= 4 {
      FourBytes(b[..4]);
    }
  }

  lemma {:induction false} FourBytes(b: Bytes)
    requires |b| == 4
    ensures FromBigEndian(b) == b[0] as int * 16777216 + b[1] as int * 65536 + b[2] as int * 256 + b[3]
  {
    assert b[..3][..2] == b[..2] && b[..2][..1] == b[..1] && b[..1][..0] == [];
    assert FromBigEndian(b[..1]) == b[0] by { assert FromBigEndian([]) == 0; }
    assert FromBigEndian(b[..2]) == b[0] as int * 256 + b[1];
    assert FromBigEndian(b[..3]) == b[0] as int * 65536 + b[1] as int * 256 + b[2];
  }

  /** A frame is accepted exactly when it is not empty, has at most 4 MiB, and 256 frames and 16 MiB allow it. */
  lemma {:induction false} SendMeans(s: System, frame: Bytes)
    requires Bounded(s.queue)
    ensures var t := Step(s, Send(frame));
            var taken := 0 < |frame| <= 4194304 && |s.queue.frames| < 256 &&
                         Total(s.queue.frames) + |frame| <= 16777216;
            && t.accepted == (if taken then s.accepted + [frame] else s.accepted)
            && t.queue.frames == (if taken then s.queue.frames + [frame] else s.queue.frames)
  {}

  /**
   A write that fails puts the frame in hand back in front, to be the next one again, exactly if nobody asked to stop
   and it still fits; otherwise the frame is lost and the queue is as it was.
   */
  lemma {:induction false} FailedIsNext(s: System)
    requires Invariant(s) && s.current.Some? && s.socket != Closed
    ensures var t, frame := Step(s, Fail), s.accepted[s.current.value];
            var kept := !s.stopping && |s.queue.frames| < 256 && Total(s.queue.frames) + |frame| <= 16777216;
            && t.current == None && t.socket == Closed && t.accepted == s.accepted
            && t.queue.frames == (if kept then [frame] + s.queue.frames else s.queue.frames)
            && (kept ==> Step(t, Pop).current == s.current && Step(t, Pop).queue == s.queue)
  {
    hide Streams, Increasing, Named, Wire;
    FailKeeps(s);
    var t := Step(s, Fail);
    if t.queue.frames != [] {
      PoppedBounded(t.queue);
    }
    assert ([s.accepted[s.current.value]] + s.queue.frames)[1..] == s.queue.frames;
    assert ([s.current.value] + s.numbers)[1..] == s.numbers;
  }

  // ----- Getting there -----

  /** Both ends at work, and nothing failing. */
  predicate Working(e: Event) { e == Pop || e == Connect(true) || e.Write? || e.Read? || e == Drop }

  ghost predicate AllWorking(events: seq<Event>) {
    forall i :: 0 <= i < |events| ==> Working(events[i])
  }

  /** The writer has no connection, or one the receiver still serves. */
  ghost predicate Ready(s: System) { Invariant(s) && s.socket != Orphan }

  /** Nothing that is under way got lost on the way from `s` to `t`. */
  ghost predicate Onward(s: System, t: System) { Ready(t) && Line(t) == Line(s) && t.accepted == s.accepted }

  lemma {:induction false} RunJoins(s: System, a: seq<Event>, b: seq<Event>)
    ensures Run(s, a + b) == Run(Run(s, a), b)
    decreases |a|
  {
    hide Step;
    if |a| == 0 {
      assert a + b == b;
    } else {
      assert (a + b)[1..] == a[1..] + b;
      RunJoins(Step(s, a[0]), a[1..], b);
    }
  }

  lemma {:induction false} RunOne(s: System, e: Event)
    ensures Run(s, [e]) == Step(s, e)
  {
    hide Step;
    assert [e][1..] == [];
    assert Run(Step(s, e), []) == Step(s, e);
  }

  lemma {:induction false} RunFirst(s: System, e: Event, more: seq<Event>)
    ensures Run(s, [e] + more) == Run(Step(s, e), more)
  {
    RunOne(s, e);
    RunJoins(s, [e], more);
  }

  /** The receiver asks for at least one byte as long as there are any. */
  lemma {:induction false} MayRead(accepted: seq<Bytes>, c: Connection)
    requires AllSendable(accepted) && Stream(accepted, c) && c.unread != []
    ensures Judge(c.taken).More? && Wanted(c.taken) >= 1
  {
    hide Wire;
    assert (c.taken + c.unread)[..|c.taken|] == c.taken;
    if c.whole == [] {
      assert WireAll(accepted, c.whole) + c.tail == c.tail;
      assert c.taken == c.tail[..|c.taken|];
      TailOnly(c.tail, c.source, |c.taken|);
    } else {
      var first := accepted[c.whole[0]];
      var rest := WireAll(accepted, c.whole[1..]) + c.tail;
      assert c.taken + c.unread == Wire(first) + rest;
      SplitAt(c.taken, c.unread, Wire(first), rest);
      OnlyWhole(first, |c.taken|);
    }
  }

  lemma {:induction false} AllRead(accepted: seq<Bytes>, c: Connection)
    requires Stream(accepted, c) && c.unread == []
    ensures c.whole == []
  {
    assert |c.taken + c.unread| == |WireAll(accepted, c.whole)| + |c.tail|;
  }

  /** One byte is read. */
  lemma {:induction false} ReadByte(s: System)
    requires Ready(s) && s.connections != [] && s.connections[0].unread != []
    ensures var t := Step(s, Read(1));
            && Onward(s, t) && t.current == s.current && t.queue == s.queue && t.numbers == s.numbers
            && t.socket == s.socket && |t.connections| == |s.connections|
            && t.connections[0].unread == s.connections[0].unread[1..]
  {
    hide Judge, Wanted, Line, Increasing, Named, WireAll, Wire, QueueHolds, HandHolds, BeginningOf;
    var c := s.connections[0];
    MayRead(s.accepted, c);
    ReadKeeps(s.accepted, c, 1);
    ReadStepKeeps(s, 1);
  }

  /** The receiver reads all there is on the connection it serves. */
  lemma {:induction false} ReadsOut(s: System) returns (events: seq<Event>)
    requires Ready(s) && s.connections != []
    ensures AllWorking(events)
    ensures var t := Run(s, events);
            && Onward(s, t) && t.current == s.current && t.queue == s.queue && t.numbers == s.numbers
            && t.socket == s.socket && |t.connections| == |s.connections| && t.connections[0].whole == []
    decreases |s.connections[0].unread|
  {
    hide Step, Line, Stream;
    if s.connections[0].unread == [] {
      events := [];
      AllRead(s.accepted, s.connections[0]);
    } else {
      ReadByte(s);
      events := ReadsOut(Step(s, Read(1)));
      RunFirst(s, Read(1), events);
      events := [Read(1)] + events;
    }
  }

  /** A connection with nothing whole on it is given up without loss. */
  lemma {:induction false} DropsEmpty(s: System)
    requires Ready(s) && s.connections != [] && s.connections[0].whole == []
    requires s.socket == Last ==> |s.connections| > 1
    ensures var t := Step(s, Drop);
            && Onward(s, t) && t.current == s.current && t.queue == s.queue && t.numbers == s.numbers
            && |t.connections| == |s.connections| - 1
  {
    hide Invariant, Stream;
    DropKeeps(s);
    assert AllWhole(s.connections) == [] + AllWhole(s.connections[1..]);
  }

  /** One connection after the other is read and given up, but for the one the writer has. */
  lemma {:induction false} ReadsAll(s: System) returns (events: seq<Event>)
    requires Ready(s) && s.current == None && s.queue.frames == []
    ensures AllWorking(events)
    ensures var t := Run(s, events); Onward(s, t) && t.arrived == Line(s)
    decreases |s.connections|
  {
    hide Step, Line, Streams, Stream, HandHolds, Increasing, Named;
    if s.connections == [] {
      events := [];
      NothingUnderWay(s);
    } else {
      events := ReadsOut(s);
      var t := Run(s, events);
      if s.socket == Last && |s.connections| == 1 {
        NothingUnderWay(t);
      } else {
        DropsEmpty(t);
        var more := ReadsAll(Step(t, Drop));
        RunFirst(t, Drop, more);
        RunJoins(s, events, [Drop] + more);
        events := events + ([Drop] + more);
      }
    }
  }

  lemma {:induction false} NothingUnderWay(s: System)
    requires Invariant(s) && s.current == None && s.queue.frames == [] && |s.connections| <= 1
    requires s.connections != [] ==> s.connections[0].whole == []
    ensures s.arrived == Line(s)
  {
    assert s.numbers == [];
    if s.connections != [] {
      assert AllWhole(s.connections) == [] + AllWhole(s.connections[1..]);
    }
  }

  /** The frame in hand is written out whole. */
  lemma {:induction false} WritesOut(s: System) returns (events: seq<Event>)
    requires Ready(s) && s.current.Some?
    ensures AllWorking(events)
    ensures var t := Run(s, events); Onward(s, t) && t.current == None && t.queue == s.queue
  {
    hide Line, Increasing, Named, Stream, Streams, QueueHolds, Run;
    var frame := s.accepted[s.current.value];
    var t := Step(s, Connect(true));
    if s.socket == Closed {
      ConnectKeeps(s);
    }
    assert Onward(s, t) && t.socket == Last && t.current == s.current && t.queue == s.queue;
    var count := 4 + |frame| - t.written;
    WriteKeeps(t, count);
    RunOne(t, Write(count));
    RunFirst(s, Connect(true), [Write(count)]);
    events := [Connect(true)] + [Write(count)];
  }

  /** The writer takes one frame after the other, and writes them all. */
  lemma {:induction false} WritesAll(s: System) returns (events: seq<Event>)
    requires Ready(s)
    ensures AllWorking(events)
    ensures var t := Run(s, events); Onward(s, t) && t.current == None && t.queue.frames == []
    decreases |s.queue.frames|, s.current.Some?
  {
    hide Step, Line, Increasing, Named, Stream, Streams, HandHolds;
    if s.current.Some? {
      events := WritesOut(s);
      var more := WritesAll(Run(s, events));
      RunJoins(s, events, more);
      events := events + more;
    } else if s.queue.frames == [] {
      events := [];
    } else {
      PopKeeps(s);
      OnePopped(s);
      events := WritesAll(Step(s, Pop));
      RunFirst(s, Pop, events);
      events := [Pop] + events;
    }
  }

  lemma {:induction false} OnePopped(s: System)
    requires Invariant(s) && s.current.None? && s.queue.frames != []
    ensures var t := Step(s, Pop);
            t.queue.frames == s.queue.frames[1..] && t.socket == s.socket && t.accepted == s.accepted
  {
    PoppedBounded(s.queue);
  }

  /**
   From any state of any run in which the writer's connection, if it has one, is still served: when both ends go on and
   nothing fails, exactly the frames that were under way are delivered behind those that had been, in their order.
   */
  lemma {:induction false} AllUnderWayArrive(s: System) returns (events: seq<Event>)
    requires Invariant(s) && s.socket != Orphan
    ensures AllWorking(events)
    ensures var t := Run(s, events);
            && t.accepted == s.accepted && Named(s.accepted, Line(s), t.delivered) && s.delivered <= t.delivered
            && |t.delivered| ==
               |s.delivered| + |AllWhole(s.connections)| + |InHand(s.current)| + |s.queue.frames|
  {
    hide Step, Streams, HandHolds, Increasing;
    var first := WritesAll(s);
    var more := ReadsAll(Run(s, first));
    RunJoins(s, first, more);
    events := first + more;
    var t := Run(s, events);
    assert s.arrived <= Line(s);
    forall i | 0 <= i < |s.delivered|
      ensures t.delivered[i] == s.delivered[i]
    {
      assert Line(s)[i] == s.arrived[i];
    }
  }

  /** In a run without failures everything accepted is delivered, in order, when the two ends go on. */
  lemma {:induction false} EverythingArrives(events: seq<Event>) returns (more: seq<Event>)
    requires forall e <- events :: Calm(e)
    ensures AllWorking(more)
    ensures var s, t := Run(INITIAL, events), Run(INITIAL, events + more);
            t.accepted == s.accepted && t.delivered == s.accepted
  {
    assert Invariant(INITIAL) && |Line(INITIAL)| == 0 by { assert Line(INITIAL) == []; }
    CalmServed(INITIAL, events);
    var s := Run(INITIAL, events);
    more := AllUnderWayArrive(s);
    RunJoins(INITIAL, events, more);
    var t := Run(s, more);
    forall i | 0 <= i < |s.accepted|
      ensures t.delivered[i] == s.accepted[i]
    {
      AllNumbers(Line(s), i);
    }
  }

  lemma {:induction false} CalmServed(s: System, events: seq<Event>)
    requires Invariant(s) && s.socket != Orphan && |Line(s)| == |s.accepted|
    requires forall e <- events :: Calm(e)
    ensures var t := Run(s, events); Invariant(t) && |Line(t)| == |t.accepted| && t.socket != Orphan
    decreases |events|
  {
    hide Invariant, Line, Step;
    if |events| > 0 {
      assert events[0] in events;
      CalmStep(s, events[0]);
      assert forall e <- events[1..] :: e in events;
      CalmServed(Step(s, events[0]), events[1..]);
    }
  }
}

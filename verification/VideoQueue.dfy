/**
 The queue between Android Auto's video and the socket it is forwarded on. A keyframe restarts the queue,
 a client that connects is started at the latest keyframe, and the limits hold throughout.
 */
module VideoQueue {
  import opened ByteStrings
  import opened Lists
  import AnnexB

  const MAX_FRAMES: nat := 600
  const MAX_BYTES: nat := 16 * 1024 * 1024

  // ----- What a frame carries -----

  predicate OfKind(unit: Bytes, kind: nat) { unit != [] && unit[0] % 32 == kind }

  predicate Contains(units: seq<Bytes>, kind: nat) {
    |units| > 0 && (OfKind(units[0], kind) || Contains(units[1..], kind))
  }

  /** The last unit of the kind, or what was there before. */
  function LastOf(units: seq<Bytes>, kind: nat, before: Bytes): Bytes {
    if |units| == 0 then before
    else LastOf(units[1..], kind, if OfKind(units[0], kind) then units[0] else before)
  }

  predicate IsKeyframe(frame: Bytes) { Contains(AnnexB.Units(frame), 5) }

  // ----- The queue -----

  datatype Queue = Queue(frames: seq<Bytes>, bytes: nat, keyframe: Bytes, sps: Bytes, pps: Bytes)

  const EMPTY: Queue := Queue([], 0, [], [], [])

  predicate Pushable(frame: Bytes) { 0 < |frame| <= MAX_BYTES }

  /** A keyframe takes the place of all that is queued; any other frame is dropped when there is no room. */
  function Push(q: Queue, frame: Bytes): Queue {
    if !Pushable(frame) then q
    else
      var units := AnnexB.Units(frame);
      var r := q.(sps := LastOf(units, 7, q.sps), pps := LastOf(units, 8, q.pps));
      if IsKeyframe(frame) then r.(frames := [frame], bytes := |frame|, keyframe := frame)
      else if |q.frames| < MAX_FRAMES && q.bytes + |frame| <= MAX_BYTES then
        r.(frames := q.frames + [frame], bytes := q.bytes + |frame|)
      else r
  }

  /** A client that connects finds the latest keyframe in front, or nothing before the first keyframe. */
  function Connected(q: Queue): Queue {
    if q.keyframe == [] then q.(frames := [], bytes := 0)
    else if q.frames == [] || q.frames[0] != q.keyframe then q.(frames := [q.keyframe], bytes := |q.keyframe|)
    else q
  }

  function Config(q: Queue): Bytes {
    if q.sps != [] && q.pps != [] then AnnexB.Join([q.sps, q.pps]) else []
  }

  function Pop(q: Queue): Queue
    requires q.frames != [] && |q.frames[0]| <= q.bytes
  {
    q.(frames := q.frames[1..], bytes := q.bytes - |q.frames[0]|)
  }

  /** The limits hold, the byte count is exact, and nothing is kept that a push would not have taken. */
  ghost predicate Valid(q: Queue) {
    && |q.frames| <= MAX_FRAMES && q.bytes == Total(q.frames) <= MAX_BYTES
    && |q.keyframe| <= MAX_BYTES
    && (forall f <- q.frames :: f != [])
    && (q.sps != [] ==> AnnexB.Clean(q.sps)) && (q.pps != [] ==> AnnexB.Clean(q.pps))
  }

  lemma {:induction false} LastOfClean(units: seq<Bytes>, kind: nat, before: Bytes)
    requires AnnexB.AllUnits(units) && (before != [] ==> AnnexB.Clean(before))
    ensures var r := LastOf(units, kind, before); r != [] ==> AnnexB.Clean(r)
    decreases |units|
  {
    if |units| > 0 {
      assert units[0] in units;
      LastOfClean(units[1..], kind, if OfKind(units[0], kind) then units[0] else before);
    }
  }

  lemma {:induction false} PushValid(q: Queue, frame: Bytes)
    requires Valid(q)
    ensures Valid(Push(q, frame))
  {
    hide AnnexB.Units, AnnexB.Clean, LastOf, IsKeyframe;
    var units := AnnexB.Units(frame);
    AnnexB.UnitsClean(frame);
    LastOfClean(units, 7, q.sps);
    LastOfClean(units, 8, q.pps);
    TotalAppend(q.frames, frame);
    assert Total([frame]) == |frame| by { assert [frame][1..] == []; }
  }

  lemma {:induction false} ConnectedValid(q: Queue)
    requires Valid(q)
    ensures Valid(Connected(q))
  {
    assert Total([q.keyframe]) == |q.keyframe| by { assert [q.keyframe][1..] == []; }
  }

  lemma {:induction false} PopValid(q: Queue)
    requires Valid(q) && q.frames != []
    ensures |q.frames[0]| <= q.bytes && Valid(Pop(q))
  {
    assert forall f <- q.frames[1..] :: f in q.frames;
  }

  /** A decoder that splits the configuration gets back the two parameter sets. */
  lemma {:induction false} ConfigSplits(q: Queue)
    requires Valid(q) && q.sps != [] && q.pps != []
    ensures AnnexB.Units(Config(q)) == [q.sps, q.pps]
  {
    AnnexB.SplitJoined([q.sps, q.pps], AnnexB.AllLong(2));
  }

  class VideoSocketForwarder {
    var frames: seq<Bytes>
    var queuedBytes: nat
    var keyframe: Bytes
    var sps: Bytes
    var pps: Bytes

    ghost function State(): Queue
      reads this
    {
      Queue(frames, queuedBytes, keyframe, sps, pps)
    }

    constructor ()
      ensures State() == EMPTY && Valid(State())
    {
      frames, queuedBytes, keyframe, sps, pps := [], 0, [], [], [];
    }

    method PushUnit(frame: Bytes)
      requires Valid(State())
      modifies this
      ensures State() == Push(old(State()), frame) && Valid(State())
    {
      PushValid(State(), frame);
      if frame == [] || |frame| > MAX_BYTES {
        return;
      }
      var isKey := Note(frame);
      if !isKey {
        if |frames| < MAX_FRAMES && queuedBytes + |frame| <= MAX_BYTES {
          queuedBytes := queuedBytes + |frame|;
          frames := frames + [frame];
        }
        return;
      }
      keyframe := frame;
      queuedBytes := |keyframe|;
      frames := [keyframe];
    }

    /** Keeps the parameter sets of the frame and tells whether it is a keyframe. */
    method Note(frame: Bytes) returns (isKey: bool)
      modifies this`sps, this`pps
      ensures sps == LastOf(AnnexB.Units(frame), 7, old(sps)) && pps == LastOf(AnnexB.Units(frame), 8, old(pps))
      ensures isKey == IsKeyframe(frame)
    {
      var units := AnnexB.SplitInForwarder(frame);
      isKey := false;
      assert units[0..] == units;
      for i := 0 to |units|
        invariant LastOf(units[i..], 7, sps) == LastOf(units, 7, old(sps))
        invariant LastOf(units[i..], 8, pps) == LastOf(units, 8, old(pps))
        invariant isKey || Contains(units[i..], 5) <==> Contains(units, 5)
      {
        var unit := units[i];
        assert units[i..][0] == unit && units[i..][1..] == units[i + 1..];
        if unit == [] {
          continue;
        }
        var kind := unit[0] % 32;
        if kind == 7 {
          sps := unit;
        } else if kind == 8 {
          pps := unit;
        } else if kind == 5 {
          isKey := true;
        }
      }
    }

    method OnClientConnected() returns (config: Bytes)
      requires Valid(State())
      modifies this
      ensures State() == Connected(old(State())) && Valid(State())
      ensures config == Config(old(State()))
    {
      ConnectedValid(State());
      config := [];
      if sps != [] && pps != [] {
        config := [0, 0, 0, 1] + sps + [0, 0, 0, 1] + pps;
        ConfigBytes(sps, pps);
      }
      if keyframe == [] {
        frames, queuedBytes := [], 0;
      } else if frames == [] || frames[0] != keyframe {
        frames, queuedBytes := [keyframe], |keyframe|;
      }
    }

    method TakeFront() returns (frame: Bytes)
      requires Valid(State()) && frames != []
      modifies this
      ensures frame == old(frames)[0] && |frame| <= old(queuedBytes)
      ensures State() == Pop(old(State())) && Valid(State())
    {
      frame := frames[0];
      PopValid(State());
      frames := frames[1..];
      queuedBytes := queuedBytes - |frame|;
    }
  }

  lemma {:induction false} ConfigBytes(sps: Bytes, pps: Bytes)
    ensures AnnexB.Join([sps, pps]) == [0, 0, 0, 1] + sps + [0, 0, 0, 1] + pps
  {
    assert [sps, pps][1..] == [pps] && [pps][1..] == [];
    var one := AnnexB.AllLong(2)[1..];
    assert AnnexB.JoinWith([pps], one) == [0, 0, 0, 1] + pps + [];
    assert AnnexB.Join([sps, pps]) == [0, 0, 0, 1] + sps + AnnexB.JoinWith([pps], one);
  }

  // ----- The forwarder and its clients -----

  /**
   The queue together with the history of pushes: a frame is known by its place among the frames ever pushed. `numbers`
   are those of the queued frames, `key` that of the latest keyframe, `sent` those of the frames the present client has
   got; `primed` says that there was a keyframe when it connected.
   */
  datatype System = System(
    queue: Queue, pushed: seq<Bytes>, numbers: seq<nat>, key: Option<nat>,
    connected: bool, primed: bool, sent: seq<nat>, received: seq<Bytes>)

  const INITIAL: System := System(EMPTY, [], [], None, false, false, [], [])

  datatype Event = PushFrame(frame: Bytes) | Connect(configSent: bool) | Take(delivered: bool) | Disconnect

  function Step(s: System, e: Event): System {
    match e
    case PushFrame(frame) =>
      if !Pushable(frame) then s
      else
        var q := Push(s.queue, frame);
        var n := |s.pushed|;
        s.(queue := q, pushed := s.pushed + [frame],
           numbers := if IsKeyframe(frame) then [n] else if q.frames == s.queue.frames then s.numbers
               else s.numbers + [n],
           key := if IsKeyframe(frame) then Some(n) else s.key)
    case Connect(configSent) =>
      if s.connected then s
      else
        var q := Connected(s.queue);
        s.(queue := q, connected := configSent, primed := s.key.Some?, sent := [], received := [],
           numbers := if q.frames == s.queue.frames then s.numbers else if s.key.Some? then [s.key.value] else [])
    case Take(delivered) =>
      if s.connected && s.queue.frames != [] && s.numbers != [] && |s.queue.frames[0]| <= s.queue.bytes then
        var t := s.(queue := Pop(s.queue), numbers := s.numbers[1..]);
        if delivered then t.(sent := s.sent + [s.numbers[0]], received := s.received + [s.queue.frames[0]])
        else t.(connected := false)
      else s
    case Disconnect => s.(connected := false)
  }

  function Run(s: System, events: seq<Event>): System
    decreases |events|
  {
    if |events| == 0 then s else Run(Step(s, events[0]), events[1..])
  }

  /** For each frame whether it is a keyframe. */
  function Marks(frames: seq<Bytes>): (r: seq<bool>)
    ensures |r| == |frames|
  {
    if |frames| == 0 then [] else Marks(frames[..|frames| - 1]) + [IsKeyframe(frames[|frames| - 1])]
  }

  /** `key` is the place of the last keyframe among the frames pushed. */
  ghost predicate IsLatestKey(pushed: seq<Bytes>, marks: seq<bool>, key: Option<nat>, keyframe: Bytes) {
    && |marks| == |pushed|
    && if key.None? then keyframe == [] && forall i :: 0 <= i < |marks| ==> !marks[i]
       else
         && key.value < |marks| && keyframe == pushed[key.value] && keyframe != [] && marks[key.value]
         && forall i :: key.value < i < |marks| ==> !marks[i]
  }

  lemma {:induction false} MarkAt(frames: seq<Bytes>, i: nat)
    requires i < |frames|
    ensures Marks(frames)[i] == IsKeyframe(frames[i])
    decreases |frames|
  {
    if i < |frames| - 1 {
      MarkAt(frames[..|frames| - 1], i);
    }
  }

  lemma {:induction false} MarksAppend(frames: seq<Bytes>, frame: Bytes)
    ensures Marks(frames + [frame]) == Marks(frames) + [IsKeyframe(frame)]
  {
    assert (frames + [frame])[..|frames|] == frames;
  }

  ghost predicate AllFrom(numbers: seq<nat>, key: Option<nat>) {
    key.Some? ==> forall i :: 0 <= i < |numbers| ==> key.value <= numbers[i]
  }

  /** What a client that found a keyframe has got, or will get first. */
  ghost predicate StartsAtKey(key: Option<nat>, sent: seq<nat>, numbers: seq<nat>, marks: seq<bool>) {
    && key.Some?
    && if sent == [] then numbers != [] && numbers[0] == key.value else sent[0] < |marks| && marks[sent[0]]
  }

  ghost predicate Invariant(s: System) {
    && Valid(s.queue)
    && Named(s.pushed, s.numbers, s.queue.frames)
    && Named(s.pushed, s.sent, s.received)
    && IsLatestKey(s.pushed, Marks(s.pushed), s.key, s.queue.keyframe)
    && AllFrom(s.numbers, s.key)
    && Increasing(s.numbers)
    && (s.connected ==> Increasing(s.sent + s.numbers))
    && (s.connected && s.primed ==> StartsAtKey(s.key, s.sent, s.numbers, Marks(s.pushed)))
  }

  lemma {:induction false} KeyKept(pushed: seq<Bytes>, frame: Bytes, key: Option<nat>, keyframe: Bytes)
    requires IsLatestKey(pushed, Marks(pushed), key, keyframe) && frame != []
    ensures var (more, marks) := (pushed + [frame], Marks(pushed + [frame]));
            if IsKeyframe(frame) then IsLatestKey(more, marks, Some(|pushed|), frame)
                else IsLatestKey(more, marks, key, keyframe)
    ensures Marks(pushed) <= Marks(pushed + [frame])
  {
    MarksAppend(pushed, frame);
  }

  /** The numbers after a keyframe: its own alone. */
  lemma {:induction false} OnlyNew(
    pushed: seq<Bytes>, frame: Bytes, sent: seq<nat>, numbers: seq<nat>, received: seq<Bytes>)
    requires Named(pushed, sent, received)
    ensures var n := |pushed|;
            && Named(pushed + [frame], [n], [frame]) && Increasing([n]) && AllFrom([n], Some(n))
            && (Increasing(sent + numbers) ==> Increasing(sent + [n]))
  {
    if Increasing(sent + numbers) {
      IncreasingPrefix(sent, numbers);
      IncreasingGrows(sent, |pushed|);
    }
  }

  /** The numbers after another frame is queued. */
  lemma {:induction false} OneNew(
    pushed: seq<Bytes>, sent: seq<nat>, numbers: seq<nat>, received: seq<Bytes>, frames: seq<Bytes>, key: Option<nat>)
    requires Named(pushed, sent, received) && Named(pushed, numbers, frames) && Increasing(numbers) &&
             AllFrom(numbers, key)
    requires key.Some? ==> key.value < |pushed|
    ensures var more := numbers + [|pushed|];
            && Increasing(more) && AllFrom(more, key)
            && (Increasing(sent + numbers) ==> Increasing(sent + more))
  {
    IncreasingGrows(numbers, |pushed|);
    if Increasing(sent + numbers) {
      IncreasingGrows(sent + numbers, |pushed|);
      Associates(sent, numbers, [|pushed|]);
    }
  }

  lemma {:induction false} StartsStill(
    key: Option<nat>, sent: seq<nat>, numbers: seq<nat>, marks: seq<bool>, later: seq<bool>, n: nat)
    requires StartsAtKey(key, sent, numbers, marks) && marks <= later
    ensures StartsAtKey(Some(n), sent, [n], later) && StartsAtKey(key, sent, numbers, later) &&
            StartsAtKey(key, sent, numbers + [n], later)
  {}

  lemma {:induction false} PushKeeps(s: System, frame: Bytes)
    requires Invariant(s) && Pushable(frame)
    ensures Invariant(Step(s, PushFrame(frame)))
  {
    hide IsKeyframe, LastOf, Valid, Marks, Named, Increasing, AllFrom, StartsAtKey;
    var n, marks, later := |s.pushed|, Marks(s.pushed), Marks(s.pushed + [frame]);
    PushValid(s.queue, frame);
    KeyKept(s.pushed, frame, s.key, s.queue.keyframe);
    NamedGrows(s.pushed, frame, s.sent, s.received);
    NamedGrows(s.pushed, frame, s.numbers, s.queue.frames);
    OnlyNew(s.pushed, frame, s.sent, s.numbers, s.received);
    OneNew(s.pushed, s.sent, s.numbers, s.received, s.queue.frames, s.key);
    if s.connected && s.primed {
      StartsStill(s.key, s.sent, s.numbers, marks, later, n);
    }
  }

  /** A frame in front that equals the latest keyframe is the latest keyframe. */
  lemma {:induction false} FrontIsKey(s: System)
    requires Invariant(s) && s.key.Some? && s.queue.frames != [] && s.queue.frames[0] == s.queue.keyframe
    ensures s.numbers[0] == s.key.value
  {
    MarkAt(s.pushed, s.numbers[0]);
    MarkAt(s.pushed, s.key.value);
  }

  lemma {:induction false} ConnectKeeps(s: System, configSent: bool)
    requires Invariant(s) && !s.connected
    ensures Invariant(Step(s, Connect(configSent)))
  {
    hide IsKeyframe, Marks, Valid;
    ConnectedValid(s.queue);
    ConnectedNumbers(s, Step(s, Connect(configSent)).numbers);
  }

  lemma {:induction false} ConnectedNumbers(s: System, numbers: seq<nat>)
    requires Invariant(s)
    requires numbers == if Connected(s.queue).frames == s.queue.frames then s.numbers
             else if s.key.Some? then [s.key.value] else []
    ensures Named(s.pushed, numbers, Connected(s.queue).frames) && AllFrom(numbers, s.key) && Increasing([] + numbers)
    ensures s.key.Some? ==> numbers != [] && numbers[0] == s.key.value
  {
    hide Invariant, Named, AllFrom, Increasing;
    assert [] + numbers == numbers;
    KeyFacts(s);
    if s.key.Some? && s.queue.frames != [] && s.queue.frames[0] == s.queue.keyframe {
      FrontIsKey(s);
    } else {
      FewNumbers(s.pushed, s.key);
    }
  }

  lemma {:induction false} KeyFacts(s: System)
    requires Invariant(s)
    ensures Named(s.pushed, s.numbers, s.queue.frames) && AllFrom(s.numbers, s.key) && Increasing(s.numbers)
    ensures |s.numbers| == |s.queue.frames|
    ensures if s.key.None? then s.queue.keyframe == []
            else s.key.value < |s.pushed| && s.queue.keyframe == s.pushed[s.key.value] && s.queue.keyframe != []
  {
    hide IsKeyframe, Marks, Valid, Increasing;
  }

  lemma {:induction false} FewNumbers(pushed: seq<Bytes>, key: Option<nat>)
    requires key.Some? ==> key.value < |pushed|
    ensures Named(pushed, [], []) && AllFrom([], key) && Increasing([])
    ensures key.Some? ==> Named(pushed, [key.value], [pushed[key.value]]) && AllFrom([key.value], key) &&
                          Increasing([key.value])
  {}

  lemma {:induction false} TakenNamed(
    pushed: seq<Bytes>, numbers: seq<nat>, frames: seq<Bytes>, sent: seq<nat>, received: seq<Bytes>)
    requires Named(pushed, numbers, frames) && Named(pushed, sent, received) && numbers != [] && Increasing(numbers)
    ensures Named(pushed, numbers[1..], frames[1..]) && Named(pushed, sent + [numbers[0]], received + [frames[0]])
    ensures (sent + [numbers[0]]) + numbers[1..] == sent + numbers && Increasing(numbers[1..])
  {
    NamedTail(pushed, numbers, frames);
    NamedAppend(pushed, sent, received, numbers[0]);
  }

  lemma {:induction false} TakeKeeps(s: System, delivered: bool)
    requires Invariant(s) && s.connected && s.queue.frames != []
    ensures Invariant(Step(s, Take(delivered)))
  {
    PopValid(s.queue);
    TakenNamed(s.pushed, s.numbers, s.queue.frames, s.sent, s.received);
  }

  lemma {:induction false} StepKeeps(s: System, e: Event)
    requires Invariant(s)
    ensures Invariant(Step(s, e))
  {
    match e
    case PushFrame(frame) => if Pushable(frame) { PushKeeps(s, frame); }
    case Connect(configSent) => if !s.connected { ConnectKeeps(s, configSent); }
    case Take(delivered) => if s.connected && s.queue.frames != [] { TakeKeeps(s, delivered); }
    case Disconnect =>
  }

  lemma {:induction false} RunKeeps(s: System, events: seq<Event>)
    requires Invariant(s)
    ensures Invariant(Run(s, events))
    decreases |events|
  {
    if |events| > 0 {
      StepKeeps(s, events[0]);
      RunKeeps(Step(s, events[0]), events[1..]);
    }
  }

  /**
   Over any run: what a client has got are frames in push order, each at most once; the limits hold and the byte count
   is exact. A client that connected after a keyframe is started at a keyframe, and as long as it has got nothing, the
   latest one is next.
   */
  lemma {:induction false} ClientsSeeOrder(events: seq<Event>)
    ensures var s := Run(INITIAL, events);
            Valid(s.queue) &&
            (s.connected ==> Named(s.pushed, s.sent, s.received) && Increasing(s.sent)) &&
            (s.connected && s.primed ==>
               if s.sent == [] then
                 s.queue.frames != [] && IsLatestKey(s.pushed, Marks(s.pushed), s.key, s.queue.frames[0])
               else IsKeyframe(s.received[0]))
  {
    RunKeeps(INITIAL, events);
    var s := Run(INITIAL, events);
    if s.connected {
      IncreasingPrefix(s.sent, s.numbers);
      if s.primed && s.sent != [] {
        MarkAt(s.pushed, s.sent[0]);
      }
    }
  }

  // ----- What a push, a connect and the loop do -----

  /** Some unit of the list is of the kind. */
  ghost predicate Has(units: seq<Bytes>, kind: nat) {
    exists i :: 0 <= i < |units| && units[i] != [] && units[i][0] % 32 == kind
  }

  lemma {:induction false} ContainsMeans(units: seq<Bytes>, kind: nat)
    ensures Contains(units, kind) <==> Has(units, kind)
    decreases |units|
  {
    if |units| > 0 {
      var tail := units[1..];
      ContainsMeans(tail, kind);
      if Has(tail, kind) {
        var i :| 0 <= i < |tail| && tail[i] != [] && tail[i][0] % 32 == kind;
        assert units[i + 1] == tail[i];
      }
      if Has(units, kind) {
        var i :| 0 <= i < |units| && units[i] != [] && units[i][0] % 32 == kind;
        assert i > 0 ==> tail[i - 1] == units[i];
      }
    }
  }

  /** The unit at `i` is the last one of the kind. */
  ghost predicate LastAt(units: seq<Bytes>, kind: nat, i: nat) {
    i < |units| && units[i] != [] && units[i][0] % 32 == kind &&
    forall j :: i < j < |units| ==> units[j] == [] || units[j][0] % 32 != kind
  }

  lemma {:induction false} LastOfMeans(units: seq<Bytes>, kind: nat, before: Bytes)
    ensures if Has(units, kind) then exists i: nat :: LastAt(units, kind, i) && LastOf(units, kind, before) == units[i]
            else LastOf(units, kind, before) == before
    decreases |units|
  {
    if |units| > 0 {
      var tail, next := units[1..], if OfKind(units[0], kind) then units[0] else before;
      LastOfMeans(tail, kind, next);
      assert forall j :: 0 < j < |units| ==> units[j] == tail[j - 1];
      if Has(tail, kind) {
        var i: nat :| LastAt(tail, kind, i) && LastOf(tail, kind, next) == tail[i];
        assert LastAt(units, kind, i + 1) && units[i + 1] == tail[i];
      } else if OfKind(units[0], kind) {
        assert forall j :: 0 <= j < |tail| ==> tail[j] == [] || tail[j][0] % 32 != kind;
        assert LastAt(units, kind, 0);
      }
    }
  }

  /**
   A frame in numbers: one with a unit of kind 5 is a keyframe and takes the place of all that is queued; any other is
   queued last if 600 frames and 16 MiB allow it, and dropped if not. The last units of kinds 7 and 8 are kept.
   */
  lemma {:induction false} PushMeans(q: Queue, frame: Bytes)
    requires Valid(q) && 0 < |frame| <= 16777216
    ensures var t, units := Push(q, frame), AnnexB.Units(frame);
            && t.frames ==
               (if Has(units, 5) then [frame]
                else if |q.frames| < 600 && Total(q.frames) + |frame| <= 16777216 then q.frames + [frame]
                else q.frames)
            && t.keyframe == (if Has(units, 5) then frame else q.keyframe)
            && (if Has(units, 7) then exists i: nat :: LastAt(units, 7, i) && t.sps == units[i] else t.sps == q.sps)
            && (if Has(units, 8) then exists i: nat :: LastAt(units, 8, i) && t.pps == units[i] else t.pps == q.pps)
  {
    hide AnnexB.Units, Contains, LastOf, Has, LastAt;
    var units := AnnexB.Units(frame);
    ContainsMeans(units, 5);
    LastOfMeans(units, 7, q.sps);
    LastOfMeans(units, 8, q.pps);
  }

  /**
   A client that connects finds the latest keyframe in front: the queue as it is when it begins with it, and that
   keyframe alone when it does not; before the first keyframe it finds nothing. The configuration is the two parameter
   sets.
   */
  lemma {:induction false} ConnectMeans(q: Queue)
    ensures Connected(q).frames ==
            if q.keyframe == [] then []
            else if q.frames != [] && q.frames[0] == q.keyframe then q.frames
            else [q.keyframe]
    ensures Config(q) ==
            if q.sps == [] || q.pps == [] then [] else [0, 0, 0, 1] + q.sps + [0, 0, 0, 1] + q.pps
  {
    if q.sps != [] && q.pps != [] {
      ConfigBytes(q.sps, q.pps);
    }
  }

  /** As many turns of the loop as there are frames queued. */
  function Takes(n: nat): seq<Event> {
    if n == 0 then [] else [Take(true)] + Takes(n - 1)
  }

  /** A connected client gets all that is queued, in this order, if the socket takes it. */
  lemma {:induction false} QueueDrains(s: System)
    requires Invariant(s) && s.connected
    ensures var t := Run(s, Takes(|s.queue.frames|));
            t.received == s.received + s.queue.frames && t.queue.frames == [] && t.connected && t.pushed == s.pushed
    decreases |s.queue.frames|
  {
    hide Invariant;
    var n := |s.queue.frames|;
    if n == 0 {
      assert s.received + [] == s.received;
    } else {
      var t, first := Step(s, Take(true)), s.queue.frames[0];
      TakeKeeps(s, true);
      OneTaken(s);
      QueueDrains(t);
      assert Takes(n)[0] == Take(true) && Takes(n)[1..] == Takes(n - 1);
      Associates(s.received, [first], t.queue.frames);
      assert s.queue.frames == [first] + t.queue.frames;
    }
  }

  lemma {:induction false} OneTaken(s: System)
    requires Invariant(s) && s.connected && s.queue.frames != []
    ensures var t := Step(s, Take(true));
            t.queue.frames == s.queue.frames[1..] && t.received == s.received + [s.queue.frames[0]] && t.connected &&
            t.pushed == s.pushed
  {
    PopValid(s.queue);
  }
}

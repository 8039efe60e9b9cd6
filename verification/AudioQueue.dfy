/**
 The bounded queue of the audio forwarders: when a frame does not fit, the oldest ones make room. Their limit is 100
 frames.
 */
module AudioQueue {
  import opened ByteStrings
  import opened Lists
  import VideoQueue

  predicate Fits(frames: seq<Bytes>, frame: Bytes, limit: nat) {
    frames == [] || (|frames| < limit && Total(frames) + |frame| <= VideoQueue.MAX_BYTES)
  }

  /** How many of the oldest frames have to go: as few as possible. */
  function Evicted(frames: seq<Bytes>, frame: Bytes, limit: nat): (k: nat)
    ensures k <= |frames| && Fits(frames[k..], frame, limit)
    ensures forall j :: 0 <= j < k ==> !Fits(frames[j..], frame, limit)
    decreases |frames|
  {
    if Fits(frames, frame, limit) then
      assert frames[0..] == frames;
      0
    else
      var k := Evicted(frames[1..], frame, limit);
      assert frames[1..][k..] == frames[k + 1..];
      assert forall j :: 0 < j < k + 1 ==> frames[1..][j - 1..] == frames[j..];
      assert frames[0..] == frames;
      k + 1
  }

  predicate Queueable(frame: Bytes) { 0 < |frame| <= VideoQueue.MAX_BYTES }

  function Enqueued(frames: seq<Bytes>, frame: Bytes, limit: nat): seq<Bytes> {
    if !Queueable(frame) then frames
    else frames[Evicted(frames, frame, limit)..] + [frame]
  }

  class MediaSocketForwarder {
    const limit: nat
    var frames: seq<Bytes>
    var queuedBytes: nat

    constructor (limit: nat)
      requires limit > 0
      ensures this.limit == limit && frames == [] && queuedBytes == 0
    {
      this.limit := limit;
      frames, queuedBytes := [], 0;
    }

    ghost predicate Valid()
      reads this
    {
      |frames| <= limit && queuedBytes == Total(frames) <= VideoQueue.MAX_BYTES
    }

    method Enqueue(frame: Bytes)
      requires Valid() && limit > 0
      modifies this
      ensures frames == Enqueued(old(frames), frame, limit) && Valid()
    {
      if frame == [] || |frame| > VideoQueue.MAX_BYTES {
        return;
      }
      ghost var was, k := frames, 0;
      while (frames != [] && |frames| >= limit) || (frames != [] && queuedBytes + |frame| > VideoQueue.MAX_BYTES)
        invariant 0 <= k <= |was| && frames == was[k..]
        invariant queuedBytes == Total(frames)
        invariant |frames| <= limit && queuedBytes <= VideoQueue.MAX_BYTES
        invariant forall j :: 0 <= j < k ==> !Fits(was[j..], frame, limit)
        decreases |frames|
      {
        queuedBytes := queuedBytes - |frames[0]|;
        frames := frames[1..];
        k := k + 1;
      }
      LeastIsUnique(was, frame, limit, k);
      TotalAppend(frames, frame);
      frames := frames + [frame];
      queuedBytes := queuedBytes + |frame|;
    }

    /** The forwarding loop takes the oldest frame. */
    method TakeFront() returns (frame: Option<Bytes>)
      requires Valid()
      modifies this
      ensures Valid()
      ensures if old(frames) == [] then frame == None && frames == []
              else frame == Some(old(frames)[0]) && frames == old(frames)[1..]
    {
      if frames == [] {
        return None;
      }
      var size := |frames[0]|;
      frame := Some(frames[0]);
      frames := frames[1..];
      queuedBytes := queuedBytes - size;
    }
  }

  lemma {:induction false} LeastIsUnique(frames: seq<Bytes>, frame: Bytes, limit: nat, k: nat)
    requires k <= |frames| && Fits(frames[k..], frame, limit)
    requires forall j :: 0 <= j < k ==> !Fits(frames[j..], frame, limit)
    ensures k == Evicted(frames, frame, limit)
  {
    assert Fits(frames[Evicted(frames, frame, limit)..], frame, limit);
  }

  // ----- Runs -----

  datatype Event = Push(frame: Bytes) | Take

  /** `offered` are the frames that can be queued at all, `numbers` the places among them of those taken. */
  datatype Queue = Queue(frames: seq<Bytes>, offered: seq<Bytes>, taken: seq<Bytes>, numbers: seq<nat>, dropped: nat)

  const EMPTY: Queue := Queue([], [], [], [], 0)

  function Step(q: Queue, e: Event, limit: nat): Queue {
    match e
    case Push(frame) =>
      if !Queueable(frame) then q
      else
        q.(frames := Enqueued(q.frames, frame, limit), offered := q.offered + [frame],
           dropped := q.dropped + Evicted(q.frames, frame, limit))
    case Take =>
      if q.frames == [] || |q.offered| < |q.frames| then q
      else
        q.(frames := q.frames[1..], taken := q.taken + [q.frames[0]],
           numbers := q.numbers + [|q.offered| - |q.frames|])
  }

  function Run(events: seq<Event>, limit: nat): Queue {
    if |events| == 0 then EMPTY
    else Step(Run(events[..|events| - 1], limit), events[|events| - 1], limit)
  }

  ghost predicate EndOf(part: seq<Bytes>, whole: seq<Bytes>) {
    |part| <= |whole| && part == whole[|whole| - |part|..]
  }

  ghost predicate Orderly(q: Queue, limit: nat) {
    && EndOf(q.frames, q.offered) && |q.frames| <= limit && Total(q.frames) <= VideoQueue.MAX_BYTES
    && Named(q.offered, q.numbers, q.taken) && Increasing(q.numbers)
    && AllBelow(q.numbers, |q.offered| - |q.frames|)
    && |q.taken| + |q.frames| + q.dropped == |q.offered|
  }

  lemma {:induction false} EndStays(part: seq<Bytes>, whole: seq<Bytes>, k: nat, more: seq<Bytes>)
    requires EndOf(part, whole) && k <= |part|
    ensures EndOf(part[k..] + more, whole + more)
  {}

  lemma {:induction false} PushOrderly(q: Queue, frame: Bytes, limit: nat)
    requires Orderly(q, limit) && Queueable(frame) && limit > 0
    ensures Orderly(Step(q, Push(frame), limit), limit)
  {
    hide Increasing, Named, EndOf;
    var k := Evicted(q.frames, frame, limit);
    EndStays(q.frames, q.offered, k, [frame]);
    NamedGrows(q.offered, frame, q.numbers, q.taken);
    TotalAppend(q.frames[k..], frame);
    if q.frames[k..] == [] {
      assert Total([]) == 0;
    }
  }

  lemma {:induction false} TakeOrderly(q: Queue, limit: nat)
    requires Orderly(q, limit) && q.frames != []
    ensures Orderly(Step(q, Take, limit), limit)
  {
    hide Increasing, Named;
    var n := |q.offered| - |q.frames|;
    EndStays(q.frames, q.offered, 1, []);
    assert q.frames[1..] + [] == q.frames[1..] && q.offered + [] == q.offered;
    IncreasingGrows(q.numbers, n);
    NamedAppend(q.offered, q.numbers, q.taken, n);
  }

  lemma {:induction false} RunOrderly(events: seq<Event>, limit: nat)
    requires limit > 0
    ensures Orderly(Run(events, limit), limit)
    decreases |events|
  {
    hide Step, Orderly;
    if |events| == 0 {
      EmptyOrderly(limit);
    } else {
      var n := |events| - 1;
      var q := Run(events[..n], limit);
      RunOrderly(events[..n], limit);
      if events[n].Push? && Queueable(events[n].frame) {
        PushOrderly(q, events[n].frame, limit);
      } else if events[n].Take? && q.frames != [] {
        TakeOrderly(q, limit);
      } else {
        NoStep(q, events[n], limit);
      }
    }
  }

  lemma {:induction false} EmptyOrderly(limit: nat)
    ensures Orderly(EMPTY, limit)
  {}

  lemma {:induction false} NoStep(q: Queue, e: Event, limit: nat)
    requires if e.Push? then !Queueable(e.frame) else q.frames == []
    ensures Step(q, e, limit) == q
  {}

  /**
   Over any run of packets and of the forwarding loop: the queue holds the latest packets without a gap, the newest one
   included; those taken are earlier ones, in order, each once; and none is missing but those that had to make room.
   */
  lemma {:induction false} LatestKept(events: seq<Event>, limit: nat)
    requires limit > 0
    ensures var q := Run(events, limit);
            && EndOf(q.frames, q.offered) && |q.frames| <= limit && Total(q.frames) <= VideoQueue.MAX_BYTES
            && Named(q.offered, q.numbers, q.taken) && Increasing(q.numbers)
            && AllBelow(q.numbers, |q.offered| - |q.frames|)
            && |q.taken| + |q.frames| + q.dropped == |q.offered|
    ensures forall e :: events != [] && e == events[|events| - 1] && e.Push? && Queueable(e.frame) ==>
              var q := Run(events, limit); q.frames != [] && q.frames[|q.frames| - 1] == e.frame
  {
    RunOrderly(events, limit);
  }

  /** These frames leave room for the new one: fewer than the limit, and 16 MiB in all with it; or there are none. */
  ghost predicate Roomy(frames: seq<Bytes>, frame: Bytes, limit: nat) {
    frames == [] || (|frames| + 1 <= limit && Total(frames) + |frame| <= 16777216)
  }

  /** A frame that is queued takes the place of the fewest oldest frames that make room for it; none, if it fits. */
  lemma {:induction false} FewestLeave(frames: seq<Bytes>, frame: Bytes, limit: nat) returns (k: nat)
    requires 0 < |frame| <= 16777216
    ensures k <= |frames| && Enqueued(frames, frame, limit) == frames[k..] + [frame]
    ensures Roomy(frames[k..], frame, limit) && forall j :: 0 <= j < k ==> !Roomy(frames[j..], frame, limit)
  {
    k := Evicted(frames, frame, limit);
    assert Fits(frames[k..], frame, limit);
    forall j | 0 <= j < k
      ensures !Roomy(frames[j..], frame, limit)
    {
      assert !Fits(frames[j..], frame, limit);
    }
  }
}

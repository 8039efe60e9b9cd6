/**
 The flow control of the microphone channel. Audio is offered by any thread under a lock and drained on a strand, at
 most one packet being unacknowledged at a time. The parts between two locks are steps, taken in any order.
 */
module Microphone {
  import opened ByteStrings
  import opened Lists

  const MAX_INGRESS: nat := 2

  // ----- The session object -----

  datatype Session = Session(ingress: seq<Bytes>, posted: bool, pending: Bytes, inFlight: bool, id: nat)

  const CLOSED: Session := Session([], false, [], false, 0)

  function Offered(m: Session, audio: Bytes): Session {
    if audio == [] then m
    else m.(ingress := (if |m.ingress| >= MAX_INGRESS then m.ingress[1..] else m.ingress) + [audio], posted := true)
  }

  /** Sends a packet, keeps it until the acknowledgement, or drops it when the session is closed. */
  function HandedOver(m: Session, audio: Bytes): (Option<Bytes>, Session) {
    if m.id == 0 || audio == [] then (None, m)
    else if m.inFlight then (None, m.(pending := audio))
    else (Some(audio), m.(inFlight := true))
  }

  function Acknowledged(m: Session): (Option<Bytes>, Session) {
    var free := m.(inFlight := false);
    if m.pending == [] then (None, free) else HandedOver(free.(pending := []), m.pending)
  }

  class MicrophoneSession {
    var ingressAudio: seq<Bytes>
    var ingressPosted: bool
    var pendingAudio: Bytes
    var sendInFlight: bool
    var sessionId: nat

    ghost function State(): Session
      reads this
    {
      Session(ingressAudio, ingressPosted, pendingAudio, sendInFlight, sessionId)
    }

    constructor ()
      ensures State() == CLOSED
    {
      ingressAudio, ingressPosted, pendingAudio, sendInFlight, sessionId := [], false, [], false, 0;
    }

    /** `schedule` tells the caller to post a drain. */
    method SendAudio(audio: Bytes) returns (schedule: bool)
      modifies this
      ensures State() == Offered(old(State()), audio)
      ensures schedule == (audio != [] && !old(ingressPosted))
    {
      schedule := false;
      if audio == [] {
        return;
      }
      if |ingressAudio| >= MAX_INGRESS {
        ingressAudio := ingressAudio[1..];
      }
      ingressAudio := ingressAudio + [audio];
      if !ingressPosted {
        ingressPosted := true;
        schedule := true;
      }
    }

    method SendAudioOnStrand(audio: Bytes) returns (sent: Option<Bytes>)
      modifies this
      ensures (sent, State()) == HandedOver(old(State()), audio)
    {
      if sessionId == 0 || audio == [] {
        return None;
      }
      if sendInFlight {
        pendingAudio := audio;
        return None;
      }
      sendInFlight := true;
      return Some(audio);
    }

    /** One drain with nothing happening in between; `schedule` asks for another one. */
    method DrainAudio() returns (sent: Option<Bytes>, schedule: bool)
      modifies this
      ensures if old(ingressAudio) == [] then
                sent == None && !schedule && State() == old(State()).(posted := false)
              else
                var (s, m) := HandedOver(old(State()).(ingress := old(ingressAudio)[1..]), old(ingressAudio)[0]);
                sent == s && schedule == (m.ingress != []) && State() == if schedule then m else m.(posted := false)
    {
      if ingressAudio == [] {
        ingressPosted := false;
        return None, false;
      }
      var audio := ingressAudio[0];
      ingressAudio := ingressAudio[1..];
      sent := SendAudioOnStrand(audio);
      schedule := ingressAudio != [];
      if !schedule {
        ingressPosted := false;
      }
    }

    method OnAck() returns (sent: Option<Bytes>)
      modifies this
      ensures (sent, State()) == Acknowledged(old(State()))
    {
      sendInFlight := false;
      sent := None;
      if pendingAudio != [] {
        var audio := pendingAudio;
        pendingAudio := [];
        sent := SendAudioOnStrand(audio);
      }
    }

    method OnOpenRequest(open: bool)
      modifies this
      ensures State() == Session([], old(ingressPosted), [], false, if open then 1 else 0)
    {
      sessionId := if open then 1 else 0;
      sendInFlight := false;
      pendingAudio := [];
      ingressAudio := [];
    }
  }

  // ----- Threads and strand -----

  /** Where the running drain is: it holds a packet, has handed it over, or is about to post the next drain. */
  datatype Phase = Idle | Holding(audio: Bytes, number: nat) | Handed | Posting

  /**
   `promised` drains are about to be posted by a producer, `scheduled` ones are posted. A packet is known by its place
   among those offered; `queued`, `waiting` and `sent` name the packets of the ingress queue, the pending one and those
   on the wire.
   */
  datatype System = System(
    m: Session, promised: nat, scheduled: nat, phase: Phase, unacked: nat,
    offered: seq<Bytes>, queued: seq<nat>, waiting: Option<nat>, sent: seq<nat>, wire: seq<Bytes>)

  const INITIAL: System := System(CLOSED, 0, 0, Idle, 0, [], [], None, [], [])

  datatype Event = Offer(audio: Bytes) | Post | StartDrain | HandOver | EndDrain | Repost | Ack | Open(open: bool)

  function Step(s: System, e: Event): System {
    match e
    case Offer(audio) =>
      if audio == [] then s
      else
        s.(m := Offered(s.m, audio), promised := if s.m.posted then s.promised else s.promised + 1,
           offered := s.offered + [audio],
           queued := (if |s.queued| >= MAX_INGRESS then s.queued[1..] else s.queued) + [|s.offered|])
    case Post => if s.promised > 0 then s.(promised := s.promised - 1, scheduled := s.scheduled + 1) else s
    case StartDrain =>
      if s.phase != Idle || s.scheduled == 0 then s
      else
        var t := s.(scheduled := s.scheduled - 1);
        if s.m.ingress == [] then t.(m := s.m.(posted := false))
        else if s.queued == [] then t
        else t.(m := s.m.(ingress := s.m.ingress[1..]), queued := s.queued[1..],
            phase := Holding(s.m.ingress[0], s.queued[0]))
    case HandOver => if s.phase.Holding? then GiveOver(s.(phase := Handed), s.phase.audio, s.phase.number) else s
    case EndDrain =>
      if s.phase != Handed then s
      else if s.m.ingress == [] then s.(m := s.m.(posted := false), phase := Idle)
      else s.(phase := Posting)
    case Repost => if s.phase == Posting then s.(scheduled := s.scheduled + 1, phase := Idle) else s
    case Ack =>
      if s.phase != Idle || s.unacked == 0 then s
      else
        var t := s.(m := s.m.(inFlight := false), unacked := s.unacked - 1);
        if s.m.pending == [] || s.waiting.None? then t
        else GiveOver(t.(m := t.m.(pending := []), waiting := None), s.m.pending, s.waiting.value)
    case Open(open) =>
      if s.phase != Idle then s
      else
        s.(m := Session([], s.m.posted, [], false, if open then 1 else 0), unacked := 0,
           queued := [], waiting := None, sent := [], wire := [])
  }

  /** A packet handed to the strand: sent, kept in place of the one that was waiting, or dropped. */
  function GiveOver(s: System, audio: Bytes, number: nat): System {
    var (sent, m) := HandedOver(s.m, audio);
    if sent.Some? then s.(m := m, unacked := s.unacked + 1, sent := s.sent + [number], wire := s.wire + [sent.value])
    else if s.m.id != 0 && audio != [] then s.(m := m, waiting := Some(number))
    else s
  }

  function Run(s: System, events: seq<Event>): System
    decreases |events|
  {
    if |events| == 0 then s else Run(Step(s, events[0]), events[1..])
  }

  // ----- What every step keeps -----

  /** Drains that are promised, scheduled or running. */
  function Drains(s: System): nat { s.promised + s.scheduled + if s.phase == Idle then 0 else 1 }

  ghost predicate NonEmpty(packets: seq<Bytes>) {
    forall i :: 0 <= i < |packets| ==> packets[i] != []
  }

  function Kept(waiting: Option<nat>): seq<nat> { if waiting.None? then [] else [waiting.value] }

  function Held(phase: Phase): seq<nat> { if phase.Holding? then [phase.number] else [] }

  /** All packets that were or may still be sent, in that order. */
  function Line(s: System): seq<nat> { s.sent + Kept(s.waiting) + Held(s.phase) + s.queued }

  /** A drain is on its way exactly when the flag says so, exactly one, and always when there is audio. */
  ghost predicate Scheduling(s: System) {
    && Drains(s) == (if s.m.posted then 1 else 0)
    && (s.m.ingress != [] ==> s.m.posted)
  }

  ghost predicate FlowControl(s: System) {
    && (s.m.pending != [] ==> s.m.inFlight)
    && (s.m.pending == [] <==> s.waiting.None?)
    && s.unacked == (if s.m.inFlight then 1 else 0)
    && (s.waiting.Some? ==> s.waiting.value < |s.offered| && s.m.pending == s.offered[s.waiting.value])
    && (s.phase.Holding? ==> s.phase.number < |s.offered| && s.phase.audio == s.offered[s.phase.number])
  }

  ghost predicate Invariant(s: System) {
    && |s.m.ingress| <= MAX_INGRESS && NonEmpty(s.offered)
    && Scheduling(s) && FlowControl(s)
    && Named(s.offered, s.queued, s.m.ingress) && Named(s.offered, s.sent, s.wire)
    && Increasing(Line(s))
  }

  lemma {:induction false} LineBelow(s: System)
    requires Invariant(s)
    ensures AllBelow(Line(s), |s.offered|)
  {}

  lemma {:induction false} OfferKeeps(s: System, audio: Bytes)
    requires Invariant(s) && audio != []
    ensures Invariant(Step(s, Offer(audio)))
  {
    hide Increasing, Named;
    LineBelow(s);
    NamedGrows(s.offered, audio, s.sent, s.wire);
    NamedGrows(s.offered, audio, s.queued, s.m.ingress);
    QueuedLength(s.offered, s.queued, s.m.ingress);
    if |s.queued| >= MAX_INGRESS {
      NamedTail(s.offered, s.queued, s.m.ingress);
      NamedGrows(s.offered, audio, s.queued[1..], s.m.ingress[1..]);
    }
    OneMore(s.sent + Kept(s.waiting) + Held(s.phase), s.queued, |s.offered|);
  }

  lemma {:induction false} QueuedLength(offered: seq<Bytes>, numbers: seq<nat>, packets: seq<Bytes>)
    requires Named(offered, numbers, packets)
    ensures |numbers| == |packets|
  {}

  /** A packet joins the end of the line, with or without the oldest queued one leaving. */
  lemma {:induction false} OneMore(before: seq<nat>, queued: seq<nat>, n: nat)
    requires Increasing(before + queued) && AllBelow(before + queued, n)
    ensures Increasing(before + (queued + [n]))
    ensures queued != [] ==> Increasing(before + (queued[1..] + [n]))
  {
    IncreasingGrows(before + queued, n);
    Associates(before, queued, [n]);
    if queued != [] {
      assert before + queued == before + [queued[0]] + queued[1..];
      assert before + (queued + [n]) == before + [queued[0]] + (queued[1..] + [n]);
      WithoutMiddle(before, [queued[0]], queued[1..] + [n], n + 1);
    }
  }

  lemma {:induction false} StartKeeps(s: System)
    requires Invariant(s) && s.phase == Idle && s.scheduled > 0
    ensures Invariant(Step(s, StartDrain))
  {
    var t := Step(s, StartDrain);
    if s.m.ingress != [] {
      assert s.queued == [s.queued[0]] + s.queued[1..];
      assert Line(t) == Line(s);
    } else {
      assert Line(t) == Line(s);
    }
  }

  /** Sending the packet, keeping it instead of an older one, or dropping it: the order stays. */
  lemma {:induction false} HandOverKeeps(s: System)
    requires Invariant(s) && s.phase.Holding?
    ensures Invariant(Step(s, HandOver))
  {
    hide Increasing, Named;
    var t, k := Step(s, HandOver), s.phase.number;
    if s.m.id == 0 {
      WithoutMiddle(s.sent + Kept(s.waiting), [k], s.queued, |s.offered|);
      assert Line(t) == s.sent + Kept(s.waiting) + s.queued;
    } else if s.m.inFlight {
      assert Line(s) == s.sent + Kept(s.waiting) + ([k] + s.queued);
      WithoutMiddle(s.sent, Kept(s.waiting), [k] + s.queued, |s.offered|);
      assert Line(t) == s.sent + ([k] + s.queued);
    } else {
      assert s.waiting.None?;
      assert Line(t) == Line(s);
      NamedAppend(s.offered, s.sent, s.wire, k);
    }
  }

  lemma {:induction false} AckKeeps(s: System)
    requires Invariant(s) && s.phase == Idle && s.unacked > 0
    ensures Invariant(Step(s, Ack))
  {
    var t := Step(s, Ack);
    if s.waiting.Some? {
      if s.m.id == 0 {
        assert Line(s) == s.sent + Kept(s.waiting) + s.queued;
        WithoutMiddle(s.sent, Kept(s.waiting), s.queued, |s.offered|);
        assert Line(t) == s.sent + s.queued;
      } else {
        assert Line(t) == Line(s);
      }
    } else {
      assert Line(t) == Line(s);
    }
  }

  lemma {:induction false} StepKeeps(s: System, e: Event)
    requires Invariant(s)
    ensures Invariant(Step(s, e))
  {
    match e
    case Offer(audio) => if audio != [] { OfferKeeps(s, audio); }
    case Post => assert Line(Step(s, Post)) == Line(s);
    case StartDrain => if s.phase == Idle && s.scheduled > 0 { StartKeeps(s); }
    case HandOver => if s.phase.Holding? { HandOverKeeps(s); }
    case EndDrain => assert Line(Step(s, EndDrain)) == Line(s);
    case Repost => assert Line(Step(s, Repost)) == Line(s);
    case Ack => if s.phase == Idle && s.unacked > 0 { AckKeeps(s); }
    case Open(_) => if s.phase == Idle { assert Line(Step(s, e)) == []; }
  }

  lemma {:induction false} RunKeeps(s: System, events: seq<Event>)
    requires Invariant(s)
    ensures Invariant(Run(s, events))
    decreases |events|
  {
    if |events| > 0 {
      StepKeeps(s, events[0]);
      RunKeeps(Step(s, events[0]), events[1..]);
    }
  }

  /**
   Over any run: the flag is set exactly when one drain is promised, scheduled or running, and audio in the queue means
   it is set; at most one packet is unacknowledged; and what went out since the channel was opened are offered packets,
   in order, each once.
   */
  lemma {:induction false} FlowIsOrderly(events: seq<Event>)
    ensures var s := Run(INITIAL, events);
            && Drains(s) == (if s.m.posted then 1 else 0)
            && (s.m.ingress != [] ==> Drains(s) == 1)
            && (s.m.pending != [] ==> s.m.inFlight) && s.unacked <= 1 && |s.m.ingress| <= 2
            && Named(s.offered, s.sent, s.wire) && Increasing(s.sent)
  {
    assert Line(INITIAL) == [];
    RunKeeps(INITIAL, events);
    var s := Run(INITIAL, events);
    forall i | 0 <= i < |s.sent| ensures s.sent[i] == Line(s)[i] {}
  }

  // ----- Nothing is stranded -----

  const ROUND: seq<Event> := [HandOver, EndDrain, Repost, Post, StartDrain]

  /** The strand finishes what it is at, and the next drain is posted. */
  function Ready(s: System): System { Step(Step(Step(Step(s, HandOver), EndDrain), Repost), Post) }

  lemma {:induction false} ReadyToDrain(s: System)
    requires Drains(s) == 1 && s.m.ingress != []
    ensures var t := Ready(s); t.phase == Idle && t.scheduled == 1 && t.m.ingress == s.m.ingress
  {
    var a := Step(s, HandOver);
    assert a.m.ingress == s.m.ingress && Drains(a) == 1 && !a.phase.Holding?;
    var c := Step(Step(a, EndDrain), Repost);
    assert c.m.ingress == s.m.ingress && Drains(c) == 1 && c.phase == Idle;
  }

  lemma {:induction false} ReadyKeeps(s: System)
    requires Invariant(s)
    ensures Invariant(Ready(s))
  {
    var a := Step(s, HandOver);
    StepKeeps(s, HandOver);
    StepKeeps(a, EndDrain);
    StepKeeps(Step(a, EndDrain), Repost);
    StepKeeps(Step(Step(a, EndDrain), Repost), Post);
  }

  /** Finishing what the strand is at and starting the next drain takes one packet off the queue. */
  lemma {:induction false} RoundTakesOne(s: System)
    requires Invariant(s) && s.m.ingress != []
    ensures var t := Step(Ready(s), StartDrain); Invariant(t) && |t.m.ingress| == |s.m.ingress| - 1
  {
    ReadyToDrain(s);
    ReadyKeeps(s);
    StepKeeps(Ready(s), StartDrain);
  }

  lemma {:induction false} RunRound(s: System)
    ensures Run(s, ROUND) == Step(Ready(s), StartDrain)
  {
    assert ROUND[1..] == [EndDrain, Repost, Post, StartDrain];
    assert [EndDrain, Repost, Post, StartDrain][1..] == [Repost, Post, StartDrain];
    assert [Repost, Post, StartDrain][1..] == [Post, StartDrain];
    assert [Post, StartDrain][1..] == [StartDrain] && [StartDrain][1..] == [];
    var t: seq<Event> := [StartDrain];
    assert forall u :: Run(u, t) == Step(u, StartDrain);
  }

  /** From any state of any run, steps of the producers' posts and of the strand alone empty the queue. */
  lemma {:induction false} QueueEmpties(s: System) returns (events: seq<Event>)
    requires Invariant(s)
    ensures forall e <- events :: !e.Offer? && !e.Ack? && !e.Open?
    ensures Run(s, events).m.ingress == []
    decreases |s.m.ingress|
  {
    if s.m.ingress == [] {
      events := [];
    } else {
      RoundTakesOne(s);
      RunRound(s);
      var more := QueueEmpties(Run(s, ROUND));
      RunJoins(s, ROUND, more);
      events := ROUND + more;
    }
  }

  lemma {:induction false} RunJoins(s: System, a: seq<Event>, b: seq<Event>)
    ensures Run(s, a + b) == Run(Run(s, a), b)
    decreases |a|
  {
    if |a| == 0 {
      assert a + b == b;
    } else {
      assert (a + b)[1..] == a[1..] + b;
      RunJoins(Step(s, a[0]), a[1..], b);
    }
  }

  // ----- The newest packet goes out -----

  /** A step of the posts, the strand or an acknowledgement, on an open channel. */
  predicate Working(e: Event) { e.Post? || e.StartDrain? || e.HandOver? || e.EndDrain? || e.Repost? || e.Ack? }

  /** The last packet of the line stays the last one; older ones may give way to it. */
  ghost predicate NewestStays(s: System, t: System) {
    && t.m.id == s.m.id && t.offered == s.offered
    && (Line(s) != [] ==> Line(t) != [] && Line(t)[|Line(t)| - 1] == Line(s)[|Line(s)| - 1])
  }

  lemma {:induction false} SameLine(s: System, t: System)
    requires t.m.id == s.m.id && t.offered == s.offered && Line(t) == Line(s)
    ensures NewestStays(s, t)
  {}

  lemma {:induction false} StepNewest(s: System, e: Event)
    requires Invariant(s) && s.m.id != 0 && Working(e)
    ensures NewestStays(s, Step(s, e))
  {
    hide Invariant, Line, NewestStays;
    match e
    case HandOver => HandOverNewest(s);
    case StartDrain => StartNewest(s);
    case Ack => AckNewest(s);
    case _ =>
      QuietStep(s, e);
      SameLine(s, Step(s, e));
  }

  lemma {:induction false} QuietStep(s: System, e: Event)
    requires e.Post? || e.EndDrain? || e.Repost?
    ensures var t := Step(s, e); t.m.id == s.m.id && t.offered == s.offered && Line(t) == Line(s)
  {}

  lemma {:induction false} HandOverNewest(s: System)
    requires Invariant(s) && s.m.id != 0
    ensures NewestStays(s, Step(s, HandOver))
  {
    hide Invariant;
    if s.phase.Holding? {
      HeldNotEmpty(s);
      var t, n := Step(s, HandOver), s.phase.number;
      if s.m.inFlight {
        assert Line(s) == s.sent + Kept(s.waiting) + ([n] + s.queued);
        assert Line(t) == s.sent + ([n] + s.queued);
        SameLast(s.sent + Kept(s.waiting), s.sent, [n] + s.queued);
      } else {
        WaitingNotEmpty(s);
        assert Line(t) == Line(s);
      }
    }
  }

  lemma {:induction false} SameLast(a: seq<nat>, b: seq<nat>, c: seq<nat>)
    requires c != []
    ensures a + c != [] && b + c != [] && (a + c)[|a + c| - 1] == (b + c)[|b + c| - 1]
  {}

  lemma {:induction false} StartNewest(s: System)
    requires Invariant(s)
    ensures NewestStays(s, Step(s, StartDrain))
  {
    hide Invariant, Line, NewestStays, Step;
    StartLine(s);
    SameLine(s, Step(s, StartDrain));
  }

  /** A drain that starts takes the oldest queued packet in hand. */
  lemma {:induction false} StartLine(s: System)
    requires Invariant(s)
    ensures var t := Step(s, StartDrain); t.m.id == s.m.id && t.offered == s.offered && Line(t) == Line(s)
  {
    hide Invariant;
    WaitingNotEmpty(s);
    if s.phase == Idle && s.scheduled > 0 && s.queued != [] {
      assert s.queued == [s.queued[0]] + s.queued[1..];
    }
  }

  lemma {:induction false} AckNewest(s: System)
    requires Invariant(s) && s.m.id != 0
    ensures NewestStays(s, Step(s, Ack))
  {
    hide Invariant;
    WaitingNotEmpty(s);
    assert Line(Step(s, Ack)) == Line(s);
  }

  lemma {:induction false} HeldNotEmpty(s: System)
    requires Invariant(s) && s.phase.Holding?
    ensures s.phase.audio != []
  {}

  lemma {:induction false} WaitingNotEmpty(s: System)
    requires Invariant(s)
    ensures s.waiting.Some? <==> s.m.pending != []
    ensures |s.queued| == |s.m.ingress| && (s.phase.Holding? && !s.m.inFlight ==> s.waiting.None?)
  {}

  lemma {:induction false} RunNewest(s: System, events: seq<Event>)
    requires Invariant(s) && s.m.id != 0 && forall e <- events :: Working(e)
    ensures Invariant(Run(s, events)) && NewestStays(s, Run(s, events))
    decreases |events|
  {
    hide Invariant, Line, Step;
    if |events| > 0 {
      assert events[0] in events;
      StepKeeps(s, events[0]);
      StepNewest(s, events[0]);
      var t := Step(s, events[0]);
      assert forall e <- events[1..] :: e in events;
      RunNewest(t, events[1..]);
    }
  }

  const FINISH: seq<Event> := [HandOver, EndDrain, Repost, Ack, Ack]

  lemma {:induction false} StrandFinishes(s: System)
    requires Invariant(s) && s.m.ingress == []
    ensures var t := Step(Step(Step(s, HandOver), EndDrain), Repost);
            Invariant(t) && t.phase == Idle && t.m.ingress == [] && t.m.id == s.m.id
  {
    hide Invariant, Line;
    var a, b := Step(s, HandOver), Step(Step(s, HandOver), EndDrain);
    StepKeeps(s, HandOver);
    StepKeeps(a, EndDrain);
    StepKeeps(b, Repost);
  }

  lemma {:induction false} AckClears(s: System)
    requires Invariant(s) && s.phase == Idle && s.m.ingress == [] && s.m.id != 0
    ensures var t := Step(s, Ack);
            && Invariant(t) && t.phase == Idle && t.m.ingress == [] && t.m.id == s.m.id && t.m.pending == []
            && (s.m.pending == [] ==> !t.m.inFlight && Line(t) == t.sent)
  {
    hide Increasing, Named;
    StepKeeps(s, Ack);
    var t := Step(s, Ack);
    QueuedLength(t.offered, t.queued, t.m.ingress);
    if s.m.pending == [] {
      assert t.queued == [] && Line(t) == t.sent + [] + [] + [];
    }
  }

  /** With an empty queue, finishing what the strand is at and two acknowledgements leave nothing under way. */
  lemma {:induction false} Finished(s: System)
    requires Invariant(s) && s.m.id != 0 && s.m.ingress == []
    ensures var t := Step(Step(Step(Step(Step(s, HandOver), EndDrain), Repost), Ack), Ack);
            Line(t) == t.sent && t.m.pending == [] && !t.m.inFlight
  {
    hide Invariant, Line, Step;
    StrandFinishes(s);
    var c := Step(Step(Step(s, HandOver), EndDrain), Repost);
    AckClears(c);
    AckClears(Step(c, Ack));
  }

  lemma {:induction false} RunFinish(s: System)
    ensures Run(s, FINISH) == Step(Step(Step(Step(Step(s, HandOver), EndDrain), Repost), Ack), Ack)
  {
    hide Step;
    assert FINISH[1..] == [EndDrain, Repost, Ack, Ack] && [EndDrain, Repost, Ack, Ack][1..] == [Repost, Ack, Ack];
    assert [Repost, Ack, Ack][1..] == [Ack, Ack] && [Ack, Ack][1..] == [Ack] && |[Ack][1..]| == 0;
    var t: seq<Event> := [Ack];
    assert forall u :: Run(u, t) == Step(u, Ack);
  }

  /**
   While the channel is open nothing that matters gets stuck: from any state of any run, posts, the strand and
   acknowledgements bring everything under way to its end, and the newest packet is the last one that went out.
   */
  lemma {:induction false} NewestGoesOut(s: System) returns (events: seq<Event>)
    requires Invariant(s) && s.m.id != 0
    ensures forall e <- events :: Working(e)
    ensures var t := Run(s, events);
            && t.m.ingress == [] && t.m.pending == [] && !t.m.inFlight && t.offered == s.offered
            && (Line(s) != [] ==>
                  var newest := Line(s)[|Line(s)| - 1];
                  newest < |s.offered| && t.sent != [] && t.sent[|t.sent| - 1] == newest &&
                  |t.wire| == |t.sent| && t.wire[|t.wire| - 1] == s.offered[newest])
  {
    hide Invariant, Line, Step;
    var first := QueueEmpties(s);
    RunNewest(s, first);
    var u := Run(s, first);
    Finished(u);
    RunFinish(u);
    assert forall e <- FINISH :: Working(e);
    RunNewest(u, FINISH);
    RunJoins(s, first, FINISH);
    events := first + FINISH;
    SentNamed(Run(u, FINISH));
    LineBelow(s);
  }

  lemma {:induction false} SentNamed(s: System)
    requires Invariant(s)
    ensures |s.wire| == |s.sent| && Named(s.offered, s.sent, s.wire)
    ensures Line(s) == s.sent ==> |s.queued| == 0 && s.m.ingress == []
  {}

  /** A packet just offered is the newest of the line; of two queued ones the older makes room for it. */
  lemma {:induction false} OfferedIsLast(s: System, audio: Bytes)
    requires audio != []
    ensures var t := Step(s, Offer(audio));
            && Line(t) != [] && Line(t)[|Line(t)| - 1] == |s.offered| && t.offered == s.offered + [audio]
            && t.m.ingress == (if |s.m.ingress| < 2 then s.m.ingress else s.m.ingress[1..]) + [audio]
  {}

  /**
   On an open channel, in any state of any run: a packet that is offered goes out, and is the last one to, when the
   posts, the strand and the acknowledgements do their part.
   */
  lemma {:induction false} OfferedGoesOut(s: System, audio: Bytes) returns (events: seq<Event>)
    requires Invariant(s) && s.m.id != 0 && audio != []
    ensures forall e <- events :: Working(e)
    ensures Step(s, Offer(audio)).m.ingress ==
            (if |s.m.ingress| < 2 then s.m.ingress else s.m.ingress[1..]) + [audio]
    ensures var t := Run(Step(s, Offer(audio)), events);
            t.wire != [] && t.wire[|t.wire| - 1] == audio && t.m.ingress == [] && t.m.pending == [] && !t.m.inFlight
  {
    hide Invariant, Line, Named, Increasing;
    OfferKeeps(s, audio);
    OfferedIsLast(s, audio);
    events := NewestGoesOut(Step(s, Offer(audio)));
  }
}

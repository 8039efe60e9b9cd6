/** The sender's window: what stays outstanding, what an acknowledgement removes, what a tick resends. */
module LinkWindow {
  import opened ByteStrings
  import opened LinkCodec
  import opened LinkMachine

  // ----- Acknowledgement arithmetic -----

  /**
   For unbounded message numbers reduced to 8 bits: the wrapped comparison agrees with the true
   one exactly while the two numbers lie in a window of 256, 128 behind to 127 ahead, give or take whole windows.
   */
  lemma {:induction false} AcknowledgedExact(message: int, acknowledged: int)
    ensures -128 <= acknowledged - message <= 127 ==>
              (AcknowledgedBy(message % 256, acknowledged % 256) <==> message <= acknowledged)
    ensures -256 <= acknowledged - message < -128 || 128 <= acknowledged - message < 256 ==>
              (AcknowledgedBy(message % 256, acknowledged % 256) <==> message > acknowledged)
  {
    var d := acknowledged - message;
    assert Ahead(acknowledged % 256, message % 256) == d % 256;
  }

  /** The outstanding messages carry the latest consecutive sequence numbers, the last one `sent`. */
  ghost predicate Block(pending: seq<Pending>, sent: Byte) {
    forall j :: 0 <= j < |pending| ==> Ahead(sent, pending[j].sequence) == |pending| - 1 - j
  }

  function Min(a: nat, b: nat): nat { if a < b then a else b }

  /** What is left of a block when the peer acknowledges the number `d` steps behind the latest one. */
  function Remaining(pending: seq<Pending>, d: nat): seq<Pending> {
    var m := |pending|;
    if d <= 128 then pending[m - Min(d, m)..] else pending[..m - Min(d - 128, m)]
  }

  lemma {:induction false} BlockTail(pending: seq<Pending>, sent: Byte)
    requires Block(pending, sent) && pending != []
    ensures Block(pending[1..], sent) && Ahead(sent, pending[0].sequence) == |pending| - 1
  {}

  lemma {:induction false} HeadAcknowledged(sequence: Byte, sent: Byte, acknowledgement: Byte, m: nat)
    requires 1 <= m <= 128 && Ahead(sent, sequence) == m - 1
    ensures var d := Ahead(sent, acknowledgement);
            AcknowledgedBy(sequence, acknowledgement) <==> if d <= 128 then d < m else d >= m + 128
  {}

  lemma {:induction false} RemainingHead(pending: seq<Pending>, d: nat)
    requires pending != [] && |pending| <= 128
    ensures var m := |pending|;
            Remaining(pending, d) ==
            (if (if d <= 128 then d < m else d >= m + 128) then [] else [pending[0]]) + Remaining(pending[1..], d)
  {}

  /** For a number at most 128 behind, the oldest messages go; for any other, the newest ones do. */
  lemma {:induction false} AcknowledgeBlock(pending: seq<Pending>, sent: Byte, acknowledgement: Byte)
    requires Block(pending, sent) && |pending| <= 128
    ensures Unacknowledged(pending, acknowledgement) == Remaining(pending, Ahead(sent, acknowledgement))
    decreases |pending|
  {
    hide Block, Remaining, AcknowledgedBy, Ahead;
    if pending != [] {
      BlockTail(pending, sent);
      AcknowledgeBlock(pending[1..], sent, acknowledgement);
      HeadAcknowledged(pending[0].sequence, sent, acknowledgement, |pending|);
      RemainingHead(pending, Ahead(sent, acknowledgement));
    } else {
      RemainingNone(Ahead(sent, acknowledgement));
    }
  }

  lemma {:induction false} RemainingNone(d: nat)
    ensures Remaining([], d) == []
  {}

  /**
   The window stays the block of latest numbers exactly when the acknowledgement names one of the
   last 128 numbers (or the one before them), or one so far off that it wipes out every message.
   */
  lemma {:induction false} AcknowledgeKeepsBlock(pending: seq<Pending>, sent: Byte, acknowledgement: Byte)
    requires Block(pending, sent) && |pending| <= 128
    ensures var d := Ahead(sent, acknowledgement);
            Block(Unacknowledged(pending, acknowledgement), sent) <==> d <= 128 || |pending| <= d - 128
  {
    AcknowledgeBlock(pending, sent, acknowledgement);
    RemainingBlock(pending, sent, Ahead(sent, acknowledgement));
  }

  lemma {:induction false} RemainingBlock(pending: seq<Pending>, sent: Byte, d: nat)
    requires Block(pending, sent) && |pending| <= 128
    ensures Block(Remaining(pending, d), sent) <==> d <= 128 || |pending| <= d - 128
  {
    var left := Remaining(pending, d);
    if d <= 128 {
      forall j | 0 <= j < |left|
        ensures Ahead(sent, left[j].sequence) == |left| - 1 - j
      {
        assert left[j] == pending[|pending| - |left| + j];
      }
    } else if |pending| > d - 128 {
      assert left[|left| - 1] == pending[|left| - 1];
    }
  }

  // ----- Invariant of every run, whatever the peer sends -----

  ghost predicate WithinLimits(s: Link) {
    && (s.phase == Detect || s.phase == Negotiate ==> s.pending == [])
    && (s.phase != Dead ==> 1 <= s.lsp.maxOutgoing <= 128 && |s.pending| <= s.lsp.maxOutgoing)
    && (s.phase != Dead ==> forall m <- s.pending :: m.retries <= s.lsp.maxRetransmissions)
  }

  datatype Operation =
    | StartAt(now: int)
    | TickAt(now: int)
    | SendAt(now: int, payload: Bytes)
    | ReceiveAt(now: int, bytes: Bytes)

  function Apply(s: Link, tx: Transport, op: Operation): Link {
    match op
    case StartAt(now) => Start(s, tx, now)
    case TickAt(now) => Tick(s, tx, now)
    case SendAt(now, payload) => SendControl(s, tx, now, payload).0
    case ReceiveAt(now, bytes) => Receive(s, tx, now, bytes)
  }

  function ApplyAll(s: Link, tx: Transport, ops: seq<Operation>): Link
    decreases |ops|
  {
    if |ops| == 0 then s else ApplyAll(Apply(s, tx, ops[0]), tx, ops[1..])
  }

  lemma {:induction false} UnacknowledgedSubset(pending: seq<Pending>, acknowledgement: Byte)
    ensures forall m <- Unacknowledged(pending, acknowledgement) :: m in pending
  {
    if pending != [] {
      UnacknowledgedSubset(pending[1..], acknowledgement);
    }
  }

  lemma {:induction false} SynWithinLimits(s: Link, tx: Transport, now: int, acknowledgePeer: bool)
    requires WithinLimits(s)
    ensures var t := SendSyn(s, tx, now, acknowledgePeer);
            WithinLimits(t) && (s.phase == Dead ==> t.phase == Dead)
  {
    if s.phase == Negotiate {
      var t := WithSyn(s);
    }
  }

  lemma {:induction false} HandleSynWithinLimits(s: Link, tx: Transport, now: int, h: Header, payload: Bytes)
    requires WithinLimits(s)
    ensures var t := HandleSyn(s, tx, now, h, payload);
            WithinLimits(t) && (s.phase == Dead ==> t.phase == Dead)
  {
    if s.phase == Normal {
    } else if DecodeLsp(payload).Some? {
      var lsp := Clamped(DecodeLsp(payload).value);
      SynWithinLimits(s.(lsp := lsp, controlSession := ControlSessionOf(lsp.sessions, s.controlSession),
                         lastValid := true, last := h.sequence), tx, now, true);
    }
  }

  lemma {:induction false} HandleDataWithinLimits(s: Link, tx: Transport, h: Header, payload: Bytes)
    requires WithinLimits(s)
    ensures var t := HandleData(s, tx, h, payload);
            WithinLimits(t) && (s.phase == Dead ==> t.phase == Dead)
  {
    if s.phase == Normal {
      var t := s.(lastValid := true, last := h.sequence,
                  delivered := if h.sessionId == s.controlSession then s.delivered + [payload] else s.delivered);
    }
  }

  lemma {:induction false} HandleWithinLimits(s: Link, tx: Transport, now: int, h: Header, payload: Bytes)
    requires WithinLimits(s)
    ensures WithinLimits(Handle(s, tx, now, h, payload))
    ensures s.phase == Dead ==> Handle(s, tx, now, h, payload).phase == Dead
  {
    UnacknowledgedSubset(s.pending, h.acknowledgement);
    if !HasRst(h.control) {
      var t := if HasAck(h.control) then s.(pending := Unacknowledged(s.pending, h.acknowledgement)) else s;
      HandleSynWithinLimits(t, tx, now, h, payload);
      HandleDataWithinLimits(t, tx, h, payload);
    }
  }

  lemma {:induction false} ProcessWithinLimits(s: Link, tx: Transport, now: int)
    requires WithinLimits(s)
    ensures WithinLimits(Process(s, tx, now))
    ensures s.phase == Dead ==> Process(s, tx, now).phase == Dead
    decreases |s.buffer|, 1
  {
    if |s.buffer| >= 9 {
      var start := SyncIndex(s.buffer);
      if start == |s.buffer| - 1 {
      } else if s.buffer[start + 1] != 0x5a {
        ProcessWithinLimits(s.(buffer := s.buffer[start + 1..]), tx, now);
      } else if |s.buffer| - start >= 9 {
        ProcessAtWithinLimits(s.(buffer := s.buffer[start..]), tx, now);
      }
    }
  }

  lemma {:induction false} ProcessAtWithinLimits(s: Link, tx: Transport, now: int)
    requires WithinLimits(s) && |s.buffer| >= 9
    ensures WithinLimits(ProcessAt(s, tx, now))
    ensures s.phase == Dead ==> ProcessAt(s, tx, now).phase == Dead
    decreases |s.buffer|, 0
  {
    match DecodeHeader(s.buffer[..9])
    case None => ProcessWithinLimits(s.(buffer := s.buffer[1..]), tx, now);
    case Some(h) =>
      if h.length <= s.lsp.maxLen && h.length <= |s.buffer| {
        var body, rest := s.buffer[9..h.length], s.(buffer := s.buffer[h.length..]);
        if body != [] && !ValidChecksum(body) {
          ProcessWithinLimits(rest, tx, now);
        } else {
          HandleWithinLimits(rest, tx, now, h, PayloadOf(body));
          ProcessWithinLimits(Handle(rest, tx, now, h, PayloadOf(body)), tx, now);
        }
      }
  }

  lemma {:induction false} ResendWithinLimits(s: Link, tx: Transport, now: int, i: nat)
    requires i <= |s.pending| && WithinLimits(s)
    ensures WithinLimits(Resend(s, tx, now, i))
    ensures s.phase == Dead ==> Resend(s, tx, now, i).phase == Dead
    decreases |s.pending| - i
  {
    if i < |s.pending| {
      var m := s.pending[i];
      if now < m.deadline {
        ResendWithinLimits(s, tx, now, i + 1);
      } else if m.retries < s.lsp.maxRetransmissions {
        var again := m.(retries := m.retries + 1, deadline := Deadline(s, now));
        var t := Put(s, m.frame).(pending := s.pending[i := again]);
        ResendWithinLimits(t, tx, now, i + 1);
      }
    }
  }

  lemma {:induction false} TickWithinLimits(s: Link, tx: Transport, now: int)
    requires WithinLimits(s)
    ensures WithinLimits(Tick(s, tx, now)) && (s.phase == Dead ==> Tick(s, tx, now).phase == Dead)
  {
    if s.phase != Dead {
      var a := if s.phase == Detect && now >= s.nextMarker then SendMarker(s, tx) else s;
      if a.phase != Dead {
        var b := if s.phase == Detect && now >= s.nextMarker then a.(nextMarker := now + MARKER_INTERVAL) else a;
        var c := if b.phase == Negotiate && now >= b.nextSyn then SendSyn(b, tx, now, false) else b;
        SynWithinLimits(b, tx, now, false);
        ResendWithinLimits(c, tx, now, 0);
      }
    }
  }

  lemma {:induction false} ReceiveWithinLimits(s: Link, tx: Transport, now: int, bytes: Bytes)
    requires WithinLimits(s)
    ensures WithinLimits(Receive(s, tx, now, bytes)) && (s.phase == Dead ==> Receive(s, tx, now, bytes).phase == Dead)
  {
    hide Process, SendSyn, Find;
    var t := s.(buffer := s.buffer + bytes);
    if t.phase != Detect {
      ProcessWithinLimits(t, tx, now);
    } else if Find(MARKER, t.buffer).Some? {
      var n := t.(buffer := t.buffer[Find(MARKER, t.buffer).value + 6..], phase := Negotiate);
      SynWithinLimits(n, tx, now, false);
      ProcessWithinLimits(SendSyn(n, tx, now, false), tx, now);
    }
  }

  lemma {:induction false} StartWithinLimits(s: Link, tx: Transport, now: int)
    requires WithinLimits(s)
    ensures WithinLimits(Start(s, tx, now)) && (s.phase == Dead ==> Start(s, tx, now).phase == Dead)
  {
    if s.phase == Detect {
      SynWithinLimits(SendMarker(s, tx).(phase := Negotiate), tx, now, false);
    }
  }

  lemma {:induction false} SendWithinLimits(s: Link, tx: Transport, now: int, payload: Bytes)
    requires WithinLimits(s)
    ensures var t := SendControl(s, tx, now, payload).0;
            WithinLimits(t) && (s.phase == Dead ==> t.phase == Dead)
  {}

  /** Any bytes, any timing, any transport: the limits hold for ever, and a dead link stays dead. */
  lemma {:induction false} RunWithinLimits(s: Link, tx: Transport, ops: seq<Operation>)
    requires WithinLimits(s)
    ensures WithinLimits(ApplyAll(s, tx, ops))
    ensures s.phase == Dead ==> ApplyAll(s, tx, ops).phase == Dead
    decreases |ops|
  {
    if |ops| > 0 {
      match ops[0] {
        case StartAt(now) => StartWithinLimits(s, tx, now);
        case TickAt(now) => TickWithinLimits(s, tx, now);
        case SendAt(now, payload) => SendWithinLimits(s, tx, now, payload);
        case ReceiveAt(now, bytes) => ReceiveWithinLimits(s, tx, now, bytes);
      }
      RunWithinLimits(Apply(s, tx, ops[0]), tx, ops[1..]);
    }
  }

  /** The limits in every state a new link can get into. */
  lemma {:induction false} NewLinkWithinLimits(tx: Transport, ops: seq<Operation>)
    ensures var s := ApplyAll(INITIAL, tx, ops);
            && (s.phase != Dead ==> |s.pending| <= s.lsp.maxOutgoing <= 128 && 1 <= s.lsp.maxOutgoing)
            && (s.phase != Dead ==> forall m <- s.pending :: m.retries <= s.lsp.maxRetransmissions)
            && (s.pending != [] ==> s.phase in {Normal, Dead})
  {
    RunWithinLimits(INITIAL, tx, ops);
  }

  // ----- The window over a whole run -----

  /**
   An acknowledgement that keeps the window a block: one of the last 128 numbers, or so far off that it empties it.
   */
  ghost predicate InWindow(s: Link, h: Header) {
    HasAck(h.control) && !HasRst(h.control) ==>
      var d := Ahead(s.sent, h.acknowledgement); d <= 128 || |s.pending| <= d - 128
  }

  /** Every packet that the loop handles is in the window at that moment. */
  ghost predicate LoopInWindow(s: Link, tx: Transport, now: int)
    decreases |s.buffer|, 1
  {
    |s.buffer| >= 9 ==>
      var start := SyncIndex(s.buffer);
      start != |s.buffer| - 1 ==>
        if s.buffer[start + 1] != 0x5a then LoopInWindow(s.(buffer := s.buffer[start + 1..]), tx, now)
        else |s.buffer| - start >= 9 ==> PacketInWindow(s.(buffer := s.buffer[start..]), tx, now)
  }

  ghost predicate PacketInWindow(s: Link, tx: Transport, now: int)
    requires |s.buffer| >= 9
    decreases |s.buffer|, 0
  {
    match DecodeHeader(s.buffer[..9])
    case None => LoopInWindow(s.(buffer := s.buffer[1..]), tx, now)
    case Some(h) =>
      h.length <= s.lsp.maxLen && h.length <= |s.buffer| ==>
        var body, rest := s.buffer[9..h.length], s.(buffer := s.buffer[h.length..]);
        if body != [] && !ValidChecksum(body) then LoopInWindow(rest, tx, now)
        else InWindow(rest, h) && LoopInWindow(Handle(rest, tx, now, h, PayloadOf(body)), tx, now)
  }

  ghost predicate ReadInWindow(s: Link, tx: Transport, now: int, bytes: Bytes) {
    var t := s.(buffer := s.buffer + bytes);
    if |s.buffer| > MAX_RECEIVE_BUFFER || |bytes| > MAX_RECEIVE_BUFFER - |s.buffer| then true
    else if t.phase != Detect then LoopInWindow(t, tx, now)
    else match Find(MARKER, t.buffer)
      case None => true
      case Some(i) =>
        LoopInWindow(SendSyn(t.(buffer := t.buffer[i + 6..], phase := Negotiate), tx, now, false), tx, now)
  }

  ghost predicate RunInWindow(s: Link, tx: Transport, ops: seq<Operation>)
    decreases |ops|
  {
    |ops| == 0 ||
    ((ops[0].ReceiveAt? ==> ReadInWindow(s, tx, ops[0].now, ops[0].bytes)) &&
        RunInWindow(Apply(s, tx, ops[0]), tx, ops[1..]))
  }

  /** An established link has the latest numbers outstanding, in order. */
  ghost predicate Ordered(s: Link) { WithinLimits(s) && (s.phase == Normal ==> Block(s.pending, s.sent)) }

  lemma {:induction false} HandleOrdered(s: Link, tx: Transport, now: int, h: Header, payload: Bytes)
    requires Ordered(s) && InWindow(s, h)
    ensures Ordered(Handle(s, tx, now, h, payload))
  {
    hide Block, WithinLimits, HandleSyn, HandleData, Unacknowledged;
    HandleWithinLimits(s, tx, now, h, payload);
    NormalWindow(s);
    if !HasRst(h.control) {
      if HasAck(h.control) && s.phase == Normal {
        AcknowledgeKeepsBlock(s.pending, s.sent, h.acknowledgement);
      }
      var t := if HasAck(h.control) then s.(pending := Unacknowledged(s.pending, h.acknowledgement)) else s;
      SynKeepsWindow(t, tx, now, h, payload);
      DataKeepsWindow(t, tx, h, payload);
      if s.phase != Normal {
        NothingOutstanding(s, h.acknowledgement);
        EmptyBlock(s.sent);
      }
    }
  }

  /** Until it is established, a link has nothing outstanding. */
  lemma {:induction false} NothingOutstanding(s: Link, acknowledgement: Byte)
    requires WithinLimits(s) && s.phase != Normal
    ensures s.phase == Dead || (s.pending == [] && Unacknowledged(s.pending, acknowledgement) == [])
  {}

  lemma {:induction false} EmptyBlock(sent: Byte)
    ensures Block([], sent)
  {}

  lemma {:induction false} NormalWindow(s: Link)
    requires WithinLimits(s)
    ensures s.phase == Normal ==> |s.pending| <= 128
  {}

  lemma {:induction false} SynKeepsWindow(s: Link, tx: Transport, now: int, h: Header, payload: Bytes)
    ensures var t := HandleSyn(s, tx, now, h, payload);
            (t.phase == s.phase || t.phase == Dead) && t.pending == s.pending &&
                (s.phase == Normal ==> t.sent == s.sent)
  {}

  lemma {:induction false} DataKeepsWindow(s: Link, tx: Transport, h: Header, payload: Bytes)
    ensures var t := HandleData(s, tx, h, payload);
            (t.phase == s.phase || t.phase == Dead) && t.pending == s.pending && t.sent == s.sent
  {}

  lemma {:induction false} OrderedBuffer(s: Link, buffer: Bytes)
    requires Ordered(s)
    ensures Ordered(s.(buffer := buffer))
  {}

  lemma {:induction false} LoopOrdered(s: Link, tx: Transport, now: int)
    requires Ordered(s) && LoopInWindow(s, tx, now)
    ensures Ordered(Process(s, tx, now))
    decreases |s.buffer|, 1
  {
    hide Ordered, PacketInWindow, ProcessAt;
    if |s.buffer| >= 9 {
      var start := SyncIndex(s.buffer);
      OrderedBuffer(s, s.buffer[start..]);
      if start == |s.buffer| - 1 {
      } else if s.buffer[start + 1] != 0x5a {
        OrderedBuffer(s, s.buffer[start + 1..]);
        LoopOrdered(s.(buffer := s.buffer[start + 1..]), tx, now);
      } else if |s.buffer| - start >= 9 {
        PacketOrdered(s.(buffer := s.buffer[start..]), tx, now);
      }
    }
  }

  lemma {:induction false} PacketOrdered(s: Link, tx: Transport, now: int)
    requires |s.buffer| >= 9 && Ordered(s) && PacketInWindow(s, tx, now)
    ensures Ordered(ProcessAt(s, tx, now))
    decreases |s.buffer|, 0
  {
    hide Ordered, Process, LoopInWindow, Handle, InWindow;
    match DecodeHeader(s.buffer[..9])
    case None =>
      OrderedBuffer(s, s.buffer[1..]);
      LoopOrdered(s.(buffer := s.buffer[1..]), tx, now);
    case Some(h) =>
      if h.length > s.lsp.maxLen {
        DeadOrdered(s);
      } else if h.length <= |s.buffer| {
        var body, rest := s.buffer[9..h.length], s.(buffer := s.buffer[h.length..]);
        OrderedBuffer(s, s.buffer[h.length..]);
        if body != [] && !ValidChecksum(body) {
          LoopOrdered(rest, tx, now);
        } else {
          HandleOrdered(rest, tx, now, h, PayloadOf(body));
          LoopOrdered(Handle(rest, tx, now, h, PayloadOf(body)), tx, now);
        }
      }
  }

  lemma {:induction false} DeadOrdered(s: Link)
    ensures Ordered(s.(phase := Dead, buffer := []))
  {}

  lemma {:induction false} SynOrdered(s: Link, tx: Transport, now: int, acknowledgePeer: bool)
    requires Ordered(s)
    ensures Ordered(SendSyn(s, tx, now, acknowledgePeer))
  {
    SynWithinLimits(s, tx, now, acknowledgePeer);
  }

  lemma {:induction false} ReceiveOrdered(s: Link, tx: Transport, now: int, bytes: Bytes)
    requires Ordered(s) && ReadInWindow(s, tx, now, bytes)
    ensures Ordered(Receive(s, tx, now, bytes))
  {
    hide Process, SendSyn, Find, LoopInWindow, Block;
    DeadOrdered(s);
    var t := s.(buffer := s.buffer + bytes);
    if |s.buffer| > MAX_RECEIVE_BUFFER || |bytes| > MAX_RECEIVE_BUFFER - |s.buffer| {
    } else if t.phase != Detect {
      LoopOrdered(t, tx, now);
    } else if Find(MARKER, t.buffer).Some? {
      var n := t.(buffer := t.buffer[Find(MARKER, t.buffer).value + 6..], phase := Negotiate);
      SynOrdered(n, tx, now, false);
      LoopOrdered(SendSyn(n, tx, now, false), tx, now);
    }
  }

  lemma {:induction false} NextAhead(sent: Byte, n: Byte)
    requires Ahead(sent, n) < 255
    ensures Ahead(Next(sent), n) == Ahead(sent, n) + 1 && Ahead(sent, sent) == 0
  {}

  lemma {:induction false} SendOrdered(s: Link, tx: Transport, now: int, payload: Bytes)
    requires Ordered(s)
    ensures Ordered(SendControl(s, tx, now, payload).0)
  {
    hide EncodePacket;
    SendWithinLimits(s, tx, now, payload);
    var t := SendControl(s, tx, now, payload).0;
    if t.phase == Normal && t != s {
      NormalWindow(s);
      forall j | 0 <= j < |t.pending|
        ensures Ahead(t.sent, t.pending[j].sequence) == |t.pending| - 1 - j
      {
        if j < |s.pending| {
          assert t.pending[j] == s.pending[j];
          NextAhead(s.sent, s.pending[j].sequence);
        }
      }
    }
  }

  /** A retransmission pass keeps the numbers. */
  lemma {:induction false} ResendOrdered(s: Link, tx: Transport, now: int)
    requires Ordered(s)
    ensures Ordered(Resend(s, tx, now, 0))
  {
    hide Resend, RetriesLeft, TakesNext, Expired;
    ResendWithinLimits(s, tx, now, 0);
    if s.phase == Normal {
      ResendEffect(s, tx, now, 0);
    } else if s.phase != Dead {
      assert s.pending == [];
      ResendTurn(s, tx, now, 0);
    }
  }

  lemma {:induction false} TickOrdered(s: Link, tx: Transport, now: int)
    requires Ordered(s)
    ensures Ordered(Tick(s, tx, now))
  {
    hide Resend, SendSyn;
    if s.phase != Dead {
      var a := if s.phase == Detect && now >= s.nextMarker then SendMarker(s, tx) else s;
      if a.phase != Dead {
        var b := if s.phase == Detect && now >= s.nextMarker then a.(nextMarker := now + MARKER_INTERVAL) else a;
        SynOrdered(b, tx, now, false);
        ResendOrdered(if b.phase == Negotiate && now >= b.nextSyn then SendSyn(b, tx, now, false) else b, tx, now);
      }
    }
  }

  lemma {:induction false} StartOrdered(s: Link, tx: Transport, now: int)
    requires Ordered(s)
    ensures Ordered(Start(s, tx, now))
  {
    if s.phase == Detect {
      SynOrdered(SendMarker(s, tx).(phase := Negotiate), tx, now, false);
    }
  }

  lemma {:induction false} RunOrdered(s: Link, tx: Transport, ops: seq<Operation>)
    requires Ordered(s) && RunInWindow(s, tx, ops)
    ensures Ordered(ApplyAll(s, tx, ops))
    decreases |ops|
  {
    hide Ordered, Receive, Tick, SendControl, Start, ReadInWindow;
    if |ops| > 0 {
      match ops[0] {
        case StartAt(now) => StartOrdered(s, tx, now);
        case TickAt(now) => TickOrdered(s, tx, now);
        case SendAt(now, payload) => SendOrdered(s, tx, now, payload);
        case ReceiveAt(now, bytes) => ReceiveOrdered(s, tx, now, bytes);
      }
      RunOrdered(Apply(s, tx, ops[0]), tx, ops[1..]);
    }
  }

  /**
   From a new link on, through the handshake and with any peer: as long as the acknowledgements handled are in the
   window, the outstanding messages of an established link are those with the latest consecutive numbers.
   */
  lemma {:induction false} WindowIsBlock(tx: Transport, ops: seq<Operation>)
    requires RunInWindow(INITIAL, tx, ops)
    ensures var s := ApplyAll(INITIAL, tx, ops);
            s.phase == Normal ==> |s.pending| <= 128 && Block(s.pending, s.sent)
  {
    RunOrdered(INITIAL, tx, ops);
    NormalWindow(ApplyAll(INITIAL, tx, ops));
  }

  // ----- Retransmission -----

  /** The frames whose deadline has passed, oldest first. */
  function Expired(pending: seq<Pending>, now: int): seq<Bytes> {
    if pending == [] then [] else
      (if now < pending[0].deadline then [] else [pending[0].frame]) + Expired(pending[1..], now)
  }

  /** No expired message has used up its retries. */
  ghost predicate RetriesLeft(s: Link, now: int, i: nat) {
    forall j :: i <= j < |s.pending| && s.pending[j].deadline <= now ==> s.pending[j].retries < s.lsp.maxRetransmissions
  }

  /** The transport takes the next `count` frames. */
  ghost predicate TakesNext(s: Link, tx: Transport, count: nat) {
    forall k :: |s.attempts| <= k < |s.attempts| + count ==> tx(k)
  }

  /**
   From the i-th message on, every expired message is charged a retry and gets a new deadline; nothing else changes.
   */
  ghost predicate ChargedFrom(s: Link, after: seq<Pending>, now: int, i: nat) {
    && |after| == |s.pending|
    && forall j :: 0 <= j < |s.pending| ==>
         after[j] == if j < i || now < s.pending[j].deadline then s.pending[j]
                     else s.pending[j].(retries := s.pending[j].retries + 1, deadline := Deadline(s, now))
  }

  /** The link after the i-th message has been sent once more. */
  function Again(s: Link, now: int, i: nat): (t: Link)
    requires i < |s.pending|
    ensures |t.pending| == |s.pending|
  {
    var m := s.pending[i];
    Put(s, m.frame).(pending := s.pending[i := m.(retries := m.retries + 1, deadline := Deadline(s, now))])
  }

  lemma {:induction false} ResendTurn(s: Link, tx: Transport, now: int, i: nat)
    requires i <= |s.pending|
    ensures Resend(s, tx, now, i) ==
            if i == |s.pending| then s
            else if now < s.pending[i].deadline then Resend(s, tx, now, i + 1)
            else if s.pending[i].retries >= s.lsp.maxRetransmissions then Kill(s)
            else if tx(|s.attempts|) then Resend(Again(s, now, i), tx, now, i + 1) else Kill(Again(s, now, i))
  {}

  lemma {:induction false} ExpiredTurn(pending: seq<Pending>, now: int, i: nat)
    requires i < |pending|
    ensures Expired(pending[i..], now) ==
            (if now < pending[i].deadline then [] else [pending[i].frame]) + Expired(pending[i + 1..], now)
  {
    assert pending[i..][1..] == pending[i + 1..];
  }

  lemma {:induction false} RetriesTurn(s: Link, now: int, i: nat)
    requires i < |s.pending|
    ensures RetriesLeft(s, now, i) <==>
            (s.pending[i].deadline <= now ==> s.pending[i].retries < s.lsp.maxRetransmissions) &&
                RetriesLeft(s, now, i + 1)
    ensures RetriesLeft(Again(s, now, i), now, i + 1) <==> RetriesLeft(s, now, i + 1)
  {
    var t := Again(s, now, i);
    assert forall j :: i + 1 <= j < |s.pending| ==> t.pending[j] == s.pending[j];
  }

  lemma {:induction false} TakesTurn(s: Link, tx: Transport, now: int, i: nat, count: nat)
    requires i < |s.pending|
    ensures TakesNext(s, tx, 1 + count) <==> tx(|s.attempts|) && TakesNext(Again(s, now, i), tx, count)
  {}

  lemma {:induction false} ChargedTurn(s: Link, after: seq<Pending>, now: int, i: nat)
    requires i < |s.pending|
    ensures now < s.pending[i].deadline && ChargedFrom(s, after, now, i + 1) ==> ChargedFrom(s, after, now, i)
    ensures s.pending[i].deadline <= now && ChargedFrom(Again(s, now, i), after, now, i + 1) ==>
            ChargedFrom(s, after, now, i)
  {}

  lemma {:induction false} AgainKeeps(s: Link, now: int, i: nat, rest: seq<Bytes>)
    requires i < |s.pending|
    ensures var t := Again(s, now, i);
            t.pending[i + 1..] == s.pending[i + 1..] && t.attempts + rest == s.attempts + ([s.pending[i].frame] + rest)
    ensures Again(s, now, i).phase == s.phase
    ensures forall p, a {:trigger s.(pending := p, attempts := a)} ::
              Again(s, now, i).(pending := p, attempts := a) == s.(pending := p, attempts := a)
  {}

  lemma {:induction false} NothingDue(s: Link, tx: Transport, now: int)
    ensures RetriesLeft(s, now, |s.pending|) && TakesNext(s, tx, 0) && ChargedFrom(s, s.pending, now, |s.pending|)
    ensures Expired(s.pending[|s.pending|..], now) == [] && s.attempts + [] == s.attempts
  {}

  /**
   The retransmission pass leaves the link alive exactly when no expired message is out of retries
   and the transport takes them all. It then has sent exactly the expired frames, byte for byte and
   in order, charged one retry to each, and touched nothing else.
   */
  lemma {:induction false} ResendEffect(s: Link, tx: Transport, now: int, i: nat)
    requires i <= |s.pending| && s.phase != Dead
    ensures var t := Resend(s, tx, now, i);
            && (t.phase != Dead <==> RetriesLeft(s, now, i) && TakesNext(s, tx, |Expired(s.pending[i..], now)|))
            && (t.phase == Dead ==> t.pending == [])
            && (t.phase != Dead ==>
                  && t == s.(pending := t.pending, attempts := s.attempts + Expired(s.pending[i..], now))
                  && ChargedFrom(s, t.pending, now, i))
    decreases |s.pending| - i
  {
    hide Resend, Again, RetriesLeft, TakesNext, ChargedFrom, Expired;
    ResendTurn(s, tx, now, i);
    if i == |s.pending| {
      NothingDue(s, tx, now);
    } else {
      ExpiredTurn(s.pending, now, i);
      RetriesTurn(s, now, i);
      ChargedTurn(s, Resend(s, tx, now, i).pending, now, i);
      if now < s.pending[i].deadline {
        ResendEffect(s, tx, now, i + 1);
      } else if s.pending[i].retries < s.lsp.maxRetransmissions {
        var more := Expired(s.pending[i + 1..], now);
        AgainKeeps(s, now, i, more);
        TakesTurn(s, tx, now, i, |more|);
        ResendEffect(Again(s, now, i), tx, now, i + 1);
      }
    }
  }

  // ----- A silent peer -----

  /** No read takes the oldest message off the window. */
  ghost predicate NoAcknowledgement(s: Link, tx: Transport, ops: seq<Operation>)
    decreases |ops|
  {
    |ops| == 0 ||
    (var t := Apply(s, tx, ops[0]);
     (ops[0].ReceiveAt? && s.pending != [] && t.phase != Dead ==> t.pending != [] && t.pending[0] == s.pending[0]) &&
     NoAcknowledgement(t, tx, ops[1..]))
  }

  /** The times of the ticks. */
  function TickTimes(ops: seq<Operation>): seq<int> {
    if |ops| == 0 then [] else (if ops[0].TickAt? then [ops[0].now] else []) + TickTimes(ops[1..])
  }

  /** How many of the times find a message due that is put off by `timeout` each time. */
  function DueTimes(times: seq<int>, deadline: int, timeout: int): nat {
    if |times| == 0 then 0
    else if times[0] < deadline then DueTimes(times[1..], deadline, timeout)
    else 1 + DueTimes(times[1..], times[0] + timeout, timeout)
  }

  lemma {:induction false} DeadStays(s: Link, tx: Transport, ops: seq<Operation>)
    requires s.phase == Dead
    ensures ApplyAll(s, tx, ops).phase == Dead
    decreases |ops|
  {
    hide Process, Find, SendSyn;
    if |ops| > 0 {
      DeadStays(Apply(s, tx, ops[0]), tx, ops[1..]);
    }
  }

  lemma {:induction false} HandleEstablished(s: Link, tx: Transport, now: int, h: Header, payload: Bytes)
    requires s.phase in {Normal, Dead}
    ensures var t := Handle(s, tx, now, h, payload);
            t.phase == Dead || (t.phase == Normal && s.phase == Normal && t.lsp == s.lsp)
  {}

  /** An established link stays so, with the parameters agreed, until it dies. */
  lemma {:induction false} LoopEstablished(s: Link, tx: Transport, now: int)
    requires s.phase in {Normal, Dead}
    ensures var t := Process(s, tx, now);
            t.phase == Dead || (t.phase == Normal && s.phase == Normal && t.lsp == s.lsp)
    decreases |s.buffer|, 1
  {
    hide ProcessAt;
    if |s.buffer| >= 9 {
      var start := SyncIndex(s.buffer);
      if start == |s.buffer| - 1 {
      } else if s.buffer[start + 1] != 0x5a {
        LoopEstablished(s.(buffer := s.buffer[start + 1..]), tx, now);
      } else if |s.buffer| - start >= 9 {
        PacketEstablished(s.(buffer := s.buffer[start..]), tx, now);
      }
    }
  }

  lemma {:induction false} PacketEstablished(s: Link, tx: Transport, now: int)
    requires s.phase in {Normal, Dead} && |s.buffer| >= 9
    ensures var t := ProcessAt(s, tx, now);
            t.phase == Dead || (t.phase == Normal && s.phase == Normal && t.lsp == s.lsp)
    decreases |s.buffer|, 0
  {
    hide Process, Handle;
    match DecodeHeader(s.buffer[..9])
    case None => LoopEstablished(s.(buffer := s.buffer[1..]), tx, now);
    case Some(h) =>
      if h.length <= s.lsp.maxLen && h.length <= |s.buffer| {
        var body, rest := s.buffer[9..h.length], s.(buffer := s.buffer[h.length..]);
        if body != [] && !ValidChecksum(body) {
          LoopEstablished(rest, tx, now);
        } else {
          HandleEstablished(rest, tx, now, h, PayloadOf(body));
          LoopEstablished(Handle(rest, tx, now, h, PayloadOf(body)), tx, now);
        }
      }
  }

  /** What an operation other than a tick does to the oldest message: nothing, unless an acknowledgement takes it. */
  lemma {:induction false} OldestStays(s: Link, tx: Transport, op: Operation)
    requires s.phase == Normal && s.pending != [] && !op.TickAt?
    ensures var t := Apply(s, tx, op);
            t.phase == Dead ||
            (t.phase == Normal && t.lsp == s.lsp &&
                (!op.ReceiveAt? ==> t.pending != [] && t.pending[0] == s.pending[0]))
  {
    hide Process, Find, EncodePacket;
    if op.ReceiveAt? {
      LoopEstablished(s.(buffer := s.buffer + op.bytes), tx, op.now);
    }
  }

  /** A tick charges the oldest message a retry if it is due. */
  lemma {:induction false} OldestResent(s: Link, tx: Transport, now: int)
    requires s.phase == Normal && s.pending != []
    ensures var t := Tick(s, tx, now);
            t.phase == Dead ||
            (t.phase == Normal && t.lsp == s.lsp && t.pending != [] &&
             if now < s.pending[0].deadline then t.pending[0] == s.pending[0]
             else s.pending[0].retries < s.lsp.maxRetransmissions &&
                  t.pending[0].retries == s.pending[0].retries + 1 && t.pending[0].deadline == Deadline(s, now))
  {
    hide Resend, TakesNext, Expired;
    ResendEffect(s, tx, now, 0);
  }

  /**
   A peer that stops acknowledging cannot hang the link, whatever else is sent and read in the meantime: once the ticks
   that find the oldest message due outnumber the retries left to it, the link is dead.
   */
  lemma {:induction false} SilentPeerKillsLink(s: Link, tx: Transport, ops: seq<Operation>)
    requires s.phase == Normal && s.pending != [] && NoAcknowledgement(s, tx, ops)
    requires DueTimes(TickTimes(ops), s.pending[0].deadline, s.lsp.retransmissionTimeout)
           > Max(0, s.lsp.maxRetransmissions - s.pending[0].retries)
    ensures ApplyAll(s, tx, ops).phase == Dead
    decreases |ops|
  {
    hide Apply;
    var t, times, rest := Apply(s, tx, ops[0]), TickTimes(ops), TickTimes(ops[1..]);
    if ops[0].TickAt? {
      OldestResent(s, tx, ops[0].now);
      TickApplied(s, tx, ops[0]);
      assert times == [ops[0].now] + rest && times[1..] == rest;
    } else {
      OldestStays(s, tx, ops[0]);
      assert times == rest;
    }
    if t.phase == Dead {
      DeadStays(t, tx, ops[1..]);
    } else {
      SilentPeerKillsLink(t, tx, ops[1..]);
    }
  }

  lemma {:induction false} TickApplied(s: Link, tx: Transport, op: Operation)
    requires op.TickAt?
    ensures Apply(s, tx, op) == Tick(s, tx, op.now)
  {}
}

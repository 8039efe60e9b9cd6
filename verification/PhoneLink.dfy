/** The phone-side link as the object the program runs: fields updated in place, proved equal to the machine. */
module PhoneLinkObject {
  import opened ByteStrings
  import opened LinkCodec
  import opened LinkMachine

  class PhoneLink {
    const transport: Transport
    var phase: Phase
    var lsp: Lsp
    var sentSequence: Byte
    var peerControlSessionId: Byte
    var lastReceivedSequence: Byte
    var lastSequenceValid: bool
    var receiveBuffer: Bytes
    var nextMarker: int
    var nextSyn: int
    var pending: seq<Pending>
    var synSequence: Byte
    var synOutstanding: bool
    var attempts: seq<Bytes>
    var delivered: seq<Bytes>

    /** The state of the machine this object is in. */
    ghost function Value(): Link
      reads this
    {
      Link(phase, lsp, sentSequence, peerControlSessionId, lastReceivedSequence, lastSequenceValid, receiveBuffer,
           nextMarker, nextSyn, pending, synSequence, synOutstanding, attempts, delivered)
    }

    constructor (transport: Transport)
      ensures Value() == INITIAL && this.transport == transport
    {
      this.transport := transport;
      phase := Detect;
      lsp := Lsp(4, 65535, 0, 0, 0, 0, [Session(10, 0, 2), Session(11, 2, 1), Session(12, 1, 2)]);
      sentSequence, peerControlSessionId := 99, 10;
      lastReceivedSequence, lastSequenceValid := 0, false;
      receiveBuffer, pending := [], [];
      nextMarker, nextSyn := 0, 0;
      synSequence, synOutstanding := 0, false;
      attempts, delivered := [], [];
    }

    /** The send callback: the frame is handed over, and the transport says whether it took it. */
    method Transmit(frame: Bytes) returns (ok: bool)
      modifies this`attempts
      ensures attempts == old(attempts) + [frame] && ok == transport(|old(attempts)|)
    {
      ok := transport(|attempts|);
      attempts := attempts + [frame];
    }

    method EncodePacket(payload: Bytes, sequence: Byte, control: Byte, session: Byte) returns (packet: Bytes)
      ensures packet == LinkMachine.EncodePacket(Value(), payload, sequence, control, session)
    {
      if payload != [] && |payload| > 65535 - 10 {
        return [];
      }
      var header := WriteHeader(Header(if payload == [] then 9 else |payload| + 10,
                                       control, sequence, lastReceivedSequence, session));
      packet := header[..];
      if payload != [] {
        var sum := ByteSum(payload);
        packet := packet + payload + [(256 - sum as int) % 256];
      }
    }

    method WritePacket(payload: Bytes, sequence: Byte, control: Byte, session: Byte)
      modifies this
      ensures Value() == LinkMachine.WritePacket(old(Value()), transport, payload, sequence, control, session)
    {
      var packet := EncodePacket(payload, sequence, control, session);
      if packet == [] {
        phase := Dead;
      } else {
        var ok := Transmit(packet);
        if !ok {
          phase := Dead;
        }
      }
    }

    method SendAck()
      modifies this
      ensures Value() == LinkMachine.SendAck(old(Value()), transport)
    {
      WritePacket([], sentSequence, CONTROL_ACK, 0);
    }

    method SendMarker() returns (ok: bool)
      modifies this
      ensures Value() == LinkMachine.SendMarker(old(Value()), transport)
      ensures ok == Accepts(transport, old(Value()))
    {
      ok := Transmit(MARKER);
      if !ok {
        phase := Dead;
      }
    }

    /** A retransmitted SYN keeps its sequence number. */
    method SendSyn(now: int, acknowledgePeer: bool)
      modifies this
      ensures Value() == LinkMachine.SendSyn(old(Value()), transport, now, acknowledgePeer)
    {
      hide EncodeLsp, LinkMachine.WritePacket;
      if phase != Negotiate {
        return;
      }
      var encoded := WriteLsp(lsp);
      if !synOutstanding {
        sentSequence := Next(sentSequence);
        synSequence := sentSequence;
        synOutstanding := true;
      }
      assert Value() == WithSyn(old(Value()));
      WritePacket(encoded[..], synSequence, CONTROL_SYN + if acknowledgePeer then CONTROL_ACK else 0, 0);
      nextSyn := now + SYN_INTERVAL;
    }

    method Start(now: int)
      modifies this
      ensures Value() == LinkMachine.Start(old(Value()), transport, now)
    {
      if phase != Detect {
        return;
      }
      var ok := SendMarker();
      if !ok {
        return;
      }
      phase := Negotiate;
      SendSyn(now, false);
    }

    static lemma {:induction false} PacketAlike(
      s: Link, t: Link, payload: Bytes, sequence: Byte, control: Byte, session: Byte)
      requires s.last == t.last
      ensures LinkMachine.EncodePacket(s, payload, sequence, control, session)
           == LinkMachine.EncodePacket(t, payload, sequence, control, session)
    {}

    method SendControl(now: int, payload: Bytes) returns (ok: bool)
      modifies this
      ensures (Value(), ok) == LinkMachine.SendControl(old(Value()), transport, now, payload)
    {
      hide LinkMachine.EncodePacket;
      if phase != Normal || payload == [] || lsp.maxLen < 10 || |payload| > lsp.maxLen - 10 {
        return false;
      }
      if |pending| >= lsp.maxOutgoing {
        return false;
      }
      sentSequence := Next(sentSequence);
      PacketAlike(old(Value()), Value(), payload, sentSequence, CONTROL_ACK, peerControlSessionId);
      var frame := EncodePacket(payload, sentSequence, CONTROL_ACK, peerControlSessionId);
      ok := Transmit(frame);
      if !ok {
        phase := Dead;
        pending := [];
        return;
      }
      pending := pending + [Pending(sentSequence, frame, now + lsp.retransmissionTimeout, 0)];
    }

    method Tick(now: int)
      modifies this
      ensures Value() == LinkMachine.Tick(old(Value()), transport, now)
    {
      if phase == Dead {
        return;
      }
      if phase == Detect && now >= nextMarker {
        var ok := SendMarker();
        if !ok {
          return;
        }
        nextMarker := now + MARKER_INTERVAL;
      }
      if phase == Negotiate && now >= nextSyn {
        SendSyn(now, false);
      }
      ResendExpired(now);
    }

    /** The retransmission pass, walking over the pending list in place. */
    method ResendExpired(now: int)
      modifies this
      ensures Value() == Resend(old(Value()), transport, now, 0)
    {
      for i := 0 to |pending|
        invariant |pending| == |old(pending)|
        invariant Resend(Value(), transport, now, i) == Resend(old(Value()), transport, now, 0)
      {
        var message := pending[i];
        if now < message.deadline {
          continue;
        }
        if message.retries >= lsp.maxRetransmissions {
          phase := Dead;
          pending := [];
          return;
        }
        pending := pending[i := message.(retries := message.retries + 1, deadline := now + lsp.retransmissionTimeout)];
        var ok := Transmit(message.frame);
        if !ok {
          phase := Dead;
          pending := [];
          return;
        }
      }
    }

    method HandlePacket(h: Header, payload: Bytes, now: int)
      modifies this
      ensures Value() == Handle(old(Value()), transport, now, h, payload)
    {
      if HasRst(h.control) {
        phase := Dead;
        pending := [];
        synOutstanding := false;
        receiveBuffer := [];
        return;
      }
      if HasAck(h.control) && pending != [] {
        pending := Unacknowledged(pending, h.acknowledgement);
      }
      if HasSyn(h.control) {
        HandleSynPacket(h, payload, now);
      } else if HasAck(h.control) && phase == Negotiate {
        if synOutstanding && AcknowledgedBy(synSequence, h.acknowledgement) {
          synOutstanding := false;
          phase := Normal;
        }
      } else if (h.control == 0 || h.control == CONTROL_ACK) && payload != [] {
        HandleDataPacket(h, payload);
      }
    }

    method HandleSynPacket(h: Header, payload: Bytes, now: int)
      modifies this
      ensures Value() == HandleSyn(old(Value()), transport, now, h, payload)
    {
      hide LinkMachine.SendSyn, LinkMachine.SendAck, Clamped, ControlSessionOf;
      if phase == Normal {
        SendAck();
        return;
      }
      var received := ReadLsp(payload);
      if received.Some? {
        lsp := Clamped(received.value);
        peerControlSessionId := ControlSessionOf(lsp.sessions, peerControlSessionId);
        lastSequenceValid := true;
        lastReceivedSequence := h.sequence;
        SendSyn(now, true);
      }
    }

    /** Old frames, gaps and duplicates are acknowledged and dropped, in this order of tests. */
    method HandleDataPacket(h: Header, payload: Bytes)
      modifies this
      ensures Value() == HandleData(old(Value()), transport, h, payload)
    {
      if phase != Normal {
        return;
      }
      if lastSequenceValid && h.sequence != lastReceivedSequence && Ahead(h.sequence, lastReceivedSequence) > 128 {
        SendAck();
        return;
      }
      if lastSequenceValid && Ahead(h.sequence, lastReceivedSequence) > 1 {
        SendAck();
        return;
      }
      if lastSequenceValid && h.sequence == lastReceivedSequence {
        SendAck();
        return;
      }
      lastSequenceValid := true;
      lastReceivedSequence := h.sequence;
      if h.sessionId == peerControlSessionId {
        delivered := delivered + [payload];
      }
      SendAck();
    }

    /** The parsing loop; it ends because every turn shortens the buffer. */
    method ProcessPackets(now: int)
      modifies this
      ensures Value() == Process(old(Value()), transport, now)
    {
      hide Handle, DecodeHeader, ProcessAt;
      while |receiveBuffer| >= 9
        invariant Process(Value(), transport, now) == Process(old(Value()), transport, now)
        decreases |receiveBuffer|
      {
        var start := SyncIndex(receiveBuffer);
        if start == |receiveBuffer| - 1 {
          receiveBuffer := receiveBuffer[|receiveBuffer| - 1..];
          return;
        }
        if receiveBuffer[start + 1] != 0x5a {
          receiveBuffer := receiveBuffer[start + 1..];
          continue;
        }
        if start != 0 {
          receiveBuffer := receiveBuffer[start..];
          if |receiveBuffer| < 9 {
            return;
          }
        }
        FrontPacket(Value(), now);
        var again := TakeFront(now);
        if !again {
          return;
        }
      }
    }

    /** One turn of the loop with the start of a packet at the front: whether there may be more to take. */
    method TakeFront(now: int) returns (again: bool)
      requires |receiveBuffer| >= 9
      modifies this
      ensures again ==> |receiveBuffer| < |old(receiveBuffer)|
      ensures again ==> Process(Value(), transport, now) == ProcessAt(old(Value()), transport, now)
      ensures !again ==> Value() == ProcessAt(old(Value()), transport, now)
    {
      hide Handle, ValidChecksum, PayloadOf;
      var header := DecodeHeader(receiveBuffer[..9]);
      if header.None? {
        receiveBuffer := receiveBuffer[1..];
        return true;
      }
      var h := header.value;
      if h.length > lsp.maxLen {
        phase := Dead;
        receiveBuffer := [];
        return false;
      }
      if |receiveBuffer| < h.length {
        return false;
      }
      var body := receiveBuffer[9..h.length];
      receiveBuffer := receiveBuffer[h.length..];
      if body == [] || ValidChecksum(body) {
        HandlePacket(h, PayloadOf(body), now);
      }
      return true;
    }

    /** Once a packet starts at the front, the machine parses it without dropping anything more. */
    lemma {:induction false} FrontPacket(s: Link, now: int)
      requires |s.buffer| >= 9 && s.buffer[0] == 0xff && s.buffer[1] == 0x5a
      ensures Process(s, transport, now) == ProcessAt(s, transport, now)
    {
      assert SyncIndex(s.buffer) == 0;
      assert s.buffer[0..] == s.buffer;
    }

    method Receive(bytes: Bytes, now: int)
      modifies this
      ensures Value() == LinkMachine.Receive(old(Value()), transport, now, bytes)
    {
      if |receiveBuffer| > MAX_RECEIVE_BUFFER || |bytes| > MAX_RECEIVE_BUFFER - |receiveBuffer| {
        phase := Dead;
        receiveBuffer := [];
        return;
      }
      receiveBuffer := receiveBuffer + bytes;
      if phase == Detect {
        var marker := Find(MARKER, receiveBuffer);
        if marker.None? {
          if |receiveBuffer| > |MARKER| - 1 {
            receiveBuffer := receiveBuffer[|receiveBuffer| - (|MARKER| - 1)..];
          }
          return;
        }
        receiveBuffer := receiveBuffer[marker.value + |MARKER|..];
        phase := Negotiate;
        SendSyn(now, false);
      }
      ProcessPackets(now);
    }
  }
}

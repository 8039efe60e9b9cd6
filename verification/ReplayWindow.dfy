/**
 The microphone receiver: packets are authenticated, and a 64-bit mask of the nonces seen among the 64 up to the highest
 keeps replays out. The mask is given by its bits, the lowest first; a shift to the left moves bits up and drops those
 beyond the word.
 */
module ReplayWindow {
  import opened ByteStrings
  import CipherFrames

  const WIDTH: nat := 64

  type Nonce = n: int | 0 <= n < 0x1_0000_0000_0000_0000

  type Mask = m: seq<bool> | |m| == WIDTH witness Zeros()

  function Zeros(): (m: seq<bool>)
    ensures |m| == WIDTH && forall i :: 0 <= i < WIDTH ==> !m[i]
  {
    seq(WIDTH, i => false)
  }

  function One(): (m: Mask)
    ensures forall i :: 0 <= i < WIDTH ==> m[i] == (i == 0)
  {
    Zeros()[0 := true]
  }

  function ShiftLeft(m: Mask, d: nat): (r: Mask) {
    seq(WIDTH, i requires 0 <= i < WIDTH => i >= d && m[i - d])
  }

  datatype Window = Window(some: bool, highest: Nonce, mask: Mask)

  const FRESH: Window := Window(false, 0, Zeros())

  /** Whether a packet with the nonce passes, and the window afterwards. */
  function Admit(w: Window, nonce: Nonce): (bool, Window) {
    if !w.some then (true, Window(true, nonce, One()))
    else if nonce > w.highest then
      var distance := nonce - w.highest;
      (true, Window(true, nonce, if distance >= WIDTH then One() else ShiftLeft(w.mask, distance)[0 := true]))
    else
      var distance := w.highest - nonce;
      if distance >= WIDTH || w.mask[distance] then (false, w)
      else (true, w.(mask := w.mask[distance := true]))
  }

  /** Bytes of 16-bit samples, each pair turned around. */
  function SwapPairs(p: Bytes): Bytes {
    if |p| < 2 then p else [p[1], p[0]] + SwapPairs(p[2..])
  }

  // ----- Packets -----

  const FRONT: nat := 12
  const NONCE_BYTES: nat := 8

  datatype Heard = Heard(nonce: Nonce, text: Bytes)

  /**
   What a packet says, if it is one for the microphone and authentic: version two, payload type 100, eight authenticated
   bytes, the sealed text, and the nonce at the end.
   */
  function Authentic(a: CipherFrames.Aead, key: Bytes, packet: Bytes): Option<Heard> {
    if |packet| < FRONT + CipherFrames.TAG + NONCE_BYTES || packet[0] / 64 != 2 || packet[1] % 128 != 100 then None
    else
      var end := |packet| - NONCE_BYTES;
      match a.unseal(key, [0, 0, 0, 0] + packet[end..], packet[FRONT..end], packet[4..FRONT])
      case None => None
      case Some(text) =>
        NonceFits(packet[end..]);
        Some(Heard(CipherFrames.FromLittleEndian(packet[end..]), text))
  }

  lemma {:induction false} LittleEndianBound(bytes: Bytes)
    ensures CipherFrames.FromLittleEndian(bytes) < Capacity(|bytes|)
  {
    if bytes != [] {
      LittleEndianBound(bytes[1..]);
    }
  }

  lemma {:induction false} NonceFits(bytes: Bytes)
    requires |bytes| == NONCE_BYTES
    ensures CipherFrames.FromLittleEndian(bytes) < 0x1_0000_0000_0000_0000
  {
    LittleEndianBound(bytes);
    EightByteCapacity();
  }

  /** The window after a packet, and what is handed to the microphone. A text of odd length only marks its nonce. */
  function Hear(a: CipherFrames.Aead, key: Bytes, w: Window, packet: Bytes): (Window, Option<Bytes>) {
    match Authentic(a, key, packet)
    case None => (w, None)
    case Some(heard) =>
      var (passed, next) := Admit(w, heard.nonce);
      (next, if passed && |heard.text| % 2 == 0 then Some(SwapPairs(heard.text)) else None)
  }

  /** The packet the peer sends: twelve bytes in front, the sealed text, the nonce. */
  function PacketOf(front: Bytes, sealed: Bytes, nonce: Nonce): Bytes {
    front + sealed + CipherFrames.LittleEndian(nonce, NONCE_BYTES)
  }

  /** A packet sealed by the peer is heard with its nonce and its text. */
  lemma {:induction false} PeerIsHeard(a: CipherFrames.Aead, key: Bytes, front: Bytes, nonce: Nonce, text: Bytes)
    requires CipherFrames.Inverse(a) && |front| == FRONT && front[0] / 64 == 2 && front[1] % 128 == 100
    requires a.seal(key, CipherFrames.Nonce(nonce), text, front[4..]).Some?
    ensures var sealed := a.seal(key, CipherFrames.Nonce(nonce), text, front[4..]).value;
            Authentic(a, key, PacketOf(front, sealed, nonce)) == Some(Heard(nonce, text))
  {
    var sealed := a.seal(key, CipherFrames.Nonce(nonce), text, front[4..]).value;
    var packet, tail := PacketOf(front, sealed, nonce), CipherFrames.LittleEndian(nonce, NONCE_BYTES);
    var end := |packet| - NONCE_BYTES;
    assert packet[end..] == tail && packet[FRONT..end] == sealed && packet[4..FRONT] == front[4..];
    EightByteCapacity();
    CipherFrames.LittleEndianRoundTrip(nonce, NONCE_BYTES);
  }

  class MicrophoneReceiver {
    const aead: CipherFrames.Aead
    const key: Bytes
    var haveNonce: bool
    var highestNonce: Nonce
    var replayWindow: Mask

    ghost function State(): Window
      reads this
    {
      Window(haveNonce, highestNonce, replayWindow)
    }

    constructor (aead: CipherFrames.Aead, key: Bytes)
      ensures this.aead == aead && this.key == key && State() == FRESH
    {
      this.aead, this.key := aead, key;
      haveNonce, highestNonce, replayWindow := false, 0, Zeros();
    }

    /** One packet from the socket; `delivered` is what the callback gets. */
    method Receive(packet: Bytes) returns (delivered: Option<Bytes>)
      modifies this
      ensures (State(), delivered) == Hear(aead, key, old(State()), packet)
    {
      if |packet| < 12 + 16 + 8 || packet[0] / 64 != 2 || packet[1] % 128 != 100 {
        return None;
      }
      var end := |packet| - 8;
      var text := aead.unseal(key, [0, 0, 0, 0] + packet[end..], packet[12..end], packet[4..12]);
      if text.None? {
        return None;
      }
      var nonce := NonceAt(packet[end..]);
      var passed := Pass(nonce);
      if !passed || |text.value| % 2 != 0 {
        return None;
      }
      var payload := new Byte[|text.value|](i requires 0 <= i < |text.value| => text.value[i]);
      assert payload[..] == text.value;
      SwapSamples(payload);
      delivered := Some(payload[..]);
    }

    method Pass(nonce: Nonce) returns (passed: bool)
      modifies this
      ensures (passed, State()) == Admit(old(State()), nonce)
    {
      if haveNonce {
        if nonce > highestNonce {
          var distance := nonce - highestNonce;
          replayWindow := if distance >= WIDTH then One() else ShiftLeft(replayWindow, distance)[0 := true];
          highestNonce := nonce;
        } else {
          var distance := highestNonce - nonce;
          if distance >= WIDTH || replayWindow[distance] {
            return false;
          }
          replayWindow := replayWindow[distance := true];
        }
      } else {
        highestNonce, replayWindow, haveNonce := nonce, One(), true;
      }
      return true;
    }
  }

  /** The bytes of the nonce, each shifted to its place. */
  method NonceAt(bytes: Bytes) returns (nonce: Nonce)
    requires |bytes| == NONCE_BYTES
    ensures nonce == CipherFrames.FromLittleEndian(bytes)
  {
    var sum: nat := 0;
    assert bytes[..0] == [];
    for index := 0 to 8
      invariant sum == CipherFrames.FromLittleEndian(bytes[..index])
    {
      assert bytes[..index + 1] == bytes[..index] + [bytes[index]];
      AddHighByte(bytes[..index], bytes[index]);
      sum := sum + bytes[index] * Capacity(index);
    }
    assert bytes[..8] == bytes;
    NonceFits(bytes);
    nonce := sum;
  }

  lemma {:induction false} AddHighByte(low: Bytes, high: Byte)
    ensures CipherFrames.FromLittleEndian(low + [high]) == CipherFrames.FromLittleEndian(low) + high * Capacity(|low|)
    decreases |low|
  {
    if low == [] {
      assert [] + [high] == [high] && [high][1..] == [];
    } else {
      assert (low + [high])[1..] == low[1..] + [high];
      AddHighByte(low[1..], high);
      Shifted(high, Capacity(|low| - 1));
    }
  }

  lemma {:induction false} Shifted(a: nat, b: nat)
    ensures 256 * (a * b) == a * (256 * b)
  {}

  lemma {:induction false} SwapOne(was: Bytes, index: nat, done: Bytes)
    requires index + 2 <= |was|
    ensures done + SwapPairs(was[index..]) == (done + [was[index + 1], was[index]]) + SwapPairs(was[index + 2..])
  {
    assert was[index..][2..] == was[index + 2..];
    Associates(done, [was[index + 1], was[index]], SwapPairs(was[index + 2..]));
  }

  lemma {:induction false} SwapNone(done: Bytes)
    ensures done + [] == done && done + SwapPairs([]) == done
  {}

  /** Swaps one pair; what is before it has been swapped, what is after it has not. */
  method SwapPair(payload: array<Byte>, index: nat, ghost was: Bytes, ghost done: Bytes)
    requires index + 2 <= |was| && |done| == index && payload[..] == done + was[index..]
    modifies payload
    ensures payload[..] == (done + [was[index + 1], was[index]]) + was[index + 2..]
  {
    assert payload[index] == payload[..][index] && payload[index + 1] == payload[..][index + 1];
    payload[index], payload[index + 1] := payload[index + 1], payload[index];
  }

  method SwapSamples(payload: array<Byte>)
    requires payload.Length % 2 == 0
    modifies payload
    ensures payload[..] == SwapPairs(old(payload[..]))
  {
    hide SwapPairs;
    ghost var was, done: Bytes := payload[..], [];
    var index := 0;
    while index < payload.Length
      invariant index % 2 == 0 && index <= |was| == payload.Length
      invariant |done| == index && payload[..] == done + was[index..]
      invariant done + SwapPairs(was[index..]) == SwapPairs(was)
    {
      SwapOne(was, index, done);
      SwapPair(payload, index, was, done);
      done := done + [was[index + 1], was[index]];
      index := index + 2;
    }
    SwapNone(done);
  }

  // ----- What the mask means -----

  /** The window of a set of nonces: the highest one, and for each of the 64 up to it whether it is in the set. */
  ghost predicate Exact(w: Window, seen: set<Nonce>) {
    if !w.some then seen == {}
    else
      && w.highest in seen
      && (forall n {:trigger n in seen} :: n in seen ==> n <= w.highest)
      && forall i {:trigger w.mask[i]} :: 0 <= i < 64 ==> (w.mask[i] <==> Below(w.highest, i, seen))
  }

  ghost predicate Below(highest: Nonce, i: nat, seen: set<Nonce>) {
    i <= highest && highest - i in seen
  }

  /** A nonce is new when it has not been seen, and none has been seen that is 64 or more above it. */
  ghost predicate IsNew(seen: set<Nonce>, nonce: Nonce) {
    nonce !in seen && forall n {:trigger n in seen} :: n in seen ==> n - nonce < 64
  }

  lemma {:induction false} AdmitsNew(w: Window, seen: set<Nonce>, nonce: Nonce)
    requires Exact(w, seen)
    ensures Admit(w, nonce).0 <==> IsNew(seen, nonce)
  {
    if w.some && nonce <= w.highest {
      var d := w.highest - nonce;
      if d < WIDTH {
        assert w.mask[d] <==> Below(w.highest, d, seen);
      } else {
        assert w.highest in seen;
      }
    }
  }

  lemma {:induction false} StaysExact(w: Window, seen: set<Nonce>, nonce: Nonce)
    requires Exact(w, seen)
    ensures Exact(Admit(w, nonce).1, seen + {nonce})
  {
    var next := Admit(w, nonce).1;
    forall i | 0 <= i < WIDTH
      ensures next.mask[i] <==> Below(next.highest, i, seen + {nonce})
    {
      if w.some && nonce > w.highest {
        var d := nonce - w.highest;
        if i >= d {
          assert w.mask[i - d] <==> Below(w.highest, i - d, seen);
        }
      } else if w.some {
        assert w.mask[i] <==> Below(w.highest, i, seen);
      }
    }
  }

  // ----- Whole runs -----

  function After(nonces: seq<Nonce>): Window {
    if |nonces| == 0 then FRESH else Admit(After(nonces[..|nonces| - 1]), nonces[|nonces| - 1]).1
  }

  ghost function Seen(nonces: seq<Nonce>): set<Nonce> { set n | n in nonces }

  /** After any run the mask is exactly the set of nonces seen within 64 of the highest. */
  lemma {:induction false} WindowExact(nonces: seq<Nonce>)
    ensures Exact(After(nonces), Seen(nonces))
    decreases |nonces|
  {
    if |nonces| > 0 {
      var n := |nonces| - 1;
      WindowExact(nonces[..n]);
      StaysExact(After(nonces[..n]), Seen(nonces[..n]), nonces[n]);
      assert nonces == nonces[..n] + [nonces[n]];
      assert Seen(nonces) == Seen(nonces[..n]) + {nonces[n]};
    }
  }

  /** A packet passes exactly when its nonce is new, judged by all packets before it. */
  lemma {:induction false} PassesIfNew(before: seq<Nonce>, nonce: Nonce)
    ensures Admit(After(before), nonce).0 <==> IsNew(Seen(before), nonce)
  {
    WindowExact(before);
    AdmitsNew(After(before), Seen(before), nonce);
  }

  /** No nonce passes twice in any run. */
  lemma {:induction false} NeverTwice(nonces: seq<Nonce>, i: nat, j: nat)
    requires i < j < |nonces| && Admit(After(nonces[..j]), nonces[j]).0
    ensures nonces[i] != nonces[j]
  {
    WindowExact(nonces[..j]);
    PassesIfNew(nonces[..j], nonces[j]);
    assert nonces[..j][i] == nonces[i];
    assert nonces[i] in Seen(nonces[..j]);
  }

  // ----- Runs of packets -----

  /** The nonces of the authentic packets. */
  function Nonces(a: CipherFrames.Aead, key: Bytes, packets: seq<Bytes>): seq<Nonce> {
    if |packets| == 0 then []
    else
      var n := |packets| - 1;
      Nonces(a, key, packets[..n]) +
      match Authentic(a, key, packets[n])
      case None => []
      case Some(heard) => [heard.nonce]
  }

  function AfterPackets(a: CipherFrames.Aead, key: Bytes, packets: seq<Bytes>): Window {
    if |packets| == 0 then FRESH
    else Hear(a, key, AfterPackets(a, key, packets[..|packets| - 1]), packets[|packets| - 1]).0
  }

  lemma {:induction false} OnlyNoncesCount(a: CipherFrames.Aead, key: Bytes, packets: seq<Bytes>)
    ensures AfterPackets(a, key, packets) == After(Nonces(a, key, packets))
    decreases |packets|
  {
    if |packets| > 0 {
      var n := |packets| - 1;
      OnlyNoncesCount(a, key, packets[..n]);
      var before, heard := Nonces(a, key, packets[..n]), Authentic(a, key, packets[n]);
      assert before + [] == before;
      if heard.Some? {
        assert (before + [heard.value.nonce])[..|before|] == before;
      }
    }
  }

  lemma {:induction false} NonceListed(a: CipherFrames.Aead, key: Bytes, packets: seq<Bytes>, i: nat)
    requires i < |packets| && Authentic(a, key, packets[i]).Some?
    ensures Authentic(a, key, packets[i]).value.nonce in Nonces(a, key, packets)
    decreases |packets|
  {
    var n := |packets| - 1;
    if i < n {
      assert packets[..n][i] == packets[i];
      NonceListed(a, key, packets[..n], i);
    }
  }

  /** The two bytes of every sample have changed places. */
  ghost predicate Turned(text: Bytes, samples: Bytes) {
    |samples| == |text| &&
    forall i :: 0 <= i < |text| / 2 ==> samples[2 * i] == text[2 * i + 1] && samples[2 * i + 1] == text[2 * i]
  }

  lemma {:induction false} SwapTurns(p: Bytes)
    requires |p| % 2 == 0
    ensures Turned(p, SwapPairs(p))
    decreases |p|
  {
    if |p| > 0 {
      var rest, swapped := p[2..], SwapPairs(p[2..]);
      SwapTurns(rest);
      forall i | 0 < i < |p| / 2
        ensures SwapPairs(p)[2 * i] == p[2 * i + 1] && SwapPairs(p)[2 * i + 1] == p[2 * i]
      {
        assert swapped[2 * (i - 1)] == rest[2 * (i - 1) + 1] && swapped[2 * (i - 1) + 1] == rest[2 * (i - 1)];
      }
    }
  }

  /**
   After any packets, the next one is heard exactly if it is authentic, its text has an even length, and its nonce is
   new; what is heard is its text with the bytes of every sample turned around.
   */
  lemma {:induction false} HeardIfNew(a: CipherFrames.Aead, key: Bytes, before: seq<Bytes>, packet: Bytes)
    ensures var packets, heard := Nonces(a, key, before), Authentic(a, key, packet);
            var samples := Hear(a, key, AfterPackets(a, key, before), packet).1;
            && (samples.Some? <==>
                  heard.Some? && IsNew(Seen(packets), heard.value.nonce) && |heard.value.text| % 2 == 0)
            && (samples.Some? ==> Turned(heard.value.text, samples.value))
  {
    OnlyNoncesCount(a, key, before);
    var heard := Authentic(a, key, packet);
    if heard.Some? {
      PassesIfNew(Nonces(a, key, before), heard.value.nonce);
      if |heard.value.text| % 2 == 0 {
        SwapTurns(heard.value.text);
      }
    }
  }

  /** A packet whose nonce an authentic packet before it had is not handed on; in particular none is handed on twice. */
  lemma {:induction false} NoReplay(a: CipherFrames.Aead, key: Bytes, packets: seq<Bytes>, i: nat, j: nat)
    requires i < j < |packets| && Authentic(a, key, packets[i]).Some?
    requires Hear(a, key, AfterPackets(a, key, packets[..j]), packets[j]).1.Some?
    ensures Authentic(a, key, packets[i]).value.nonce != Authentic(a, key, packets[j]).value.nonce
    ensures packets[i] != packets[j]
  {
    var before := packets[..j];
    HeardIfNew(a, key, before, packets[j]);
    assert before[i] == packets[i];
    NonceListed(a, key, before, i);
    OnlyNoncesCount(a, key, before);
    WindowExact(Nonces(a, key, before));
    assert Authentic(a, key, packets[i]).value.nonce in Seen(Nonces(a, key, before));
  }

  /** Only a packet of 36 bytes or more with version two and payload type 100 is looked at. */
  lemma {:induction false} OtherPacketsIgnored(a: CipherFrames.Aead, key: Bytes, w: Window, packet: Bytes)
    requires |packet| < 36 || packet[0] / 64 != 2 || packet[1] % 128 != 100
    ensures Hear(a, key, w, packet) == (w, None)
  {}
}

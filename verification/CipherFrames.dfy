/**
 The encrypted control channel: each frame is a little-endian length, the sealed text and its tag.
 Sealing is abstract: all that is known of it is the length of its output and that opening inverts it.
 */
module CipherFrames {
  import opened ByteStrings

  const MAX_PLAINTEXT: nat := 65535
  const TAG: nat := 16
  const OVERHEAD: nat := 18
  const COUNTERS: nat := 0x1_0000_0000_0000_0000

  type Counter = n: int | 0 <= n < COUNTERS

  /** Authenticated encryption by key, nonce, text and header; either direction may fail. */
  datatype Aead = Aead(seal: (Bytes, Bytes, Bytes, Bytes) -> Option<Bytes>,
      unseal: (Bytes, Bytes, Bytes, Bytes) -> Option<Bytes>)

  ghost predicate Inverse(a: Aead) {
    && (forall key, nonce, text, header {:trigger a.seal(key, nonce, text, header)} ::
          a.seal(key, nonce, text, header).Some? ==>
            var sealed := a.seal(key, nonce, text, header).value;
            |sealed| == |text| + TAG && a.unseal(key, nonce, sealed, header) == Some(text))
    && (forall key, nonce, sealed, header {:trigger a.unseal(key, nonce, sealed, header)} ::
          a.unseal(key, nonce, sealed, header).Some? ==>
            |sealed| == |a.unseal(key, nonce, sealed, header).value| + TAG)
  }

  // ----- Nonces -----

  function LittleEndian(value: nat, size: nat): (r: Bytes)
    ensures |r| == size
  {
    if size == 0 then [] else [value % 256] + LittleEndian(value / 256, size - 1)
  }

  function FromLittleEndian(bytes: Bytes): nat {
    if bytes == [] then 0 else bytes[0] + 256 * FromLittleEndian(bytes[1..])
  }

  lemma {:induction false} LittleEndianRoundTrip(value: nat, size: nat)
    requires value < Capacity(size)
    ensures FromLittleEndian(LittleEndian(value, size)) == value
  {
    if size > 0 {
      LittleEndianRoundTrip(value / 256, size - 1);
    }
  }

  /** Four zero bytes, then the counter. */
  function Nonce(counter: Counter): (r: Bytes)
    ensures |r| == 12
  {
    [0, 0, 0, 0] + LittleEndian(counter, 8)
  }

  /** The counter of a frame when the first one has counter `first`; it wraps around. */
  function CounterAfter(first: Counter, frames: nat): Counter { (first + frames) % COUNTERS }

  /** Two frames of a run share a nonce exactly when a multiple of 2 to the 64 frames lies between them. */
  lemma {:induction false} NonceRepeats(first: Counter, i: nat, j: nat)
    ensures Nonce(CounterAfter(first, i)) == Nonce(CounterAfter(first, j)) <==> (j - i) % COUNTERS == 0
  {
    var a, b := CounterAfter(first, i), CounterAfter(first, j);
    NonceInjective(a, b);
    SameResidue(first + i, first + j);
  }

  lemma {:induction false} SameResidue(x: nat, y: nat)
    ensures x % COUNTERS == y % COUNTERS <==> (y - x) % COUNTERS == 0
  {
    var p, q, d := x / COUNTERS, y / COUNTERS, (y - x) / COUNTERS;
    assert x == p * COUNTERS + x % COUNTERS && y == q * COUNTERS + y % COUNTERS;
    assert y - x == d * COUNTERS + (y - x) % COUNTERS;
  }

  lemma {:induction false} NonceInjective(a: Counter, b: Counter)
    ensures Nonce(a) == Nonce(b) <==> a == b
  {
    EightByteCapacity();
    LittleEndianRoundTrip(a, 8);
    LittleEndianRoundTrip(b, 8);
    assert Nonce(a)[4..] == LittleEndian(a, 8) && Nonce(b)[4..] == LittleEndian(b, 8);
  }

  method NonceForCounter(counter: Counter) returns (nonce: Bytes)
    ensures nonce == Nonce(counter)
  {
    var bytes := new Byte[12](_ => 0);
    var left: nat := counter;
    for index := 0 to 8
      invariant bytes[..4] == [0, 0, 0, 0]
      invariant bytes[..4 + index] + LittleEndian(left, 8 - index) == Nonce(counter)
    {
      ghost var done := bytes[..4 + index];
      bytes[4 + index] := left % 256;
      assert bytes[..4 + index + 1] == done + [left % 256];
      left := left / 256;
    }
    nonce := bytes[..];
    assert bytes[..12] == bytes[..];
  }

  // ----- Frames -----

  function LengthBytes(length: nat): (r: Bytes)
    requires length <= MAX_PLAINTEXT
    ensures |r| == 2
  {
    [length % 256, length / 256]
  }

  function LengthAt(b: Bytes): nat
    requires |b| >= 2
  {
    b[0] + (b[1] as int) * 256
  }

  function Seal(a: Aead, key: Bytes, counter: Counter, text: Bytes): Option<Bytes> {
    if |text| > MAX_PLAINTEXT then None
    else
      var header := LengthBytes(|text|);
      match a.seal(key, Nonce(counter), text, header)
      case None => None
      case Some(sealed) => Some(header + sealed)
  }

  function Open(a: Aead, key: Bytes, counter: Counter, frame: Bytes): Option<Bytes> {
    if |frame| < OVERHEAD || |frame| != LengthAt(frame) + OVERHEAD then None
    else a.unseal(key, Nonce(counter), frame[2..], frame[..2])
  }

  /** One attempt to read a frame: an empty text when there is none yet. The counter moves only with a frame. */
  datatype Read = Read(text: Option<Bytes>, counter: Counter, buffer: Bytes)

  function ReadOne(a: Aead, key: Bytes, counter: Counter, b: Bytes): Read {
    if |b| < 2 || |b| < LengthAt(b) + OVERHEAD then Read(Some([]), counter, b)
    else
      var size := LengthAt(b) + OVERHEAD;
      var text := Open(a, key, counter, b[..size]);
      if text.None? then Read(None, counter, b) else Read(text, CounterAfter(counter, 1), b[size..])
  }

  class ControlCipher {
    const aead: Aead
    const readKey: Bytes
    const writeKey: Bytes
    var readCounter: Counter
    var writeCounter: Counter

    constructor (aead: Aead, readKey: Bytes, writeKey: Bytes)
      ensures this.aead == aead && this.readKey == readKey && this.writeKey == writeKey
      ensures readCounter == 0 && writeCounter == 0
    {
      this.aead, this.readKey, this.writeKey := aead, readKey, writeKey;
      readCounter, writeCounter := 0, 0;
    }

    method Encrypt(text: Bytes) returns (frame: Option<Bytes>)
      modifies this`writeCounter
      ensures frame == Seal(aead, writeKey, old(writeCounter), text)
      ensures writeCounter == if frame.Some? then CounterAfter(old(writeCounter), 1) else old(writeCounter)
    {
      if |text| > MAX_PLAINTEXT {
        return None;
      }
      var header := [|text| % 256, |text| / 256];
      var nonce := NonceForCounter(writeCounter);
      var sealed := aead.seal(writeKey, nonce, text, header);
      if sealed.None? {
        return None;
      }
      writeCounter := (writeCounter + 1) % COUNTERS;
      frame := Some(header + sealed.value);
    }

    method Decrypt(frame: Bytes) returns (text: Option<Bytes>)
      modifies this`readCounter
      ensures text == Open(aead, readKey, old(readCounter), frame)
      ensures readCounter == if text.Some? then CounterAfter(old(readCounter), 1) else old(readCounter)
    {
      if |frame| < OVERHEAD {
        return None;
      }
      var length := frame[0] + (frame[1] as int) * 256;
      if |frame| != length + OVERHEAD {
        return None;
      }
      var nonce := NonceForCounter(readCounter);
      text := aead.unseal(readKey, nonce, frame[2..], frame[..2]);
      if text.Some? {
        readCounter := (readCounter + 1) % COUNTERS;
      }
    }

    /** Takes one frame off the caller's buffer; `rest` is what is left of it. */
    method DecryptOne(buffer: Bytes) returns (text: Option<Bytes>, rest: Bytes)
      modifies this`readCounter
      ensures Read(text, readCounter, rest) == ReadOne(aead, readKey, old(readCounter), buffer)
    {
      rest := buffer;
      if |buffer| < 2 {
        return Some([]), rest;
      }
      var frameSize := buffer[0] + (buffer[1] as int) * 256 + OVERHEAD;
      if |buffer| < frameSize {
        return Some([]), rest;
      }
      text := Decrypt(buffer[..frameSize]);
      if text.None? {
        return;
      }
      rest := buffer[frameSize..];
    }
  }

  /** An empty text stands for two things: no whole frame yet, or a frame that carries nothing. */
  lemma {:induction false} EmptyMeans(a: Aead, key: Bytes, counter: Counter, b: Bytes)
    requires Inverse(a)
    ensures ReadOne(a, key, counter, b).text == Some([]) <==>
            |b| < 2 || |b| < LengthAt(b) + OVERHEAD ||
            (LengthAt(b) == 0 && Open(a, key, counter, b[..OVERHEAD]).Some?)
  {
    if |b| >= 2 && |b| >= LengthAt(b) + OVERHEAD {
      var size := LengthAt(b) + OVERHEAD;
      assert LengthAt(b[..size]) == LengthAt(b);
      assert |b[..size][2..]| == LengthAt(b) + TAG;
    }
  }

  // ----- Streams -----

  datatype Received = Received(texts: seq<Bytes>, counter: Counter, buffer: Bytes, failed: bool)

  /** Reading frames until an empty text or a failure, as the sessions do after every read. */
  function ReadAll(a: Aead, key: Bytes, counter: Counter, b: Bytes): Received
    decreases |b|
  {
    var one := ReadOne(a, key, counter, b);
    if one.text.None? then Received([], counter, b, true)
    else if one.text.value == [] then Received([], one.counter, one.buffer, false)
    else if |one.buffer| < |b| then
      var others := ReadAll(a, key, one.counter, one.buffer);
      others.(texts := [one.text.value] + others.texts)
    else Received([], counter, b, false)
  }

  function Receive(a: Aead, key: Bytes, counter: Counter, b: Bytes, chunks: seq<Bytes>): Received
    decreases |chunks|
  {
    if |chunks| == 0 then Received([], counter, b, false)
    else
      var first := ReadAll(a, key, counter, b + chunks[0]);
      if first.failed then first
      else
        var others := Receive(a, key, first.counter, first.buffer, chunks[1..]);
        others.(texts := first.texts + others.texts)
  }

  /** The frames of a list of texts, the counter going up by one with each; None when one cannot be sealed. */
  function SealAll(a: Aead, key: Bytes, counter: Counter, texts: seq<Bytes>): Option<Bytes>
    decreases |texts|
  {
    if |texts| == 0 then Some([])
    else
      match Seal(a, key, counter, texts[0])
      case None => None
      case Some(frame) =>
        match SealAll(a, key, CounterAfter(counter, 1), texts[1..])
        case None => None
        case Some(rest) => Some(frame + rest)
  }

  lemma {:induction false} SealedFrame(a: Aead, key: Bytes, counter: Counter, text: Bytes)
    requires Inverse(a) && Seal(a, key, counter, text).Some?
    ensures var frame := Seal(a, key, counter, text).value;
            |frame| == |text| + OVERHEAD && LengthAt(frame) == |text| && Open(a, key, counter, frame) == Some(text)
  {
    var frame, header := Seal(a, key, counter, text).value, LengthBytes(|text|);
    assert frame[..2] == header && frame[2..] == a.seal(key, Nonce(counter), text, header).value;
  }

  /** The first of the sent frames is read back as soon as it is there in full, and not before. */
  lemma {:induction false} FirstFrame(
    a: Aead, key: Bytes, counter: Counter, frame: Bytes, text: Bytes, b: Bytes, later: Bytes, rest: Bytes)
    requires |frame| == |text| + OVERHEAD && LengthAt(frame) == |text| && Open(a, key, counter, frame) == Some(text)
    requires b + later == frame + rest
    ensures if |b| < |frame| then ReadOne(a, key, counter, b) == Read(Some([]), counter, b)
            else
              var left := b[|frame|..];
              ReadOne(a, key, counter, b) == Read(Some(text), CounterAfter(counter, 1), left) && left + later == rest
  {
    if |b| >= 2 {
      assert (b + later)[0] == frame[0] && (b + later)[1] == frame[1];
    }
    if |b| >= |frame| {
      assert b[..|frame|] == (b + later)[..|frame|] == frame;
      assert b[|frame|..] + later == (b + later)[|frame|..] == rest;
    }
  }

  predicate NoneEmpty(texts: seq<Bytes>) {
    |texts| == 0 || (texts[0] != [] && NoneEmpty(texts[1..]))
  }

  lemma {:induction false} CounterJoins(first: Counter, a: seq<Bytes>, b: seq<Bytes>)
    ensures CounterAfter(CounterAfter(first, |a|), |b|) == CounterAfter(first, |a + b|)
  {
    assert |a + b| == |a| + |b|;
  }

  lemma {:induction false} NoneAfter(counter: Counter)
    ensures CounterAfter(counter, 0) == counter
  {}

  lemma {:induction false} NothingAtAll(a: Aead, key: Bytes, counter: Counter)
    ensures ReadOne(a, key, counter, []) == Read(Some([]), counter, [])
  {}

  lemma {:induction false} NothingYet(a: Aead, key: Bytes, counter: Counter, b: Bytes)
    requires ReadOne(a, key, counter, b) == Read(Some([]), counter, b)
    ensures ReadAll(a, key, counter, b) == Received([], counter, b, false)
  {}

  lemma {:induction false} FirstThenOthers(
    a: Aead, key: Bytes, counter: Counter, b: Bytes, text: Bytes, next: Counter, buffer: Bytes)
    requires ReadOne(a, key, counter, b) == Read(Some(text), next, buffer) && text != [] && |buffer| < |b|
    ensures var others := ReadAll(a, key, next, buffer);
            ReadAll(a, key, counter, b) == others.(texts := [text] + others.texts)
  {}

  lemma {:induction false} SplitFirst(texts: seq<Bytes>, now: seq<Bytes>, left: seq<Bytes>)
    requires |texts| > 0 && texts[1..] == now + left
    ensures texts == ([texts[0]] + now) + left
  {
    assert texts == [texts[0]] + texts[1..];
  }

  /** What one read brings in of the frames that are on their way: the texts read now and those left for later. */
  lemma {:induction false} ReadAllSent(a: Aead, key: Bytes, counter: Counter, texts: seq<Bytes>, b: Bytes, later: Bytes)
    returns (now: seq<Bytes>, left: seq<Bytes>)
    requires Inverse(a) && NoneEmpty(texts)
    requires SealAll(a, key, counter, texts) == Some(b + later)
    ensures texts == now + left && NoneEmpty(left) && (later == [] ==> left == [])
    ensures var r := ReadAll(a, key, counter, b);
            r == Received(now, CounterAfter(counter, |now|), r.buffer, false) &&
            SealAll(a, key, r.counter, left) == Some(r.buffer + later) &&
            ReadAll(a, key, r.counter, r.buffer) == Received([], r.counter, r.buffer, false)
    decreases |texts|
  {
    hide ReadOne, ReadAll, Open, Seal, LengthAt, CounterAfter;
    now, left := [], texts;
    NoneAfter(counter);
    if |texts| == 0 {
      NothingAtAll(a, key, counter);
      assert |b + later| == 0;
      assert b == [];
      NothingYet(a, key, counter, b);
    } else {
      SealedFrame(a, key, counter, texts[0]);
      var frame := Seal(a, key, counter, texts[0]).value;
      var next := CounterAfter(counter, 1);
      FirstFrame(a, key, counter, frame, texts[0], b, later, SealAll(a, key, next, texts[1..]).value);
      if |b| < |frame| {
        assert |b + later| >= |frame|;
        NothingYet(a, key, counter, b);
      } else {
        now, left := ReadAllSent(a, key, next, texts[1..], b[|frame|..], later);
        FirstThenOthers(a, key, counter, b, texts[0], next, b[|frame|..]);
        CounterJoins(counter, [texts[0]], now);
        SplitFirst(texts, now, left);
        now := [texts[0]] + now;
      }
    }
  }

  /** Non-empty texts, sealed one after the other and cut into reads anyhow, are received as exactly that list. */
  lemma {:induction false} TextsInChunks(
    a: Aead, key: Bytes, counter: Counter, texts: seq<Bytes>, b: Bytes, chunks: seq<Bytes>)
    requires Inverse(a) && NoneEmpty(texts)
    requires SealAll(a, key, counter, texts) == Some(b + Concat(chunks))
    requires ReadAll(a, key, counter, b) == Received([], counter, b, false)
    ensures Receive(a, key, counter, b, chunks) == Received(texts, CounterAfter(counter, |texts|), [], false)
    decreases |chunks|
  {
    if |chunks| == 0 {
      ConcatNone(b);
      var now, left := ReadAllSent(a, key, counter, texts, b, []);
      assert b + [] == b;
    } else {
      ConcatFirst(b, chunks);
      var now, left := ReadAllSent(a, key, counter, texts, b + chunks[0], Concat(chunks[1..]));
      var first := ReadAll(a, key, counter, b + chunks[0]);
      TextsInChunks(a, key, first.counter, left, first.buffer, chunks[1..]);
      CounterJoins(counter, now, left);
    }
  }

  /** The texts before the first empty one. */
  function BeforeEmpty(texts: seq<Bytes>): seq<Bytes> {
    if |texts| == 0 || texts[0] == [] then [] else [texts[0]] + BeforeEmpty(texts[1..])
  }

  /** The texts after the first empty one. */
  function AfterEmpty(texts: seq<Bytes>): seq<Bytes> {
    if |texts| == 0 then [] else if texts[0] == [] then texts[1..] else AfterEmpty(texts[1..])
  }

  /** All texts that carry something. */
  function NonEmpties(texts: seq<Bytes>): seq<Bytes> {
    if |texts| == 0 then [] else (if texts[0] == [] then [] else [texts[0]]) + NonEmpties(texts[1..])
  }

  ghost predicate NothingAfterEmpty(texts: seq<Bytes>) {
    forall i, j :: 0 <= i < j < |texts| && texts[i] == [] ==> texts[j] == []
  }

  lemma {:induction false} NonEmptiesNone(texts: seq<Bytes>)
    ensures NonEmpties(texts) == [] <==> forall i :: 0 <= i < |texts| ==> texts[i] == []
    decreases |texts|
  {
    if |texts| > 0 {
      NonEmptiesNone(texts[1..]);
      assert forall i :: 0 < i < |texts| ==> texts[i] == texts[1..][i - 1];
      assert forall i :: 0 <= i < |texts[1..]| ==> texts[1..][i] == texts[i + 1];
    }
  }

  lemma {:induction false} AllBeforeEmpty(texts: seq<Bytes>)
    ensures BeforeEmpty(texts) == NonEmpties(texts) <==> NothingAfterEmpty(texts)
    decreases |texts|
  {
    if |texts| > 0 {
      var rest := texts[1..];
      assert forall i :: 0 < i < |texts| ==> texts[i] == rest[i - 1];
      assert forall i :: 0 <= i < |rest| ==> rest[i] == texts[i + 1];
      if texts[0] == [] {
        NonEmptiesNone(rest);
      } else {
        AllBeforeEmpty(rest);
        SameHead(texts[0], BeforeEmpty(rest), NonEmpties(rest));
      }
    }
  }

  lemma {:induction false} SameHead(head: Bytes, a: seq<Bytes>, b: seq<Bytes>)
    ensures [head] + a == [head] + b <==> a == b
  {
    assert ([head] + a)[1..] == a && ([head] + b)[1..] == b;
  }

  /**
   A read that brings in all frames stops after the first one without text; the frames behind it stay in the buffer.
   */
  lemma {:induction false} ReadUpToEmpty(a: Aead, key: Bytes, counter: Counter, texts: seq<Bytes>, b: Bytes)
    requires Inverse(a) && SealAll(a, key, counter, texts) == Some(b)
    ensures var r := ReadAll(a, key, counter, b);
            !r.failed && r.texts == BeforeEmpty(texts) &&
                SealAll(a, key, r.counter, AfterEmpty(texts)) == Some(r.buffer)
    decreases |texts|
  {
    hide ReadOne, Open, Seal, LengthAt, CounterAfter;
    if |texts| == 0 {
      NothingAtAll(a, key, counter);
    } else {
      SealedFrame(a, key, counter, texts[0]);
      var frame := Seal(a, key, counter, texts[0]).value;
      var next := CounterAfter(counter, 1);
      var rest := SealAll(a, key, next, texts[1..]).value;
      FirstFrame(a, key, counter, frame, texts[0], b, [], rest);
      assert b + [] == b && rest + [] == rest;
      assert b[|frame|..] == rest;
      if texts[0] != [] {
        ReadUpToEmpty(a, key, next, texts[1..], rest);
        FirstThenOthers(a, key, counter, b, texts[0], next, rest);
      }
    }
  }

  /** Such a read delivers every text that carries something exactly when none of them stands behind an empty one. */
  lemma {:induction false} EmptyTextStalls(a: Aead, key: Bytes, counter: Counter, texts: seq<Bytes>, b: Bytes)
    requires Inverse(a) && SealAll(a, key, counter, texts) == Some(b)
    ensures ReadAll(a, key, counter, b).texts == NonEmpties(texts) <==> NothingAfterEmpty(texts)
  {
    ReadUpToEmpty(a, key, counter, texts, b);
    AllBeforeEmpty(texts);
  }

  const NO_TAG: Bytes := seq(TAG, _ => 0)

  /** The plainest pair of functions that meets what is known of sealing: a tag of zeros is put on and taken off. */
  function Unsealed(): Aead {
    Aead((key, nonce, text, header) => Some(text + NO_TAG),
         (key, nonce, sealed, header) => if |sealed| < TAG then None else Some(sealed[..|sealed| - TAG]))
  }

  lemma {:induction false} UnsealedInverse()
    ensures Inverse(Unsealed())
  {
    forall text: Bytes ensures (text + NO_TAG)[..|text|] == text {}
  }

  /** A text behind an empty one is there in full and is not delivered. */
  lemma {:induction false} StalledInput(key: Bytes)
    ensures Inverse(Unsealed())
    ensures var sealed := SealAll(Unsealed(), key, 0, [[], [1]]);
            sealed.Some? && ReadAll(Unsealed(), key, 0, sealed.value).texts == []
  {
    hide ReadOne, ReadAll, Nonce, LengthBytes, Inverse;
    var a, texts: seq<Bytes> := Unsealed(), [[], [1]];
    UnsealedInverse();
    assert texts[1..] == [[1]] && texts[1..][1..] == [];
    var sealed := SealAll(a, key, 0, texts);
    ReadUpToEmpty(a, key, 0, texts, sealed.value);
  }

  // ----- The wire -----

  lemma {:induction false} LittleEndianAt(value: nat, size: nat, i: nat)
    requires i < size
    ensures LittleEndian(value, size)[i] == value / Capacity(i) % 256
    decreases size
  {
    if i > 0 {
      LittleEndianAt(value / 256, size - 1, i - 1);
      DivideTwice(value, 256, Capacity(i - 1));
    }
  }

  /**
   A frame: the length of the text, low byte first, then what sealing gives under a nonce of four zero bytes and the
   eight bytes of the counter, low byte first, with the two length bytes as header.
   */
  lemma {:induction false} FrameForm(a: Aead, key: Bytes, counter: Counter, text: Bytes, nonce: Bytes)
    requires |nonce| == 12 && forall i :: 0 <= i < 4 ==> nonce[i] == 0
    requires forall i :: 0 <= i < 8 ==> nonce[4 + i] == counter / Capacity(i) % 256
    ensures Seal(a, key, counter, text) ==
            if |text| > 65535 then None
            else
              var header := [|text| % 256, |text| / 256];
              match a.seal(key, nonce, text, header)
              case None => None
              case Some(sealed) => Some(header + sealed)
  {
    forall i | 0 <= i < 8
      ensures LittleEndian(counter, 8)[i] == nonce[4 + i]
    {
      LittleEndianAt(counter, 8, i);
    }
    assert nonce == [0, 0, 0, 0] + LittleEndian(counter, 8);
  }
}

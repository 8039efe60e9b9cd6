/**
 What the bytes of any property list say, whoever wrote it: which files are opened, and what each of their objects is
 read as. Everything is said in numbers, in both directions.
 */
module PlistReading {
  import opened ByteStrings
  import opened PlistFormat
  import opened PlistBytes
  import opened PlistMeaning

  // ----- Numbers in a row -----

  /** The number of `width` bytes at this place. */
  function NumberAt(bytes: Bytes, at: nat, width: nat): nat {
    if at + width <= |bytes| then FromBigEndian(bytes[at..at + width]) else 0
  }

  /** These numbers, of equal width and all below the bound, stand one after the other. */
  ghost predicate NumbersAt(bytes: Bytes, at: nat, width: nat, numbers: seq<nat>, bound: nat) {
    && (numbers != [] ==> width <= 8 && at + |numbers| * width <= |bytes|)
    && forall k :: 0 <= k < |numbers| ==> numbers[k] == NumberAt(bytes, at + k * width, width) && numbers[k] < bound
  }

  lemma {:induction false} Shifted(k: nat, width: nat, at: nat)
    requires k > 0
    ensures at + k * width == (at + width) + (k - 1) * width
  {}

  lemma {:induction false} NumbersStep(bytes: Bytes, at: nat, width: nat, numbers: seq<nat>, bound: nat)
    requires numbers != [] && width > 0
    ensures NumbersAt(bytes, at, width, numbers, bound) <==>
            width <= 8 && at + width <= |bytes| && numbers[0] == NumberAt(bytes, at, width) && numbers[0] < bound &&
            NumbersAt(bytes, at + width, width, numbers[1..], bound)
  {
    hide NumberAt;
    var tail := numbers[1..];
    Shifted(|numbers|, width, at);
    assert 0 * width == 0;
    if NumbersAt(bytes, at, width, numbers, bound) {
      assert numbers[0] == NumberAt(bytes, at + 0 * width, width);
      assert |tail| * width >= 0;
      forall k | 0 <= k < |tail|
        ensures tail[k] == NumberAt(bytes, (at + width) + k * width, width) && tail[k] < bound
      {
        Shifted(k + 1, width, at);
        assert numbers[k + 1] == NumberAt(bytes, at + (k + 1) * width, width);
      }
    }
    if at + width <= |bytes| && numbers[0] == NumberAt(bytes, at, width) && numbers[0] < bound &&
       NumbersAt(bytes, at + width, width, tail, bound)
    {
      forall k | 0 <= k < |numbers|
        ensures numbers[k] == NumberAt(bytes, at + k * width, width) && numbers[k] < bound
      {
        if k > 0 {
          Shifted(k, width, at);
          assert tail[k - 1] == NumberAt(bytes, (at + width) + (k - 1) * width, width);
        }
      }
    }
  }

  lemma {:induction false} ReadIs(bytes: Bytes, at: nat, width: nat)
    ensures ReadBE(bytes, at, width) ==
            if width <= 8 && at + width <= |bytes| then Some(NumberAt(bytes, at, width)) else None
  {}

  /** The offset table is read exactly when all its numbers are there and small enough. */
  lemma {:induction false} OffsetsAre(
    bytes: Bytes, at: nat, width: nat, count: nat, bound: nat, numbers: seq<nat>)
    requires width > 0
    ensures ReadOffsets(bytes, at, width, count, bound) == Some(numbers) <==>
            |numbers| == count && NumbersAt(bytes, at, width, numbers, bound)
    decreases count
  {
    hide NumbersAt, NumberAt, ReadBE;
    if count == 0 {
      NoNumbers(bytes, at, width, bound);
    } else if |numbers| == 0 {
    } else {
      ReadIs(bytes, at, width);
      NumbersStep(bytes, at, width, numbers, bound);
      OffsetsAre(bytes, at + width, width, count - 1, bound, numbers[1..]);
      SplitHead(numbers);
      var rest := ReadOffsets(bytes, at + width, width, count - 1, bound);
      if rest.Some? && ReadBE(bytes, at, width).Some? {
        SameSplit(ReadBE(bytes, at, width).value, rest.value, numbers);
      }
    }
  }

  lemma {:induction false} NoNumbers(bytes: Bytes, at: nat, width: nat, bound: nat)
    ensures NumbersAt(bytes, at, width, [], bound)
  {}

  lemma {:induction false} SplitHead(numbers: seq<nat>)
    requires numbers != []
    ensures numbers == [numbers[0]] + numbers[1..]
  {}

  lemma {:induction false} SameSplit(first: nat, rest: seq<nat>, numbers: seq<nat>)
    requires numbers != []
    ensures [first] + rest == numbers <==> first == numbers[0] && rest == numbers[1..]
  {
    assert ([first] + rest)[1..] == rest;
  }

  lemma {:induction false} RefsAreOffsets(f: File, at: nat, count: nat)
    ensures ReadRefs(f, at, count) == ReadOffsets(f.bytes, at, f.refSize, count, |f.offsets|)
    decreases count
  {
    hide ReadBE;
    if count > 0 {
      RefsAreOffsets(f, at + f.refSize, count - 1);
    }
  }

  // ----- Objects -----

  /** The widths of numbers: one, two, four or eight bytes. */
  function Width(k: nat): nat
    requires k <= 3
  {
    if k == 0 then 1 else if k == 1 then 2 else if k == 2 then 4 else 8
  }

  /** A marker of this kind with this count; what is counted starts at `start`. */
  ghost predicate Counted(bytes: Bytes, at: nat, kind: nat, count: nat, start: nat) {
    at < |bytes| &&
    ((count < 15 && bytes[at] == 16 * kind + count && start == at + 1) ||
     exists k: nat :: k <= 3 && LongCount(bytes, at, kind, k) && start == at + 2 + Width(k) &&
                      count == NumberAt(bytes, at + 2, Width(k)))
  }

  ghost predicate LongCount(bytes: Bytes, at: nat, kind: nat, k: nat)
    requires k <= 3
  {
    at + 2 + Width(k) <= |bytes| && bytes[at] == 16 * kind + 15 && bytes[at + 1] == 0x10 + k
  }

  /** A number behind a marker that gives its width. */
  ghost predicate Numbered(bytes: Bytes, at: nat, marker: nat, k: nat, n: nat)
    requires k <= 3
  {
    at + 1 + Width(k) <= |bytes| && bytes[at] == marker + k && n == NumberAt(bytes, at + 1, Width(k))
  }

  ghost predicate SaysScalar(f: File, at: nat, v: Value) {
    at < |f.bytes| &&
    match v
    case Bool(truth) => f.bytes[at] == if truth then 9 else 8
    case Integer(n) => exists k: nat :: k <= 3 && Numbered(f.bytes, at, 0x10, k, n)
    case Real(bits) =>
      Numbered(f.bytes, at, 0x20, 3, bits) ||
      exists n: U32 :: Numbered(f.bytes, at, 0x20, 2, n) && bits == f.widen(n)
    case _ => false
  }

  ghost predicate SaysBulk(bytes: Bytes, at: nat, v: Value, cost: nat) {
    match v
    case Data(data) =>
      cost == |data| && exists start: nat :: Counted(bytes, at, 4, cost, start) && At(bytes, start, data)
    case Text(text) =>
      (cost == |text| && exists start: nat :: Counted(bytes, at, 5, cost, start) && At(bytes, start, text)) ||
      (cost % 3 == 0 && exists start: nat :: Counted(bytes, at, 6, cost / 3, start) &&
                                             UnitsAt(bytes, start, cost / 3, text))
    case _ => false
  }

  ghost predicate UnitsAt(bytes: Bytes, start: nat, count: nat, text: Bytes) {
    start + 2 * count <= |bytes| && text == UnitsText(bytes[start..start + 2 * count])
  }

  ghost predicate SaysRefs(f: File, at: nat, dictionary: bool, refs: seq<nat>) {
    && (dictionary ==> |refs| % 2 == 0)
    && exists start: nat ::
         Counted(f.bytes, at, if dictionary then 0xd else 0xa, if dictionary then |refs| / 2 else |refs|, start) &&
         NumbersAt(f.bytes, start, f.refSize, refs, |f.offsets|)
  }

  /** What the bytes at this place say, if they say anything. */
  ghost predicate Says(f: File, at: nat, s: Shape) {
    match s
    case Malformed => false
    case Scalar(v) => SaysScalar(f, at, v)
    case Bulk(v, cost) => SaysBulk(f.bytes, at, v, cost)
    case Refs(dictionary, refs) => SaysRefs(f, at, dictionary, refs)
  }

  lemma {:induction false} Widths(nibble: nat)
    ensures if nibble <= 3 then Power2(nibble) == Width(nibble) else Power2(nibble) > 8
    decreases nibble
  {
    if nibble > 3 {
      Widths(nibble - 1);
    } else {
      assert Power2(0) == 1 && Power2(1) == 2 && Power2(2) == 4 && Power2(3) == 8;
    }
  }

  /** A count is found exactly where there is one. */
  lemma {:induction false} CountIs(bytes: Bytes, at: nat, kind: nat, count: nat, start: nat)
    requires at < |bytes| && bytes[at] / 16 == kind
    ensures Count(bytes, at, bytes[at] % 16) == Some((count, start)) <==> Counted(bytes, at, kind, count, start)
  {
    hide NumberAt, ReadBE;
    var nibble := bytes[at] % 16;
    assert bytes[at] == 16 * kind + nibble;
    if nibble == 15 {
      if at + 2 <= |bytes| && bytes[at + 1] / 16 == 1 {
        var k := bytes[at + 1] % 16;
        assert bytes[at + 1] == 16 + k;
        Widths(k);
        ReadIs(bytes, at + 2, Power2(k));
        if k <= 3 && at + 2 + Width(k) <= |bytes| {
          assert LongCount(bytes, at, kind, k);
        }
      }
    }
  }

  lemma {:induction false} CountedKind(bytes: Bytes, at: nat, kind: nat, count: nat, start: nat)
    requires Counted(bytes, at, kind, count, start)
    ensures at < |bytes| && bytes[at] / 16 == kind && start <= |bytes|
  {}

  lemma {:induction false} NumberFits(bytes: Bytes, at: nat)
    ensures NumberAt(bytes, at, 4) < 0x1_0000_0000
  {
    if at + 4 <= |bytes| {
      FromBigEndianBound(bytes[at..at + 4]);
      assert Capacity(2) == 65536 && Capacity(3) == 256 * Capacity(2);
    }
  }

  // ----- One kind after the other -----

  lemma {:induction false} IntegerSays(f: File, i: nat, n: U64)
    requires ValidFile(f) && i < |f.offsets|
    ensures ReadShape(f, i) == Scalar(Integer(n)) <==> SaysScalar(f, f.offsets[i], Integer(n))
  {
    hide ReadBE, ReadCounted, NumberAt, Count;
    var at := f.offsets[i];
    var kind, nibble := f.bytes[at] / 16, f.bytes[at] % 16;
    assert f.bytes[at] == 16 * kind + nibble;
    Widths(nibble);
    ReadIs(f.bytes, at + 1, Power2(nibble));
    CountedAre(f, i);
    if ReadShape(f, i) == Scalar(Integer(n)) {
      assert kind == 1;
      assert ReadBE(f.bytes, at + 1, Power2(nibble)) == Some(n);
      assert nibble <= 3;
      assert Numbered(f.bytes, at, 0x10, nibble, n);
    }
    if SaysScalar(f, at, Integer(n)) {
      var k: nat :| k <= 3 && Numbered(f.bytes, at, 0x10, k, n);
      assert kind == 1 && nibble == k;
    }
  }

  /** A marker of kind three or more is never read as a number or a truth value. */
  lemma {:induction false} CountedAre(f: File, i: nat)
    requires ValidFile(f) && i < |f.offsets|
    ensures f.bytes[f.offsets[i]] / 16 >= 3 ==> !ReadShape(f, i).Scalar?
    ensures f.bytes[f.offsets[i]] / 16 < 3 ==> ReadShape(f, i).Scalar? || ReadShape(f, i) == Malformed
    ensures f.bytes[f.offsets[i]] / 16 == 0 ==>
              ReadShape(f, i) == Malformed || exists truth :: ReadShape(f, i) == Scalar(Bool(truth))
  {
    hide ReadBE, Count, ReadRefs, UnitsText;
  }

  lemma {:induction false} RealSays(f: File, i: nat, bits: U64)
    requires ValidFile(f) && i < |f.offsets|
    ensures ReadShape(f, i) == Scalar(Real(bits)) <==> SaysScalar(f, f.offsets[i], Real(bits))
  {
    hide ReadBE, ReadCounted, NumberAt, Count;
    var at := f.offsets[i];
    var kind, nibble := f.bytes[at] / 16, f.bytes[at] % 16;
    assert f.bytes[at] == 16 * kind + nibble;
    Widths(nibble);
    Widths(2);
    Widths(3);
    ReadIs(f.bytes, at + 1, Power2(nibble));
    NumberFits(f.bytes, at + 1);
    CountedAre(f, i);
    if ReadShape(f, i) == Scalar(Real(bits)) {
      assert kind == 2;
      assert ReadBE(f.bytes, at + 1, Power2(nibble)).Some?;
      assert nibble <= 3;
      assert kind == 2 && (nibble == 2 || nibble == 3);
      assert nibble == 2 ==> Numbered(f.bytes, at, 0x20, 2, NumberAt(f.bytes, at + 1, 4));
    }
    if SaysScalar(f, at, Real(bits)) {
      assert kind == 2 && (nibble == 2 || nibble == 3);
    }
  }

  lemma {:induction false} ScalarSays(f: File, i: nat, v: Value)
    requires ValidFile(f) && i < |f.offsets|
    ensures ReadShape(f, i) == Scalar(v) <==> SaysScalar(f, f.offsets[i], v)
  {
    match v
    case Bool(_) =>
      hide ReadBE, ReadCounted, Count;
      CountedAre(f, i);
    case Integer(n) => IntegerSays(f, i, n);
    case Real(bits) => RealSays(f, i, bits);
    case _ =>
      hide ReadBE, ReadCounted, Count;
      CountedAre(f, i);
  }

  /** What a marker with a count is read as. */
  lemma {:induction false} ShapeOfCount(f: File, i: nat, kind: nat, count: nat, start: nat)
    requires ValidFile(f) && i < |f.offsets| && kind >= 3 && Counted(f.bytes, f.offsets[i], kind, count, start)
    ensures ReadShape(f, i) == ReadCounted(f, kind, count, start) && start <= |f.bytes|
  {
    hide ReadBE, ReadCounted, Count, Counted;
    CountedKind(f.bytes, f.offsets[i], kind, count, start);
    CountIs(f.bytes, f.offsets[i], kind, count, start);
  }

  /** Whatever is read with a count has one. */
  lemma {:induction false} CountOf(f: File, i: nat) returns (count: nat, start: nat)
    requires ValidFile(f) && i < |f.offsets| && (ReadShape(f, i).Bulk? || ReadShape(f, i).Refs?)
    ensures var kind := f.bytes[f.offsets[i]] / 16;
            kind >= 3 && Counted(f.bytes, f.offsets[i], kind, count, start) &&
            ReadShape(f, i) == ReadCounted(f, kind, count, start)
  {
    hide ReadBE, ReadCounted, Counted;
    CountedAre(f, i);
    var at := f.offsets[i];
    var found := Count(f.bytes, at, f.bytes[at] % 16);
    count, start := found.value.0, found.value.1;
    CountIs(f.bytes, at, f.bytes[at] / 16, count, start);
  }

  lemma {:induction false} DataSays(f: File, i: nat, data: Bytes, cost: nat)
    requires ValidFile(f) && i < |f.offsets|
    ensures ReadShape(f, i) == Bulk(Data(data), cost) <==> SaysBulk(f.bytes, f.offsets[i], Data(data), cost)
  {
    hide ReadBE, Counted, ReadShape, ReadRefs, UnitsText;
    var at := f.offsets[i];
    if ReadShape(f, i) == Bulk(Data(data), cost) {
      var count, start := CountOf(f, i);
      assert At(f.bytes, start, data);
    }
    if SaysBulk(f.bytes, at, Data(data), cost) {
      var start: nat :| Counted(f.bytes, at, 4, cost, start) && At(f.bytes, start, data);
      ShapeOfCount(f, i, 4, cost, start);
    }
  }

  lemma {:induction false} TextSays(f: File, i: nat, text: Bytes, cost: nat)
    requires ValidFile(f) && i < |f.offsets|
    ensures ReadShape(f, i) == Bulk(Text(text), cost) <==> SaysBulk(f.bytes, f.offsets[i], Text(text), cost)
  {
    hide ReadBE, Counted, ReadShape, ReadRefs, UnitsText;
    var at := f.offsets[i];
    if ReadShape(f, i) == Bulk(Text(text), cost) {
      var count, start := CountOf(f, i);
      if f.bytes[at] / 16 == 5 {
        assert At(f.bytes, start, text);
      } else {
        assert f.bytes[at] / 16 == 6 && cost / 3 == count && UnitsAt(f.bytes, start, count, text);
      }
    }
    if SaysBulk(f.bytes, at, Text(text), cost) {
      if cost == |text| && exists start: nat :: Counted(f.bytes, at, 5, cost, start) && At(f.bytes, start, text) {
        var start: nat :| Counted(f.bytes, at, 5, cost, start) && At(f.bytes, start, text);
        ShapeOfCount(f, i, 5, cost, start);
      } else {
        var start: nat :| Counted(f.bytes, at, 6, cost / 3, start) && UnitsAt(f.bytes, start, cost / 3, text);
        ShapeOfCount(f, i, 6, cost / 3, start);
      }
    }
  }

  lemma {:induction false} BulkSays(f: File, i: nat, v: Value, cost: nat)
    requires ValidFile(f) && i < |f.offsets|
    ensures ReadShape(f, i) == Bulk(v, cost) <==> SaysBulk(f.bytes, f.offsets[i], v, cost)
  {
    match v
    case Data(data) => DataSays(f, i, data, cost);
    case Text(text) => TextSays(f, i, text, cost);
    case _ =>
      hide ReadBE, Counted, ReadShape, ReadRefs, UnitsText;
      if ReadShape(f, i) == Bulk(v, cost) {
        var count, start := CountOf(f, i);
      }
  }

  /** There is room for the references exactly when the tests of the decoder say so. */
  lemma {:induction false} Room(count: nat, refs: nat, width: nat, room: nat)
    requires width > 0 && (refs == count || refs == 2 * count)
    ensures refs * width <= room <==> count <= room / width && (refs == 2 * count ==> count <= room / (2 * width))
  {
    if refs * width <= room {
      RoomForRefs(count, refs, width, room);
    }
    if refs == 2 * count && count <= room / (2 * width) {
      ProductGrows(count, room / (2 * width), 2 * width);
      assert room / (2 * width) * (2 * width) <= room;
      assert refs * width == count * (2 * width);
    } else if refs == count && count <= room / width {
      ProductGrows(count, room / width, width);
      assert room / width * width <= room;
    }
  }

  lemma {:induction false} CountedRefsAre(f: File, dictionary: bool, count: nat, start: nat, refs: seq<nat>)
    requires f.refSize > 0 && start <= |f.bytes|
    ensures ReadCounted(f, if dictionary then 0xd else 0xa, count, start) == Refs(dictionary, refs) <==>
            |refs| == (if dictionary then 2 * count else count) &&
            NumbersAt(f.bytes, start, f.refSize, refs, |f.offsets|)
  {
    hide ReadRefs, ReadOffsets, NumberAt, UnitsText;
    var wanted := if dictionary then 2 * count else count;
    Room(count, wanted, f.refSize, |f.bytes| - start);
    RefsAreOffsets(f, start, wanted);
    OffsetsAre(f.bytes, start, f.refSize, wanted, |f.offsets|, refs);
    if |refs| == 0 {
      assert |refs| * f.refSize == 0;
    }
  }

  lemma {:induction false} RefsSay(f: File, i: nat, dictionary: bool, refs: seq<nat>)
    requires ValidFile(f) && i < |f.offsets|
    ensures ReadShape(f, i) == Refs(dictionary, refs) <==> SaysRefs(f, f.offsets[i], dictionary, refs)
  {
    hide ReadBE, Counted, ReadShape, ReadCounted, NumbersAt;
    var at, kind := f.offsets[i], if dictionary then 0xd else 0xa;
    if ReadShape(f, i) == Refs(dictionary, refs) {
      var count, start := CountOf(f, i);
      RefsKind(f, f.bytes[at] / 16, count, start);
      ShapeOfCount(f, i, kind, count, start);
      CountedRefsAre(f, dictionary, count, start, refs);
    }
    if SaysRefs(f, at, dictionary, refs) {
      var count := if dictionary then |refs| / 2 else |refs|;
      var start: nat :| Counted(f.bytes, at, kind, count, start) &&
        NumbersAt(f.bytes, start, f.refSize, refs, |f.offsets|);
      ShapeOfCount(f, i, kind, count, start);
      CountedRefsAre(f, dictionary, count, start, refs);
    }
  }

  lemma {:induction false} RefsKind(f: File, kind: nat, count: nat, start: nat)
    requires f.refSize > 0
    ensures var s := ReadCounted(f, kind, count, start); s.Refs? ==> kind == if s.dictionary then 0xd else 0xa
  {
    hide ReadRefs, UnitsText;
  }

  /** An object of a file is read as what its bytes say, and as malformed exactly when they say nothing. */
  lemma {:induction false} ReadAsSaid(f: File, i: nat, s: Shape)
    requires ValidFile(f) && i < |f.offsets| && s != Malformed
    ensures ReadShape(f, i) == s <==> Says(f, f.offsets[i], s)
  {
    hide ReadShape, SaysScalar, SaysBulk, SaysRefs;
    match s
    case Scalar(v) => ScalarSays(f, i, v);
    case Bulk(v, cost) => BulkSays(f, i, v, cost);
    case Refs(dictionary, refs) => RefsSay(f, i, dictionary, refs);
  }

  // ----- The file -----

  /**
   The bytes are a file with these objects: the magic word, and a trailer of 32 bytes that gives the widths of offsets
   and references, the number of objects, the top one, and the place of the offset table, which is wholly in the file
   and leads nowhere behind its own start.
   */
  ghost predicate IsFile(bytes: Bytes, f: File, top: nat) {
    && |bytes| >= 40 && bytes[..8] == [0x62, 0x70, 0x6c, 0x69, 0x73, 0x74, 0x30, 0x30] && f.bytes == bytes
    && var trailer, count := |bytes| - 32, |f.offsets|;
       var width, table := bytes[trailer + 6], NumberAt(bytes, trailer + 24, 8);
       && f.refSize == bytes[trailer + 7] > 0 && 0 < width
       && 0 < count == NumberAt(bytes, trailer + 8, 8) <= 65536
       && top == NumberAt(bytes, trailer + 16, 8) < count
       && table <= |bytes| && NumbersAt(bytes, table, width, f.offsets, table)
  }

  lemma {:induction false} OpenIs(bytes: Bytes, widen: U32 -> U64)
    requires |bytes| >= 40 && bytes[..8] == MAGIC
    ensures var trailer := |bytes| - 32;
            Open(bytes, widen) ==
            OpenWith(bytes, widen, bytes[trailer + 6], bytes[trailer + 7], NumberAt(bytes, trailer + 8, 8),
                     NumberAt(bytes, trailer + 16, 8), NumberAt(bytes, trailer + 24, 8))
  {
    hide OpenWith;
    var trailer := |bytes| - 32;
    assert bytes[trailer + 24..trailer + 32] == bytes[trailer + 24..];
  }

  lemma {:induction false} OpenWithIs(
    bytes: Bytes, widen: U32 -> U64, width: nat, refSize: nat, count: nat, top: nat, table: nat, offsets: seq<nat>)
    ensures OpenWith(bytes, widen, width, refSize, count, top, table) ==
                Some((File(bytes, refSize, offsets, widen), top)) <==>
            refSize > 0 && width > 0 && 0 < count <= 65536 && top < count && table <= |bytes| && |offsets| == count &&
            NumbersAt(bytes, table, width, offsets, table)
  {
    hide ReadOffsets, NumberAt;
    if width > 0 && table <= |bytes| {
      Room(count, count, width, |bytes| - table);
      OffsetsAre(bytes, table, width, count, table, offsets);
    }
  }

  lemma {:induction false} OpenWithGives(
    bytes: Bytes, widen: U32 -> U64, width: nat, refSize: nat, count: nat, top: nat, table: nat)
    ensures var r := OpenWith(bytes, widen, width, refSize, count, top, table);
            r.Some? ==> r.value.1 == top && r.value.0.bytes == bytes && r.value.0.refSize == refSize &&
                        r.value.0.widen == widen
  {
    hide ReadOffsets;
  }

  /** Exactly the files are opened. */
  lemma {:induction false} OpenedExactly(bytes: Bytes, widen: U32 -> U64, f: File, top: nat)
    ensures Open(bytes, widen) == Some((f, top)) <==> IsFile(bytes, f, top) && f.widen == widen
  {
    hide OpenWith, NumberAt, NumbersAt;
    if |bytes| >= 40 && bytes[..8] == MAGIC {
      hide Open;
      var trailer := |bytes| - 32;
      OpenIs(bytes, widen);
      var count, first := NumberAt(bytes, trailer + 8, 8), NumberAt(bytes, trailer + 16, 8);
      var table := NumberAt(bytes, trailer + 24, 8);
      OpenWithIs(bytes, widen, bytes[trailer + 6], bytes[trailer + 7], count, first, table, f.offsets);
      OpenWithGives(bytes, widen, bytes[trailer + 6], bytes[trailer + 7], count, first, table);
    }
  }

  // ----- The whole meaning -----

  /** The table lists what the bytes of each object say; an object is malformed when they say nothing. */
  ghost predicate Listed(f: File, t: seq<Shape>) {
    |t| == |f.offsets| && forall i, s :: 0 <= i < |t| && s != Malformed ==> (t[i] == s <==> Says(f, f.offsets[i], s))
  }

  lemma {:induction false} ShapesListed(f: File)
    requires ValidFile(f)
    ensures Listed(f, Shapes(f))
  {
    hide Says, ReadShape;
    forall i, s | 0 <= i < |f.offsets| && s != Malformed
      ensures Shapes(f)[i] == s <==> Says(f, f.offsets[i], s)
    {
      ReadAsSaid(f, i, s);
    }
  }

  lemma {:induction false} ListedOnce(f: File, t: seq<Shape>, u: seq<Shape>)
    requires Listed(f, t) && Listed(f, u)
    ensures t == u
  {
    hide Says;
    forall i | 0 <= i < |t|
      ensures t[i] == u[i]
    {
      if t[i] != Malformed {
        assert Says(f, f.offsets[i], t[i]);
      }
      if u[i] != Malformed {
        assert Says(f, f.offsets[i], u[i]);
      }
    }
  }

  /** The bytes are a file whose top object denotes this tree, which is within the three budgets. */
  ghost predicate BytesDenote(bytes: Bytes, f: File, top: nat, t: seq<Shape>, r: Tree) {
    IsFile(bytes, f, top) && Listed(f, t) && Denotes(t, top, r) && Height(r) <= 64 && Nodes(r) <= 65536 &&
    Cost(r) <= 8388608
  }

  ghost predicate BytesMean(bytes: Bytes, widen: U32 -> U64, v: Value) {
    exists f, top, t, r :: BytesDenote(bytes, f, top, t, r) && f.widen == widen && Means(r, v)
  }

  /**
   Any bytes at all, whoever wrote them: they are decoded to a value exactly when they are a file whose top object, by
   what the bytes say, denotes within the budgets a tree that means this value.
   */
  lemma {:induction false} DecodedAsSaid(bytes: Bytes, widen: U32 -> U64, v: Value)
    ensures Decode(bytes, widen) == Some(v) <==> BytesMean(bytes, widen, v)
  {
    hide Decode, Open, IsFile, Listed, Shapes, Denotes, Means, Height, Nodes, Cost;
    DecodedMeaning(bytes, widen, v);
    if exists r :: FileDenotes(bytes, widen, r) && Means(r, v) {
      var r :| FileDenotes(bytes, widen, r) && Means(r, v);
      var (f, top) := Open(bytes, widen).value;
      OpenedExactly(bytes, widen, f, top);
      ShapesListed(f);
      assert BytesDenote(bytes, f, top, Shapes(f), r);
    }
    if BytesMean(bytes, widen, v) {
      var f, top, t, r :| BytesDenote(bytes, f, top, t, r) && f.widen == widen && Means(r, v);
      OpenedExactly(bytes, widen, f, top);
      ShapesListed(f);
      ListedOnce(f, t, Shapes(f));
      assert FileDenotes(bytes, widen, r);
    }
  }
}

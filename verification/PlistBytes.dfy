/**
 The byte layer of a property list: reading a node gives the object it was written for, wherever it lies in the file.
 */
module PlistBytes {
  import opened ByteStrings
  import opened PlistFormat
  import opened PlistStructure

  // ----- Parts of a byte string -----

  /** `part` lies in `bytes` from `at` on. */
  ghost predicate At(bytes: Bytes, at: nat, part: Bytes) {
    at + |part| <= |bytes| && bytes[at..at + |part|] == part
  }

  lemma {:induction false} AtParts(bytes: Bytes, at: nat, a: Bytes, b: Bytes)
    requires At(bytes, at, a + b)
    ensures At(bytes, at, a) && At(bytes, at + |a|, b)
  {
    assert bytes[at..at + |a|] == bytes[at..at + |a + b|][..|a|];
    assert bytes[at + |a|..at + |a| + |b|] == bytes[at..at + |a + b|][|a|..];
  }

  lemma {:induction false} AtFits(bytes: Bytes, at: nat, part: Bytes)
    requires At(bytes, at, part)
    ensures at + |part| <= |bytes|
  {}

  lemma {:induction false} AtIndex(bytes: Bytes, at: nat, part: Bytes, i: nat)
    requires At(bytes, at, part) && i < |part|
    ensures bytes[at + i] == part[i]
  {
    assert bytes[at..at + |part|][i] == part[i];
  }

  lemma {:induction false} AtMiddle(before: Bytes, part: Bytes, after: Bytes)
    ensures At(before + part + after, |before|, part)
  {}

  lemma {:induction false} NumberReads(bytes: Bytes, at: nat, value: nat, width: nat)
    requires width <= 8 && value < Capacity(width) && At(bytes, at, BigEndian(value, width))
    ensures ReadBE(bytes, at, width) == Some(value)
  {
    BigEndianRoundTrip(value, width);
  }

  // ----- One node -----

  lemma {:induction false} CountReads(bytes: Bytes, at: nat, kind: nat, count: U64)
    requires kind < 16 && At(bytes, at, CountMarker(kind, count))
    ensures bytes[at] / 16 == kind
    ensures Count(bytes, at, bytes[at] % 16) == Some((count, at + |CountMarker(kind, count)|))
  {
    var marker := CountMarker(kind, count);
    AtIndex(bytes, at, marker, 0);
    if count >= 15 {
      var size := BytesFor(count);
      AtIndex(bytes, at, marker, 1);
      AtParts(bytes, at, [kind * 16 + 15, 0x10 + Log2Bytes(size)], BigEndian(count, size));
      PowerOfLog(count);
      WidthHolds(count);
      NumberReads(bytes, at + 2, count, size);
    }
  }

  lemma {:induction false} TableLength(numbers: seq<nat>, width: nat)
    ensures |Table(numbers, width)| == |numbers| * width
  {
    if numbers != [] {
      TableLength(numbers[1..], width);
      assert |numbers| * width == width + |numbers[1..]| * width;
    }
  }

  lemma {:induction false} RefsRead(f: File, at: nat, refs: seq<nat>)
    requires f.refSize <= 8 && |f.offsets| <= Capacity(f.refSize)
    requires forall k :: 0 <= k < |refs| ==> refs[k] < |f.offsets|
    requires At(f.bytes, at, Table(refs, f.refSize))
    ensures ReadRefs(f, at, |refs|) == Some(refs)
    decreases |refs|
  {
    hide BigEndian, ReadBE, At, Capacity;
    if |refs| > 0 {
      AtParts(f.bytes, at, BigEndian(refs[0], f.refSize), Table(refs[1..], f.refSize));
      NumberReads(f.bytes, at, refs[0], f.refSize);
      RefsRead(f, at + f.refSize, refs[1..]);
      assert refs == [refs[0]] + refs[1..];
    }
  }

  lemma {:induction false} ProductGrows(a: nat, b: nat, width: nat)
    requires a <= b
    ensures a * width <= b * width
  {}

  lemma {:induction false} QuotientHolds(n: nat, width: nat, room: nat)
    requires width > 0 && n * width <= room
    ensures n <= room / width
  {
    var q := room / width;
    if n > q {
      ProductGrows(q + 1, n, width);
    }
  }

  /** The objects that occur when a value is numbered: strings charge their length, and numbers point into the table. */
  ghost predicate Codable(s: Shape, count: nat) {
    match s
    case Malformed => false
    case Scalar(v) => v.Bool? || v.Integer? || v.Real?
    case Bulk(v, cost) => (v.Text? && cost == |v.text| < TWO64) || (v.Data? && cost == |v.data| < TWO64)
    case Refs(dictionary, refs) =>
      && (dictionary ==> |refs| % 2 == 0) && |refs| < TWO64
      && forall k :: 0 <= k < |refs| ==> refs[k] < count
  }

  ghost predicate Holds(f: File, i: nat, s: Shape)
    requires i < |f.offsets|
  {
    At(f.bytes, f.offsets[i], NodeBytes(NodeOf(s), f.refSize))
  }

  lemma {:induction false} ScalarReads(f: File, i: nat, s: Shape)
    requires ValidFile(f) && i < |f.offsets| && s.Scalar? && Codable(s, |f.offsets|) && Holds(f, i, s)
    ensures ReadShape(f, i) == s
  {
    hide BigEndian, ReadBE, Capacity;
    var at, bytes := f.offsets[i], NodeOf(s).bytes;
    AtParts(f.bytes, at, bytes, []);
    AtIndex(f.bytes, at, bytes, 0);
    match s.value
    case Bool(_) =>
    case Integer(n) => IntegerReads(f.bytes, at, n);
    case Real(bits) =>
      AtParts(f.bytes, at, [0x23], BigEndian(bits, 8));
      assert Power2(3) == 8 by { assert Power2(2) == 4; }
      EightByteCapacity();
      NumberReads(f.bytes, at + 1, bits, 8);
  }

  lemma {:induction false} IntegerReads(bytes: Bytes, at: nat, n: U64)
    requires At(bytes, at, [0x10 + Log2Bytes(BytesFor(n))] + BigEndian(n, BytesFor(n)))
    ensures ReadBE(bytes, at + 1, BytesFor(n)) == Some(n) && Power2(Log2Bytes(BytesFor(n))) == BytesFor(n)
  {
    hide BigEndian, ReadBE, Capacity;
    AtParts(bytes, at, [0x10 + Log2Bytes(BytesFor(n))], BigEndian(n, BytesFor(n)));
    PowerOfLog(n);
    WidthHolds(n);
    NumberReads(bytes, at + 1, n, BytesFor(n));
  }

  /** The kinds with a count are decided by the count and what follows it. */
  lemma {:induction false} ShapeCounted(f: File, i: nat, kind: nat, count: U64)
    requires ValidFile(f) && i < |f.offsets| && 3 <= kind < 16 && At(f.bytes, f.offsets[i], CountMarker(kind, count))
    ensures ReadShape(f, i) == ReadCounted(f, kind, count, f.offsets[i] + |CountMarker(kind, count)|)
  {
    CountReads(f.bytes, f.offsets[i], kind, count);
  }

  lemma {:induction false} CountedBulk(f: File, kind: nat, at: nat, content: Bytes)
    requires f.refSize > 0 && kind in {4, 5} && At(f.bytes, at, content)
    ensures ReadCounted(f, kind, |content|, at) == Bulk(if kind == 4 then Data(content) else Text(content), |content|)
  {}

  lemma {:induction false} BulkReads(f: File, i: nat, s: Shape)
    requires ValidFile(f) && i < |f.offsets| && s.Bulk? && Codable(s, |f.offsets|) && Holds(f, i, s)
    ensures ReadShape(f, i) == s
  {
    hide BigEndian, Capacity, ReadBE, ReadShape, ReadCounted;
    var at, v := f.offsets[i], s.value;
    var kind, content := if v.Text? then 5 else 4, if v.Text? then v.text else v.data;
    var marker := CountMarker(kind, |content|);
    assert NodeBytes(NodeOf(s), f.refSize) == marker + content;
    AtParts(f.bytes, at, marker, content);
    ShapeCounted(f, i, kind, |content|);
    CountedBulk(f, kind, at + |marker|, content);
  }

  lemma {:induction false} CountedRefs(f: File, kind: nat, count: nat, at: nat, refs: seq<nat>)
    requires 0 < f.refSize <= 8 && |f.offsets| <= Capacity(f.refSize)
    requires forall k :: 0 <= k < |refs| ==> refs[k] < |f.offsets|
    requires At(f.bytes, at, Table(refs, f.refSize))
    requires (kind == 0xa && |refs| == count) || (kind == 0xd && |refs| == 2 * count)
    ensures ReadCounted(f, kind, count, at) == Refs(kind == 0xd, refs)
  {
    hide At, Capacity, BigEndian, ReadRefs;
    RefsRead(f, at, refs);
    AtFits(f.bytes, at, Table(refs, f.refSize));
    TableLength(refs, f.refSize);
    RoomForRefs(count, |refs|, f.refSize, |f.bytes| - at);
  }

  lemma {:induction false} RoomForRefs(count: nat, refs: nat, width: nat, room: nat)
    requires width > 0 && refs * width <= room && (refs == count || refs == 2 * count)
    ensures count <= room / width
    ensures refs == 2 * count ==> count <= room / (2 * width)
  {
    ProductGrows(count, refs, width);
    QuotientHolds(count, width, room);
    if refs == 2 * count {
      assert refs * width == count * (2 * width);
      QuotientHolds(count, 2 * width, room);
    }
  }

  lemma {:induction false} RefsShapeReads(f: File, i: nat, s: Shape)
    requires ValidFile(f) && f.refSize <= 8 && |f.offsets| <= Capacity(f.refSize)
    requires i < |f.offsets| && s.Refs? && Codable(s, |f.offsets|) && Holds(f, i, s)
    ensures ReadShape(f, i) == s
  {
    hide BigEndian, Capacity, ReadBE, Table, ReadCounted;
    var at := f.offsets[i];
    var kind, count := if s.dictionary then 0xd else 0xa, if s.dictionary then |s.refs| / 2 else |s.refs|;
    var marker := CountMarker(kind, count);
    assert NodeOf(s) == Node(marker, s.refs);
    AtParts(f.bytes, at, marker, Table(s.refs, f.refSize));
    assert |s.refs| == if s.dictionary then 2 * count else count;
    ShapeCounted(f, i, kind, count);
    CountedRefs(f, kind, count, at + |marker|, s.refs);
  }

  /** Reading a node gives back the object it was written for. */
  lemma {:induction false} NodeReads(f: File, i: nat, s: Shape)
    requires ValidFile(f) && f.refSize <= 8 && |f.offsets| <= Capacity(f.refSize)
    requires i < |f.offsets| && Codable(s, |f.offsets|) && Holds(f, i, s)
    ensures ReadShape(f, i) == s
  {
    if s.Scalar? {
      ScalarReads(f, i, s);
    } else if s.Bulk? {
      BulkReads(f, i, s);
    } else {
      RefsShapeReads(f, i, s);
    }
  }

  // ----- Every object of a value can be written -----

  lemma {:induction false} StartsBelow(vs: seq<Value>, base: nat)
    ensures forall k :: 0 <= k < |Starts(vs, base)| ==> Starts(vs, base)[k] < base + Sizes(vs)
    decreases vs
  {
    if vs != [] {
      StartsBelow(vs[1..], base + Size(vs[0]));
      assert Starts(vs, base)[1..] == Starts(vs[1..], base + Size(vs[0]));
    }
  }

  lemma {:induction false} RangeBelow(from: nat, count: nat)
    ensures forall k :: 0 <= k < |Range(from, count)| ==> Range(from, count)[k] < from + count
    decreases count
  {
    if count > 0 {
      RangeBelow(from + 1, count - 1);
      assert Range(from, count)[1..] == Range(from + 1, count - 1);
    }
  }

  ghost predicate AllCodable(shapes: seq<Shape>, count: nat) {
    forall k :: 0 <= k < |shapes| ==> Codable(shapes[k], count)
  }

  lemma {:induction false} AllCodableJoin(a: seq<Shape>, b: seq<Shape>, count: nat)
    requires AllCodable(a, count) && AllCodable(b, count)
    ensures AllCodable(a + b, count)
  {}

  lemma {:induction false} FlattenCodable(v: Value, base: nat, count: nat)
    requires WellFormed(v) && base + Size(v) <= count < TWO64 && Payload(v) < TWO64
    ensures AllCodable(Flatten(v, base), count)
    decreases v, 1
  {
    match v
    case Array(items) =>
      StartsBelow(items, base + 1);
      FlattenAllCodable(items, base + 1, count);
      AllCodableJoin([Refs(false, Starts(items, base + 1))], FlattenAll(items, base + 1), count);
    case Dictionary(keys, values) =>
      var first := base + 1 + |keys|;
      var head := [Refs(true, Range(base + 1, |keys|) + Starts(values, first))];
      StartsBelow(values, first);
      RangeBelow(base + 1, |keys|);
      KeysCodable(keys, count);
      FlattenAllCodable(values, first, count);
      AllCodableJoin(head, TextShapes(keys), count);
      AllCodableJoin(head + TextShapes(keys), FlattenAll(values, first), count);
    case _ =>
  }

  lemma {:induction false} KeysCodable(keys: seq<Bytes>, count: nat)
    requires Lengths(keys) < TWO64
    ensures AllCodable(TextShapes(keys), count)
  {
    if keys != [] {
      KeysCodable(keys[1..], count);
      AllCodableJoin([TextShape(keys[0])], TextShapes(keys[1..]), count);
    }
  }

  lemma {:induction false} FlattenAllCodable(vs: seq<Value>, base: nat, count: nat)
    requires (forall x <- vs :: WellFormed(x)) && base + Sizes(vs) <= count < TWO64 && Payloads(vs) < TWO64
    ensures AllCodable(FlattenAll(vs, base), count)
    decreases vs, 0
  {
    if vs != [] {
      FlattenCodable(vs[0], base, count);
      FlattenAllCodable(vs[1..], base + Size(vs[0]), count);
      AllCodableJoin(Flatten(vs[0], base), FlattenAll(vs[1..], base + Size(vs[0])), count);
    }
  }

  // ----- The file -----

  /** Every node lies where its offset says, whatever surrounds the nodes. */
  lemma {:induction false} BodyLaid(before: Bytes, nodes: seq<Node>, after: Bytes, refSize: nat, i: nat)
    requires i < |nodes|
    ensures var at := Offsets(nodes, refSize, |before|)[i];
            && At(before + Body(nodes, refSize) + after, at, NodeBytes(nodes[i], refSize))
            && at + |NodeBytes(nodes[i], refSize)| <= |before| + |Body(nodes, refSize)|
    decreases |nodes|
  {
    var first, rest := NodeBytes(nodes[0], refSize), nodes[1..];
    var body := Body(rest, refSize);
    assert before + (first + body) + after == (before + first) + body + after;
    if i == 0 {
      assert before + (first + body) + after == before + first + (body + after);
      AtMiddle(before, first, body + after);
    } else {
      BodyLaid(before + first, rest, after, refSize, i - 1);
      assert Offsets(nodes, refSize, |before|)[i] == Offsets(rest, refSize, |before + first|)[i - 1];
    }
  }

  lemma {:induction false} OffsetsRead(bytes: Bytes, at: nat, width: nat, offsets: seq<nat>, table: nat)
    requires width <= 8 && At(bytes, at, Table(offsets, width))
    requires forall i :: 0 <= i < |offsets| ==> offsets[i] < table <= Capacity(width)
    ensures ReadOffsets(bytes, at, width, |offsets|, table) == Some(offsets)
    decreases |offsets|
  {
    if |offsets| > 0 {
      AtParts(bytes, at, BigEndian(offsets[0], width), Table(offsets[1..], width));
      NumberReads(bytes, at, offsets[0], width);
      OffsetsRead(bytes, at + width, width, offsets[1..], table);
      assert offsets == [offsets[0]] + offsets[1..];
    }
  }

  lemma {:induction false} TrailerReads(head: Bytes, offsetSize: nat, refSize: nat, count: U64, top: U64, table: U64)
    requires offsetSize < 256 && refSize < 256
    ensures var bytes := head + Trailer(offsetSize, refSize, count, top, table);
            var t := |bytes| - 32;
            && t == |head|
            && bytes[t + 6] == offsetSize && bytes[t + 7] == refSize
            && FromBigEndian(bytes[t + 8..t + 16]) == count
            && FromBigEndian(bytes[t + 16..t + 24]) == top
            && FromBigEndian(bytes[t + 24..]) == table
  {
    hide BigEndian, FromBigEndian;
    var trailer := Trailer(offsetSize, refSize, count, top, table);
    EightByteCapacity();
    BigEndianRoundTrip(count, 8);
    BigEndianRoundTrip(top, 8);
    BigEndianRoundTrip(table, 8);
    TrailerParts(PADDING + [offsetSize, refSize], BigEndian(count, 8), BigEndian(top, 8), BigEndian(table, 8));
    SliceBehind(head, trailer, 8, 16);
    SliceBehind(head, trailer, 16, 24);
    SliceBehind(head, trailer, 24, 32);
    assert (head + trailer)[|head| + 24..] == (head + trailer)[|head| + 24..|head| + 32];
  }

  lemma {:induction false} SliceBehind(head: Bytes, tail: Bytes, i: nat, j: nat)
    requires i <= j <= |tail|
    ensures (head + tail)[|head| + i..|head| + j] == tail[i..j]
  {}

  lemma {:induction false} TrailerParts(a: Bytes, b: Bytes, c: Bytes, d: Bytes)
    requires |a| == 8 && |b| == 8 && |c| == 8 && |d| == 8
    ensures var whole := a + b + c + d; whole[8..16] == b && whole[16..24] == c && whole[24..32] == d
  {}

  lemma {:induction false} OffsetsBelow(nodes: seq<Node>, refSize: nat)
    requires forall i :: 0 <= i < |nodes| ==> nodes[i].bytes != []
    ensures forall i :: 0 <= i < |nodes| ==> Offsets(nodes, refSize, 8)[i] < |MAGIC + Body(nodes, refSize)|
  {
    forall i | 0 <= i < |nodes|
      ensures Offsets(nodes, refSize, 8)[i] < |MAGIC + Body(nodes, refSize)|
    {
      BodyLaid(MAGIC, nodes, [], refSize, i);
    }
  }

  lemma {:induction false} TrailerOpens(
    head: Bytes, offsetSize: nat, refSize: nat, count: U64, top: U64, table: U64, widen: U32 -> U64)
    requires offsetSize < 256 && refSize < 256 && |head| >= 8 && head[..8] == MAGIC
    ensures var bytes := head + Trailer(offsetSize, refSize, count, top, table);
            Open(bytes, widen) == OpenWith(bytes, widen, offsetSize, refSize, count, top, table)
  {
    TrailerReads(head, offsetSize, refSize, count, top, table);
    assert (head + Trailer(offsetSize, refSize, count, top, table))[..8] == head[..8];
  }

  lemma {:induction false} RoomForOffsets(offsets: seq<nat>, width: nat, room: nat)
    requires width > 0 && |offsets| > 0 && room == |Table(offsets, width)| + 32
    ensures |offsets| <= room / width && room >= 33
  {
    TableLength(offsets, width);
    ProductGrows(1, |offsets|, width);
    QuotientHolds(|offsets|, width, room);
  }

  /** A file that ends in an offset table and a trailer opens to just these. */
  lemma {:induction false} FileOpens(body: Bytes, offsets: seq<nat>, refSize: nat, top: nat, widen: U32 -> U64)
    requires 8 <= |body| < TWO64 && body[..8] == MAGIC && 0 < refSize < 256 && top < |offsets| <= MAX_NODES
    requires forall i :: 0 <= i < |offsets| ==> offsets[i] < |body|
    ensures var width := BytesFor(|body|);
            var bytes := body + Table(offsets, width) + Trailer(width, refSize, |offsets|, top, |body|);
            Open(bytes, widen) == Some((File(bytes, refSize, offsets, widen), top))
  {
    var width := BytesFor(|body|);
    var table, trailer := Table(offsets, width), Trailer(width, refSize, |offsets|, top, |body|);
    var bytes := body + table + trailer;
    assert (body + table)[..8] == body[..8];
    TrailerOpens(body + table, width, refSize, |offsets|, top, |body|, widen);
    RoomForOffsets(offsets, width, |bytes| - |body|);
    assert ReadOffsets(bytes, |body|, width, |offsets|, |body|) == Some(offsets) by {
      WidthHolds(|body|);
      AtMiddle(body, table, trailer);
      OffsetsRead(bytes, |body|, width, offsets, |body|);
    }
  }

  /** Opening a finished file finds its offset table and its top object. */
  lemma {:induction false} FinishOpens(nodes: seq<Node>, top: nat, widen: U32 -> U64)
    requires top < |nodes| <= MAX_NODES
    requires forall i :: 0 <= i < |nodes| ==> nodes[i].bytes != []
    requires |MAGIC| + |Body(nodes, BytesFor(|nodes| - 1))| < TWO64
    ensures var refSize := BytesFor(|nodes| - 1);
            Open(Finish(nodes, top), widen) ==
                Some((File(Finish(nodes, top), refSize, Offsets(nodes, refSize, 8), widen), top))
  {
    var refSize := BytesFor(|nodes| - 1);
    OffsetsBelow(nodes, refSize);
    FileOpens(MAGIC + Body(nodes, refSize), Offsets(nodes, refSize, 8), refSize, top, widen);
  }

  // ----- Length of the file -----

  lemma {:induction false} BodyAppend(a: seq<Node>, b: seq<Node>, refSize: nat)
    ensures Body(a + b, refSize) == Body(a, refSize) + Body(b, refSize)
    decreases |a|
  {
    if a == [] {
      assert a + b == b;
    } else {
      assert (a + b)[1..] == a[1..] + b;
      BodyAppend(a[1..], b, refSize);
    }
  }

  function BodyOf(shapes: seq<Shape>, refSize: nat): Bytes { Body(NodesOf(shapes), refSize) }

  lemma {:induction false} BodyOfJoin(a: seq<Shape>, b: seq<Shape>, refSize: nat)
    ensures |BodyOf(a + b, refSize)| == |BodyOf(a, refSize)| + |BodyOf(b, refSize)|
  {
    assert NodesOf(a + b) == NodesOf(a) + NodesOf(b);
    BodyAppend(NodesOf(a), NodesOf(b), refSize);
  }

  lemma {:induction false} BodyOfOne(s: Shape, refSize: nat)
    requires refSize <= 8
    ensures |BodyOf([s], refSize)| <= 10 + (if s.Refs? then 8 * |s.refs| else 0) +
            (if s.Bulk? && s.value.Text? then |s.value.text|
             else if s.Bulk? && s.value.Data? then |s.value.data| else 0)
  {
    var node := NodeOf(s);
    assert NodesOf([s]) == [node];
    assert Body([node], refSize) == NodeBytes(node, refSize) + Body([node][1..], refSize);
    TableLength(node.refs, refSize);
    ProductGrows(refSize, 8, |node.refs|);
  }

  lemma {:induction false} BodyLength(v: Value, base: nat, refSize: nat)
    requires WellFormed(v) && refSize <= 8
    ensures |BodyOf(Flatten(v, base), refSize)| + 8 <= 18 * Size(v) + Payload(v)
    decreases v, 1
  {
    hide NodeBytes, BodyOf;
    match v
    case Array(items) =>
      var head := Refs(false, Starts(items, base + 1));
      BodyOfOne(head, refSize);
      BodyLengths(items, base + 1, refSize);
      BodyOfJoin([head], FlattenAll(items, base + 1), refSize);
    case Dictionary(keys, values) =>
      var first := base + 1 + |keys|;
      var head := Refs(true, Range(base + 1, |keys|) + Starts(values, first));
      BodyOfOne(head, refSize);
      KeysLength(keys, refSize);
      BodyLengths(values, first, refSize);
      BodyOfJoin([head], TextShapes(keys), refSize);
      BodyOfJoin([head] + TextShapes(keys), FlattenAll(values, first), refSize);
    case _ => BodyOfOne(Flatten(v, base)[0], refSize);
  }

  lemma {:induction false} KeysLength(keys: seq<Bytes>, refSize: nat)
    requires refSize <= 8
    ensures |BodyOf(TextShapes(keys), refSize)| <= 10 * |keys| + Lengths(keys)
  {
    if keys == [] {
      assert NodesOf(TextShapes(keys)) == [];
    } else {
      BodyOfOne(TextShape(keys[0]), refSize);
      KeysLength(keys[1..], refSize);
      BodyOfJoin([TextShape(keys[0])], TextShapes(keys[1..]), refSize);
    }
  }

  lemma {:induction false} BodyLengths(vs: seq<Value>, base: nat, refSize: nat)
    requires (forall x <- vs :: WellFormed(x)) && refSize <= 8
    ensures |BodyOf(FlattenAll(vs, base), refSize)| + 8 * |vs| <= 18 * Sizes(vs) + Payloads(vs)
    decreases vs, 0
  {
    if vs == [] {
      assert NodesOf(FlattenAll(vs, base)) == [];
    } else {
      BodyLength(vs[0], base, refSize);
      BodyLengths(vs[1..], base + Size(vs[0]), refSize);
      BodyOfJoin(Flatten(vs[0], base), FlattenAll(vs[1..], base + Size(vs[0])), refSize);
    }
  }

  // ----- Round trip -----

  /** The limits the decoder imposes. */
  ghost predicate WithinLimits(v: Value) {
    WellFormed(v) && Depth(v) <= MAX_DEPTH && Size(v) <= MAX_NODES && Payload(v) <= MAX_BYTES
  }

  /** Every object of a finished file reads back as it was. */
  lemma {:induction false} FinishedShape(shapes: seq<Shape>, top: nat, f: File, i: nat)
    requires i < |shapes| <= MAX_NODES && ValidFile(f) && Codable(shapes[i], |shapes|)
    requires f.refSize == BytesFor(|shapes| - 1) && f.bytes == Finish(NodesOf(shapes), top)
    requires f.offsets == Offsets(NodesOf(shapes), f.refSize, 8)
    ensures ReadShape(f, i) == shapes[i]
  {
    FinishLays(NodesOf(shapes), top, i);
    WidthHolds(|shapes| - 1);
    NodeReads(f, i, shapes[i]);
  }

  lemma {:induction false} FinishLays(nodes: seq<Node>, top: nat, i: nat)
    requires i < |nodes|
    ensures var refSize := BytesFor(|nodes| - 1);
            At(Finish(nodes, top), Offsets(nodes, refSize, 8)[i], NodeBytes(nodes[i], refSize))
  {
    var refSize := BytesFor(|nodes| - 1);
    var body := MAGIC + Body(nodes, refSize);
    var width := BytesFor(|body|);
    var after := Table(Offsets(nodes, refSize, 8), width) + Trailer(width, refSize, |nodes|, top, |body|);
    assert Finish(nodes, top) == body + after;
    BodyLaid(MAGIC, nodes, after, refSize, i);
  }

  /** The objects read from the file of a value are the objects the value was numbered into. */
  lemma {:induction false} EncodedShapes(v: Value, widen: U32 -> U64)
    requires WithinLimits(v)
    ensures var r := Open(Encode(v), widen); r.Some? && r.value.1 == 0 && Shapes(r.value.0) == Flatten(v, 0)
  {
    var shapes := Flatten(v, 0);
    var nodes, count := NodesOf(shapes), Size(v);
    FlattenCodable(v, 0, count);
    BodyLength(v, 0, BytesFor(count - 1));
    NodesNotEmpty(shapes, count);
    FinishOpens(nodes, 0, widen);
    var f := Open(Encode(v), widen).value.0;
    forall i | 0 <= i < count
      ensures Shapes(f)[i] == shapes[i]
    {
      FinishedShape(shapes, 0, f, i);
    }
  }

  lemma {:induction false} NodesNotEmpty(shapes: seq<Shape>, count: nat)
    requires AllCodable(shapes, count)
    ensures forall i :: 0 <= i < |shapes| ==> NodesOf(shapes)[i].bytes != []
  {
    forall i | 0 <= i < |shapes|
      ensures NodesOf(shapes)[i].bytes != []
    {
      assert Codable(shapes[i], count);
    }
  }

  /** Decoding an encoded value within the limits gives exactly that value. */
  lemma {:induction false} RoundTrip(v: Value, widen: U32 -> U64)
    requires WithinLimits(v)
    ensures Decode(Encode(v), widen) == Some(v)
  {
    EncodedShapes(v, widen);
    ObjectResolves(Flatten(v, 0), v, 0, 0, NOTHING_USED);
  }
}

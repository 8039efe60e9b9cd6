/** Binary property lists: values, the numbered-node form the encoder writes, and what the decoder reads. */
module PlistFormat {
  import opened ByteStrings

  const TWO64: nat := 0x1_0000_0000_0000_0000
  type U64 = n: int | 0 <= n < TWO64
  type U32 = n: int | 0 <= n < 0x1_0000_0000

  /** A dictionary holds its keys in ascending order, each beside its value. */
  datatype Value =
    | Bool(truth: bool)
    | Integer(number: U64)
    | Real(bits: U64)          // the 64-bit pattern of a double
    | Text(text: Bytes)
    | Data(data: Bytes)
    | Array(items: seq<Value>)
    | Dictionary(keys: seq<Bytes>, values: seq<Value>)

  /** Lexicographic order on unsigned bytes: the order of the keys of a dictionary. */
  predicate Less(a: Bytes, b: Bytes) {
    if b == [] then false
    else if a == [] then true
    else if a[0] != b[0] then a[0] < b[0]
    else Less(a[1..], b[1..])
  }

  ghost predicate Ascending(keys: seq<Bytes>) {
    forall i, j :: 0 <= i < j < |keys| ==> Less(keys[i], keys[j])
  }

  ghost predicate WellFormed(v: Value)
    decreases v
  {
    match v
    case Array(items) => forall x <- items :: WellFormed(x)
    case Dictionary(keys, values) => |keys| == |values| && Ascending(keys) && forall x <- values :: WellFormed(x)
    case _ => true
  }

  // ----- Measures -----

  /** Nodes of the encoding; a key is a node of its own. */
  function Size(v: Value): (r: nat)
    ensures r >= 1
    decreases v, 1
  {
    match v
    case Array(items) => 1 + Sizes(items)
    case Dictionary(keys, values) => 1 + |keys| + Sizes(values)
    case _ => 1
  }

  function Sizes(vs: seq<Value>): (r: nat)
    ensures r >= |vs|
    decreases vs, 0
  {
    if vs == [] then 0 else Size(vs[0]) + Sizes(vs[1..])
  }

  function Max(a: nat, b: nat): nat { if a < b then b else a }

  function Depth(v: Value): nat
    decreases v, 1
  {
    match v
    case Array(items) => if items == [] then 0 else 1 + Depths(items)
    case Dictionary(keys, values) => if keys == [] && values == [] then 0 else 1 + Depths(values)
    case _ => 0
  }

  function Depths(vs: seq<Value>): nat
    decreases vs, 0
  {
    if vs == [] then 0 else Max(Depth(vs[0]), Depths(vs[1..]))
  }

  function Lengths(keys: seq<Bytes>): nat {
    if keys == [] then 0 else |keys[0]| + Lengths(keys[1..])
  }

  /** String and data bytes, keys included. */
  function Payload(v: Value): nat
    decreases v, 1
  {
    match v
    case Text(text) => |text|
    case Data(data) => |data|
    case Array(items) => Payloads(items)
    case Dictionary(keys, values) => Lengths(keys) + Payloads(values)
    case _ => 0
  }

  function Payloads(vs: seq<Value>): nat
    decreases vs, 0
  {
    if vs == [] then 0 else Payload(vs[0]) + Payloads(vs[1..])
  }

  // ----- Numbers -----

  const MAGIC: Bytes := [0x62, 0x70, 0x6c, 0x69, 0x73, 0x74, 0x30, 0x30]

  /** The width the encoder picks for a number. */
  function BytesFor(value: nat): (r: nat)
    ensures r in {1, 2, 4, 8}
  {
    if value <= 0xff then 1 else if value <= 0xffff then 2 else if value <= 0xffff_ffff then 4 else 8
  }

  function Log2Bytes(size: nat): (r: nat)
    ensures r <= 3
  {
    if size == 1 then 0 else if size == 2 then 1 else if size == 4 then 2 else 3
  }

  lemma {:induction false} WidthHolds(value: U64)
    ensures value < Capacity(BytesFor(value))
  {
    assert Capacity(1) == 0x100;
    assert Capacity(2) == 0x1_0000;
    assert Capacity(3) == 0x100_0000;
    assert Capacity(4) == 0x1_0000_0000;
    EightByteCapacity();
  }

  lemma {:induction false} PowerOfLog(value: nat)
    ensures Power2(Log2Bytes(BytesFor(value))) == BytesFor(value)
  {
    assert Power2(0) == 1 && Power2(1) == 2 && Power2(2) == 4 && Power2(3) == 8;
  }

  function ReadBE(bytes: Bytes, offset: nat, size: nat): Option<U64>
  {
    if size > 8 || offset > |bytes| || |bytes| - offset < size then None
    else
      ReadFits(bytes[offset..offset + size]);
      Some(FromBigEndian(bytes[offset..offset + size]))
  }

  lemma {:induction false} ReadFits(bytes: Bytes)
    requires |bytes| <= 8
    ensures FromBigEndian(bytes) < TWO64
  {
    FromBigEndianBound(bytes);
    CapacityMonotonic(|bytes|, 8);
    EightByteCapacity();
  }

  // ----- Flattening -----

  /**
   One numbered object of a file. A container names its contents by number, a dictionary all its keys
   first; `cost` is what reading a string charges to the byte budget.
   */
  datatype Shape =
    | Malformed
    | Scalar(value: Value)
    | Bulk(value: Value, cost: nat)
    | Refs(dictionary: bool, refs: seq<nat>)

  function TextShape(text: Bytes): Shape { Bulk(Text(text), |text|) }

  /** The objects of a value whose own number is `base`: the value, then all it contains. */
  function Flatten(v: Value, base: nat): (r: seq<Shape>)
    ensures |r| == Size(v)
    decreases v, 1
  {
    match v
    case Text(text) => [TextShape(text)]
    case Data(data) => [Bulk(v, |data|)]
    case Array(items) => [Refs(false, Starts(items, base + 1))] + FlattenAll(items, base + 1)
    case Dictionary(keys, values) =>
      var first := base + 1 + |keys|;
      [Refs(true, Range(base + 1, |keys|) + Starts(values, first))] + TextShapes(keys) + FlattenAll(values, first)
    case _ => [Scalar(v)]
  }

  function TextShapes(keys: seq<Bytes>): (r: seq<Shape>)
    ensures |r| == |keys|
  {
    if keys == [] then [] else [TextShape(keys[0])] + TextShapes(keys[1..])
  }

  function FlattenAll(vs: seq<Value>, base: nat): (r: seq<Shape>)
    ensures |r| == Sizes(vs)
    decreases vs, 0
  {
    if vs == [] then [] else Flatten(vs[0], base) + FlattenAll(vs[1..], base + Size(vs[0]))
  }

  /** The numbers of consecutive values. */
  function Starts(vs: seq<Value>, base: nat): (r: seq<nat>)
    ensures |r| == |vs|
  {
    if vs == [] then [] else [base] + Starts(vs[1..], base + Size(vs[0]))
  }

  function Range(from: nat, count: nat): (r: seq<nat>)
    ensures |r| == count
    decreases count
  {
    if count == 0 then [] else [from] + Range(from + 1, count - 1)
  }

  // ----- Encoder -----

  datatype Node = Node(bytes: Bytes, refs: seq<nat>)

  function CountMarker(kind: nat, count: nat): (r: Bytes)
    requires kind < 16
    ensures r != [] && r[0] / 16 == kind
  {
    if count < 15 then [kind * 16 + count]
    else
      var size := BytesFor(count);
      [kind * 16 + 15, 0x10 + Log2Bytes(size)] + BigEndian(count, size)
  }

  function IntegerBytes(value: U64): Bytes {
    [0x10 + Log2Bytes(BytesFor(value))] + BigEndian(value, BytesFor(value))
  }

  /** The node the encoder writes for an object. */
  function NodeOf(s: Shape): Node {
    match s
    case Scalar(Bool(truth)) => Node([if truth then 0x09 else 0x08], [])
    case Scalar(Integer(number)) => Node(IntegerBytes(number), [])
    case Scalar(Real(bits)) => Node([0x23] + BigEndian(bits, 8), [])
    case Bulk(Text(text), _) => Node(CountMarker(0x5, |text|) + text, [])
    case Bulk(Data(data), _) => Node(CountMarker(0x4, |data|) + data, [])
    case Refs(dictionary, refs) =>
      Node(if dictionary then CountMarker(0xd, |refs| / 2) else CountMarker(0xa, |refs|), refs)
    case _ => Node([], [])
  }

  function NodesOf(shapes: seq<Shape>): (r: seq<Node>)
    ensures |r| == |shapes|
    ensures forall i :: 0 <= i < |r| ==> r[i] == NodeOf(shapes[i])
  {
    seq(|shapes|, i requires 0 <= i < |shapes| => NodeOf(shapes[i]))
  }

  /** Numbers of equal width, one after the other. */
  function Table(numbers: seq<nat>, width: nat): Bytes {
    if numbers == [] then [] else BigEndian(numbers[0], width) + Table(numbers[1..], width)
  }

  function NodeBytes(node: Node, refSize: nat): Bytes {
    node.bytes + Table(node.refs, refSize)
  }

  /** All nodes one after the other. */
  function Body(nodes: seq<Node>, refSize: nat): Bytes {
    if nodes == [] then [] else NodeBytes(nodes[0], refSize) + Body(nodes[1..], refSize)
  }

  /** Where each node starts when the first one starts at `at`. */
  function Offsets(nodes: seq<Node>, refSize: nat, at: nat): (r: seq<nat>)
    ensures |r| == |nodes|
  {
    if nodes == [] then [] else [at] + Offsets(nodes[1..], refSize, at + |NodeBytes(nodes[0], refSize)|)
  }

  const PADDING: Bytes := [0, 0, 0, 0, 0, 0]

  function Trailer(offsetSize: nat, refSize: nat, count: nat, top: nat, table: nat): (r: Bytes)
    requires offsetSize < 256 && refSize < 256
    ensures |r| == 32
  {
    PADDING + [offsetSize, refSize] + BigEndian(count, 8) + BigEndian(top, 8) + BigEndian(table, 8)
  }

  function Finish(nodes: seq<Node>, top: nat): Bytes
    requires nodes != []
  {
    var refSize := BytesFor(|nodes| - 1);
    var body := MAGIC + Body(nodes, refSize);
    var offsetSize := BytesFor(|body|);
    body + Table(Offsets(nodes, refSize, 8), offsetSize) + Trailer(offsetSize, refSize, |nodes|, top, |body|)
  }

  function Encode(v: Value): Bytes {
    Finish(NodesOf(Flatten(v, 0)), 0)
  }

  // ----- Decoder -----

  const MAX_DEPTH: nat := 64
  const MAX_NODES: nat := 65536
  const MAX_BYTES: nat := 8 * 1024 * 1024

  /** A file with its trailer and offset table read; `widen` turns a float pattern into a double pattern. */
  datatype File = File(bytes: Bytes, refSize: nat, offsets: seq<nat>, widen: U32 -> U64)

  ghost predicate ValidFile(f: File) {
    f.refSize > 0 && forall i :: 0 <= i < |f.offsets| ==> f.offsets[i] < |f.bytes|
  }

  /** What a decode has used up; `calls` counts the visits to objects, for the bound on them. */
  datatype Used = Used(nodes: nat, bytes: nat, calls: nat)

  /** The item count of a node and where its contents start. */
  function Count(bytes: Bytes, offset: nat, nibble: nat): Option<(nat, nat)> {
    if nibble != 15 then Some((nibble, offset + 1))
    else if offset + 2 > |bytes| || bytes[offset + 1] / 16 != 1 then None
    else
      var size := Power2(bytes[offset + 1] % 16);
      match ReadBE(bytes, offset + 2, size)
      case None => None
      case Some(count) => Some((count, offset + 2 + size))
  }

  /** UTF-16 code units to bytes, each unit on its own. */
  function UnitBytes(code: nat): (r: Bytes)
    requires code < 0x1_0000
    ensures |r| <= 3
  {
    if code < 0x80 then [code]
    else if code < 0x800 then [0xc0 + code / 64, 0x80 + code % 64]
    else [0xe0 + code / 4096, 0x80 + code / 64 % 64, 0x80 + code % 64]
  }

  function UnitsText(bytes: Bytes): (r: Bytes)
    requires |bytes| % 2 == 0
    ensures 2 * |r| <= 3 * |bytes|
  {
    if bytes == [] then [] else UnitBytes((bytes[0] as int) * 256 + bytes[1]) + UnitsText(bytes[2..])
  }

  function ReadRefs(f: File, at: nat, count: nat): (r: Option<seq<nat>>)
    ensures r.Some? ==> |r.value| == count
    decreases count
  {
    if count == 0 then Some([]) else
      match ReadBE(f.bytes, at, f.refSize)
      case None => None
      case Some(ref) =>
        if ref >= |f.offsets| then None else
          match ReadRefs(f, at + f.refSize, count - 1)
          case None => None
          case Some(refs) => Some([ref] + refs)
  }

  /** Adds an entry in key order; a key that is already there keeps its value. */
  function Insert(keys: seq<Bytes>, values: seq<Value>, key: Bytes, value: Value): (r: (seq<Bytes>, seq<Value>))
    requires |keys| == |values|
    ensures |r.0| == |r.1|
  {
    if keys == [] then ([key], [value])
    else if key == keys[0] then (keys, values)
    else if Less(key, keys[0]) then ([key] + keys, [value] + values)
    else
      var (ks, vs) := Insert(keys[1..], values[1..], key, value);
      ([keys[0]] + ks, [values[0]] + vs)
  }

  /** What the first byte of a node, its count and its contents say, before any other node is looked at. */
  function ReadShape(f: File, index: nat): (r: Shape)
    requires ValidFile(f) && index < |f.offsets|
    ensures r.Refs? && r.dictionary ==> |r.refs| % 2 == 0
  {
    var offset := f.offsets[index];
    var kind, nibble := f.bytes[offset] / 16, f.bytes[offset] % 16;
    if kind == 0 && (nibble == 8 || nibble == 9) then Scalar(Bool(nibble == 9))
    else if kind == 1 then
      match ReadBE(f.bytes, offset + 1, Power2(nibble))
      case None => Malformed
      case Some(n) => Scalar(Integer(n))
    else if kind == 2 then ReadReal(f, offset + 1, Power2(nibble))
    else
      match Count(f.bytes, offset, nibble)
      case None => Malformed
      case Some((items, at)) => ReadCounted(f, kind, items, at)
  }

  /** The kinds that carry an item count. */
  function ReadCounted(f: File, kind: nat, items: nat, at: nat): (r: Shape)
    requires f.refSize > 0
    ensures r.Refs? && r.dictionary ==> |r.refs| % 2 == 0
  {
    var size := |f.bytes|;
    if (kind == 4 || kind == 5) && at <= size && items <= size - at then
      Bulk(if kind == 4 then Data(f.bytes[at..at + items]) else Text(f.bytes[at..at + items]), items)
    else if kind == 6 && at <= size && items <= (size - at) / 2 then
      Bulk(Text(UnitsText(f.bytes[at..at + 2 * items])), 3 * items)
    else if (kind == 0xa || kind == 0xd) && at <= size && items <= (size - at) / f.refSize &&
            (kind != 0xd || items <= (size - at) / (2 * f.refSize)) then
      match ReadRefs(f, at, if kind == 0xd then 2 * items else items)
      case None => Malformed
      case Some(refs) => Refs(kind == 0xd, refs)
    else Malformed
  }

  function ReadReal(f: File, at: nat, size: nat): Shape {
    match ReadBE(f.bytes, at, size)
    case None => Malformed
    case Some(n) =>
      if size == 8 then Scalar(Real(n))
      else if size == 4 && n < 0x1_0000_0000 then Scalar(Real(f.widen(n)))
      else Malformed
  }

  /** All objects of a file; reading one does not depend on the others. */
  function Shapes(f: File): (r: seq<Shape>)
    requires ValidFile(f)
    ensures |r| == |f.offsets|
    ensures forall i :: 0 <= i < |r| ==> r[i] == ReadShape(f, i)
  {
    seq(|f.offsets|, i requires 0 <= i < |f.offsets| => ReadShape(f, i))
  }

  /** Entries added one after the other, from the first on. */
  function InsertAll(keys: seq<Bytes>, values: seq<Value>): (r: (seq<Bytes>, seq<Value>))
    requires |keys| == |values|
    ensures |r.0| == |r.1|
    decreases |keys|
  {
    var n := |keys|;
    if n == 0 then ([], []) else
      var (ks, vs) := InsertAll(keys[..n - 1], values[..n - 1]);
      Insert(ks, vs, keys[n - 1], values[n - 1])
  }

  // ----- Resolving references -----

  /** The value with the given number, at the given nesting depth, and what has been used up after reading it. */
  function Object(t: seq<Shape>, index: nat, depth: nat, used: Used): (Option<Value>, Used)
    requires depth <= MAX_DEPTH + 1
    decreases MAX_DEPTH + 1 - depth, 1, 0
  {
    var called := used.(calls := used.calls + 1);
    if index >= |t| || depth > MAX_DEPTH then (None, called)
    else
      var u := called.(nodes := used.nodes + 1);
      if u.nodes > MAX_NODES then (None, u) else
        match t[index]
        case Malformed => (None, u)
        case Scalar(v) => (Some(v), u)
        case Bulk(v, cost) =>
          var w := u.(bytes := u.bytes + cost);
          if w.bytes > MAX_BYTES then (None, w) else (Some(v), w)
        case Refs(dictionary, refs) =>
          if dictionary then
            var half := |refs| / 2;
            var (entries, w) := Entries(t, refs[..half], refs[half..], depth + 1, u);
            (if entries.Some? then Some(DictionaryOf(entries.value)) else None, w)
          else
            var (items, w) := Objects(t, refs, depth + 1, u);
            (if items.Some? then Some(Array(items.value)) else None, w)
  }

  /** The items of an array; the first one that cannot be read ends it. */
  function Objects(t: seq<Shape>, refs: seq<nat>, depth: nat, used: Used): (Option<seq<Value>>, Used)
    requires depth <= MAX_DEPTH + 1
    decreases MAX_DEPTH + 1 - depth, 2, |refs|
  {
    if |refs| == 0 then (Some([]), used) else
      var (v, u) := Object(t, refs[0], depth, used);
      if v.None? then (None, u) else
        var (vs, w) := Objects(t, refs[1..], depth, u);
        (if vs.None? then None else Some([v.value] + vs.value), w)
  }

  datatype RawEntries = RawEntries(keys: seq<Bytes>, values: seq<Value>)

  function DictionaryOf(e: RawEntries): Value {
    if |e.keys| == |e.values| then
      var (keys, values) := InsertAll(e.keys, e.values);
      Dictionary(keys, values)
    else Dictionary([], [])
  }

  /** The entries of a dictionary in the order of the file: the value is read even when the key could not be. */
  function Entries(
    t: seq<Shape>, keyRefs: seq<nat>, valueRefs: seq<nat>, depth: nat, used: Used): (r: (Option<RawEntries>, Used))
    requires depth <= MAX_DEPTH + 1
    ensures r.0.Some? ==> |r.0.value.keys| == |r.0.value.values|
    decreases MAX_DEPTH + 1 - depth, 2, |keyRefs|
  {
    if |keyRefs| == 0 || |valueRefs| == 0 then (Some(RawEntries([], [])), used) else
      var (k, u) := Object(t, keyRefs[0], depth, used);
      var (v, w) := Object(t, valueRefs[0], depth, u);
      if k.None? || !k.value.Text? || v.None? then (None, w) else
        var (rest, x) := Entries(t, keyRefs[1..], valueRefs[1..], depth, w);
        (if rest.None? then None
            else Some(RawEntries([k.value.text] + rest.value.keys, [v.value] + rest.value.values)), x)
  }

  function ReadOffsets(bytes: Bytes, at: nat, width: nat, count: nat, table: nat): (r: Option<seq<nat>>)
    ensures r.Some? ==> |r.value| == count && forall i :: 0 <= i < count ==> r.value[i] < table
    decreases count
  {
    if count == 0 then Some([]) else
      match ReadBE(bytes, at, width)
      case None => None
      case Some(offset) =>
        if offset >= table then None else
          match ReadOffsets(bytes, at + width, width, count - 1, table)
          case None => None
          case Some(rest) => Some([offset] + rest)
  }

  /** Reads the trailer and the offset table: the file and the number of its top object. */
  function Open(bytes: Bytes, widen: U32 -> U64): (r: Option<(File, nat)>)
    ensures r.Some? ==> ValidFile(r.value.0)
  {
    if |bytes| < 40 || bytes[..8] != MAGIC then None
    else
      var trailer := |bytes| - 32;
      var offsetSize, refSize := bytes[trailer + 6], bytes[trailer + 7];
      var count := FromBigEndian(bytes[trailer + 8..trailer + 16]);
      var top := FromBigEndian(bytes[trailer + 16..trailer + 24]);
      OpenWith(bytes, widen, offsetSize, refSize, count, top, FromBigEndian(bytes[trailer + 24..]))
  }

  /** The checks on the trailer's numbers, and the offset table they lead to. */
  function OpenWith(
    bytes: Bytes, widen: U32 -> U64, offsetSize: nat, refSize: nat, count: nat, top: nat, table: nat)
    : (r: Option<(File, nat)>)
    ensures r.Some? ==> ValidFile(r.value.0)
  {
    if count == 0 || top >= count || offsetSize == 0 || refSize == 0 || count > 65536 ||
       table > |bytes| || count > (|bytes| - table) / offsetSize then None
    else
      match ReadOffsets(bytes, table, offsetSize, count, table)
      case None => None
      case Some(offsets) => Some((File(bytes, refSize, offsets, widen), top))
  }

  const NOTHING_USED: Used := Used(0, 0, 0)

  function Decode(bytes: Bytes, widen: U32 -> U64): Option<Value> {
    Resolve(Open(bytes, widen))
  }

  function Resolve(found: Option<(File, nat)>): Option<Value>
    requires found.Some? ==> ValidFile(found.value.0)
  {
    match found
    case None => None
    case Some((f, top)) => Object(Shapes(f), top, 0, NOTHING_USED).0
  }
}

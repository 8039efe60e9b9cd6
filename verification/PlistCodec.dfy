/**
 The property-list encoder and decoder as the program runs them: lists grown and patched in place, counters bumped.
 */
module PlistCodec {
  import opened ByteStrings
  import opened PlistFormat
  import opened PlistStructure
  import opened PlistBytes

  // ----- Numbers -----

  /** The byte of weight 256 to the i. */
  lemma {:induction false} BigEndianByte(value: nat, size: nat, i: nat)
    requires i < size
    ensures BigEndian(value, size)[size - 1 - i] == value / Capacity(i) % 256
    decreases i
  {
    if i > 0 {
      BigEndianByte(value / 256, size - 1, i - 1);
      DivideTwice(value, 256, Capacity(i - 1));
    }
  }

  /** Shifts the bytes out, the most significant first. */
  method AppendBE(target: Bytes, value: nat, size: nat) returns (result: Bytes)
    ensures result == target + BigEndian(value, size)
  {
    result := target;
    var index := size;
    assert BigEndian(value, size)[..0] == [];
    while index > 0
      invariant 0 <= index <= size
      invariant result == target + BigEndian(value, size)[..size - index]
    {
      index := index - 1;
      BigEndianByte(value, size, index);
      result := result + [value / Capacity(index) % 256];
      assert BigEndian(value, size)[..size - index] == BigEndian(value, size)[..size - index - 1] +
             [BigEndian(value, size)[size - 1 - index]];
    }
    assert BigEndian(value, size)[..size] == BigEndian(value, size);
  }

  /** Shifts the bytes in, the most significant first. */
  method ReadNumber(bytes: Bytes, offset: nat, size: nat) returns (result: Option<U64>)
    ensures result == ReadBE(bytes, offset, size)
  {
    if size > 8 || offset > |bytes| || |bytes| - offset < size {
      return None;
    }
    var part := bytes[offset..offset + size];
    var n: nat := 0;
    for index := 0 to size
      invariant n == FromBigEndian(part[..index])
    {
      assert part[..index + 1][..index] == part[..index];
      n := n * 256 + bytes[offset + index];
    }
    assert part[..size] == part;
    ReadFits(part);
    result := Some(n);
  }

  // ----- Encoder -----

  lemma {:induction false} NodesOfJoin(a: seq<Shape>, b: seq<Shape>)
    ensures NodesOf(a + b) == NodesOf(a) + NodesOf(b)
  {}

  /** The first of the values still to be added, and the others. */
  lemma {:induction false} NextValue(vs: seq<Value>, i: nat, base: nat)
    requires i < |vs|
    ensures NodesOf(FlattenAll(vs[i..], base)) == NodesOf(Flatten(vs[i], base)) +
            NodesOf(FlattenAll(vs[i + 1..], base + Size(vs[i])))
    ensures Starts(vs[i..], base) == [base] + Starts(vs[i + 1..], base + Size(vs[i]))
  {
    assert vs[i..][0] == vs[i] && vs[i..][1..] == vs[i + 1..];
    NodesOfJoin(Flatten(vs[i], base), FlattenAll(vs[i + 1..], base + Size(vs[i])));
  }

  lemma {:induction false} ListStart<T>(rest: seq<T>)
    ensures [] + rest == rest
  {}

  lemma {:induction false} ListEnd<T>(done: seq<T>)
    ensures done + [] == done
  {}

  lemma {:induction false} Regroup<T>(done: seq<T>, whole: seq<T>, first: seq<T>, rest: seq<T>)
    requires whole == first + rest
    ensures |done + first| == |done| + |first|
    ensures (done + first) + rest == done + whole
  {}

  lemma {:induction false} AddStep(
    nodes: seq<Node>, refs: seq<nat>, vs: seq<Value>, i: nat, all: seq<Node>, starts: seq<nat>)
    requires i < |vs|
    requires nodes + NodesOf(FlattenAll(vs[i..], |nodes|)) == all
    requires refs + Starts(vs[i..], |nodes|) == starts
    ensures var after := nodes + NodesOf(Flatten(vs[i], |nodes|));
            after + NodesOf(FlattenAll(vs[i + 1..], |after|)) == all &&
            (refs + [|nodes|]) + Starts(vs[i + 1..], |after|) == starts
  {
    hide NodesOf, Flatten, FlattenAll, Starts;
    var next := |nodes| + Size(vs[i]);
    NextValue(vs, i, |nodes|);
    Regroup(nodes, NodesOf(FlattenAll(vs[i..], |nodes|)), NodesOf(Flatten(vs[i], |nodes|)),
        NodesOf(FlattenAll(vs[i + 1..], next)));
    Regroup(refs, Starts(vs[i..], |nodes|), [|nodes|], Starts(vs[i + 1..], next));
  }

  /** Filling in a reserved node leaves the nodes around it alone. */
  lemma {:induction false} FillIn(before: seq<Node>, after: seq<Node>, node: Node)
    requires before != []
    ensures (before + after)[|before| - 1 := node] == before[..|before| - 1] + ([node] + after)
  {}

  lemma {:induction false} TextShapesAppend(keys: seq<Bytes>, key: Bytes)
    ensures TextShapes(keys + [key]) == TextShapes(keys) + [TextShape(key)]
  {
    if keys == [] {
      assert keys + [key] == [key] && [key][1..] == [];
    } else {
      assert (keys + [key])[1..] == keys[1..] + [key];
      TextShapesAppend(keys[1..], key);
    }
  }

  lemma {:induction false} RangeAppend(from: nat, count: nat)
    ensures Range(from, count + 1) == Range(from, count) + [from + count]
    decreases count
  {
    if count > 0 {
      RangeAppend(from + 1, count - 1);
    }
  }

  lemma {:induction false} ArrayNodes(items: seq<Value>, base: nat, refs: seq<nat>)
    requires refs == Starts(items, base + 1)
    ensures NodesOf(Flatten(Array(items), base)) == [Node(CountMarker(0xa, |refs|), refs)] +
            NodesOf(FlattenAll(items, base + 1))
  {
    NodesOfJoin([Refs(false, refs)], FlattenAll(items, base + 1));
  }

  lemma {:induction false} DictionaryNodes(keys: seq<Bytes>, values: seq<Value>, base: nat, refs: seq<nat>)
    requires |keys| == |values|
    requires refs == Range(base + 1, |keys|) + Starts(values, base + 1 + |keys|)
    ensures NodesOf(Flatten(Dictionary(keys, values), base)) ==
            [Node(CountMarker(0xd, |keys|), refs)] +
                (NodesOf(TextShapes(keys)) + NodesOf(FlattenAll(values, base + 1 + |keys|)))
  {
    var head, rest := [Refs(true, refs)], FlattenAll(values, base + 1 + |keys|);
    NodesOfJoin(head + TextShapes(keys), rest);
    NodesOfJoin(head, TextShapes(keys));
    assert |refs| / 2 == |keys|;
    Associates(NodesOf(head), NodesOf(TextShapes(keys)), NodesOf(rest));
  }

  lemma {:induction false} DictionaryFilled(
    before: seq<Node>, keys: seq<Bytes>, values: seq<Value>, base: nat, refs: seq<nat>, node: Node)
    requires |before| == base + 1 && |keys| == |values|
    requires refs == Range(base + 1, |keys|) + Starts(values, base + 1 + |keys|)
    requires node == Node(CountMarker(0xd, |keys|), refs)
    ensures (before + NodesOf(TextShapes(keys)) + NodesOf(FlattenAll(values, base + 1 + |keys|)))[base := node] ==
            before[..base] + NodesOf(Flatten(Dictionary(keys, values), base))
  {
    var keyed, added := NodesOf(TextShapes(keys)), NodesOf(FlattenAll(values, base + 1 + |keys|));
    Associates(before, keyed, added);
    FillIn(before, keyed + added, node);
    DictionaryNodes(keys, values, base, refs);
  }

  class Encoder {
    var nodes: seq<Node>

    constructor ()
      ensures nodes == []
    {
      nodes := [];
    }

    /** Reserves a number, then fills the node in: the nodes of the value follow those already there. */
    method Add(v: Value) returns (index: nat)
      requires WellFormed(v)
      modifies this
      ensures index == |old(nodes)|
      ensures nodes == old(nodes) + NodesOf(Flatten(v, index))
      decreases v, 2
    {
      index := |nodes|;
      nodes := nodes + [Node([], [])];
      match v
      case Array(items) => AddArray(index, items, v);
      case Dictionary(keys, values) => AddDictionary(index, keys, values, v);
      case _ =>
        var node := Leaf(v);
        nodes := nodes[index := node];
    }

    method Leaf(v: Value) returns (node: Node)
      requires !v.Array? && !v.Dictionary?
      ensures [node] == NodesOf(Flatten(v, 0))
    {
      match v
      case Bool(truth) => node := Node([if truth then 0x09 else 0x08], []);
      case Integer(number) =>
        var size := BytesFor(number);
        var bytes := AppendBE([0x10 + Log2Bytes(size)], number, size);
        node := Node(bytes, []);
      case Real(bits) =>
        var bytes := AppendBE([0x23], bits, 8);
        node := Node(bytes, []);
      case Text(text) => node := Node(CountMarker(0x5, |text|) + text, []);
      case Data(data) => node := Node(CountMarker(0x4, |data|) + data, []);
    }

    method AddArray(index: nat, items: seq<Value>, ghost v: Value)
      requires v == Array(items) && WellFormed(v) && |nodes| == index + 1
      modifies this
      ensures nodes == old(nodes)[..index] + NodesOf(Flatten(v, index))
      decreases v, 1
    {
      ghost var before := nodes;
      var refs := AddAll(items, v);
      ghost var added := NodesOf(FlattenAll(items, index + 1));
      var node := Node(CountMarker(0xa, |refs|), refs);
      FillIn(before, added, node);
      nodes := nodes[index := node];
      ArrayNodes(items, index, refs);
    }

    /** All keys first, then all values. */
    method AddDictionary(index: nat, keys: seq<Bytes>, values: seq<Value>, ghost v: Value)
      requires v == Dictionary(keys, values) && WellFormed(v) && |nodes| == index + 1
      modifies this
      ensures nodes == old(nodes)[..index] + NodesOf(Flatten(v, index))
      decreases v, 1
    {
      ghost var before := nodes;
      var refs := AddKeys(index, keys);
      var valueRefs := AddAll(values, v);
      refs := refs + valueRefs;
      var node := Node(CountMarker(0xd, |keys|), refs);
      DictionaryFilled(before, keys, values, index, refs, node);
      nodes := nodes[index := node];
    }

    /** Adds one value after the other and keeps their numbers. */
    method AddAll(vs: seq<Value>, ghost owner: Value) returns (refs: seq<nat>)
      requires forall i :: 0 <= i < |vs| ==> WellFormed(vs[i]) && vs[i] < owner
      modifies this
      ensures refs == Starts(vs, |old(nodes)|)
      ensures nodes == old(nodes) + NodesOf(FlattenAll(vs, |old(nodes)|))
      decreases owner, 0
    {
      ghost var all := old(nodes) + NodesOf(FlattenAll(vs, |old(nodes)|));
      ghost var starts := Starts(vs, |old(nodes)|);
      refs := [];
      for i := 0 to |vs|
        invariant nodes + NodesOf(FlattenAll(vs[i..], |nodes|)) == all
        invariant refs + Starts(vs[i..], |nodes|) == starts
      {
        AddStep(nodes, refs, vs, i, all, starts);
        var ref := Add(vs[i]);
        refs := refs + [ref];
      }
      ListEnd(nodes);
      ListEnd(refs);
    }

    method AddKeys(index: nat, keys: seq<Bytes>) returns (refs: seq<nat>)
      requires |nodes| == index + 1
      modifies this
      ensures refs == Range(index + 1, |keys|)
      ensures nodes == old(nodes) + NodesOf(TextShapes(keys))
    {
      refs := [];
      for i := 0 to |keys|
        invariant nodes == old(nodes) + NodesOf(TextShapes(keys[..i]))
        invariant refs == Range(index + 1, i)
      {
        refs := refs + [|nodes|];
        nodes := nodes + [NodeOf(TextShape(keys[i]))];
        assert keys[..i + 1] == keys[..i] + [keys[i]];
        TextShapesAppend(keys[..i], keys[i]);
        NodesOfJoin(TextShapes(keys[..i]), [TextShape(keys[i])]);
        RangeAppend(index + 1, i);
      }
      assert keys[..|keys|] == keys;
    }

    /** Node bytes, offset table and trailer, one after the other. */
    method Finish(top: nat) returns (result: Bytes)
      requires nodes != []
      ensures result == PlistFormat.Finish(nodes, top)
    {
      var refSize := BytesFor(|nodes| - 1);
      var offsets: seq<nat>;
      result, offsets := WriteNodes(refSize);
      var table := |result|;
      var offsetSize := BytesFor(table);
      result := AppendTable(result, offsets, offsetSize);
      ghost var head := result;
      result := result + [0, 0, 0, 0, 0, 0];
      result := result + [offsetSize, refSize];
      result := AppendBE(result, |nodes|, 8);
      result := AppendBE(result, top, 8);
      result := AppendBE(result, table, 8);
      TrailerJoins(head, offsetSize, refSize, |nodes|, top, table);
    }

    method WriteNodes(refSize: nat) returns (result: Bytes, offsets: seq<nat>)
      ensures result == MAGIC + Body(nodes, refSize)
      ensures offsets == Offsets(nodes, refSize, 8)
    {
      result, offsets := MAGIC, [];
      ghost var all, starts := MAGIC + Body(nodes, refSize), Offsets(nodes, refSize, 8);
      for i := 0 to |nodes|
        invariant result + Body(nodes[i..], refSize) == all
        invariant offsets + Offsets(nodes[i..], refSize, |result|) == starts
      {
        ghost var was, numbered := result, offsets;
        assert nodes[i..][0] == nodes[i] && nodes[i..][1..] == nodes[i + 1..];
        offsets := offsets + [|result|];
        result := result + nodes[i].bytes;
        result := AppendTable(result, nodes[i].refs, refSize);
        Associates(was, nodes[i].bytes, Table(nodes[i].refs, refSize));
        Associates(was, NodeBytes(nodes[i], refSize), Body(nodes[i + 1..], refSize));
        Associates(numbered, [|was|], Offsets(nodes[i + 1..], refSize, |result|));
      }
      ListEnd(result);
      ListEnd(offsets);
    }
  }

  lemma {:induction false} TrailerJoins(head: Bytes, offsetSize: nat, refSize: nat, count: nat, top: nat, table: nat)
    requires offsetSize < 256 && refSize < 256
    ensures head + [0, 0, 0, 0, 0, 0] + [offsetSize, refSize] + BigEndian(count, 8) + BigEndian(top, 8) +
            BigEndian(table, 8) ==
            head + Trailer(offsetSize, refSize, count, top, table)
  {}

  method AppendTable(target: Bytes, numbers: seq<nat>, width: nat) returns (result: Bytes)
    ensures result == target + Table(numbers, width)
  {
    result := target;
    for i := 0 to |numbers|
      invariant result + Table(numbers[i..], width) == target + Table(numbers, width)
    {
      assert numbers[i..][1..] == numbers[i + 1..];
      ghost var was := result;
      result := AppendBE(result, numbers[i], width);
      assert result + Table(numbers[i + 1..], width) == was + Table(numbers[i..], width);
    }
    assert numbers[|numbers|..] == [];
    assert result + [] == result;
  }

  method EncodeBplist(root: Value) returns (result: Bytes)
    requires WellFormed(root)
    ensures result == Encode(root)
  {
    var encoder := new Encoder();
    var top := encoder.Add(root);
    assert [] + NodesOf(Flatten(root, 0)) == NodesOf(Flatten(root, 0));
    result := encoder.Finish(top);
  }

  // ----- Decoder -----

  /** What is known of a list of references once the first ones are read. */
  ghost function WithRefs(refs: seq<nat>, rest: Option<seq<nat>>): Option<seq<nat>> {
    if rest.None? then None else Some(refs + rest.value)
  }

  ghost function WithItems(items: seq<Value>, rest: (Option<seq<Value>>, Used)): (Option<seq<Value>>, Used) {
    (if rest.0.None? then None else Some(items + rest.0.value), rest.1)
  }

  ghost function WithEntries(
    keys: seq<Bytes>, values: seq<Value>, rest: (Option<RawEntries>, Used)): (Option<RawEntries>, Used) {
    (if rest.0.None? then None else Some(RawEntries(keys + rest.0.value.keys, values + rest.0.value.values)), rest.1)
  }

  lemma {:induction false} RefsStart(rest: Option<seq<nat>>)
    ensures WithRefs([], rest) == rest
  {
    if rest.Some? {
      assert [] + rest.value == rest.value;
    }
  }

  lemma {:induction false} ItemsStart(rest: (Option<seq<Value>>, Used))
    ensures WithItems([], rest) == rest
  {
    if rest.0.Some? {
      assert [] + rest.0.value == rest.0.value;
    }
  }

  lemma {:induction false} EntriesStart(rest: (Option<RawEntries>, Used))
    ensures WithEntries([], [], rest) == rest
  {
    if rest.0.Some? {
      assert [] + rest.0.value.keys == rest.0.value.keys && [] + rest.0.value.values == rest.0.value.values;
    }
  }

  lemma {:induction false} RefsNext(f: File, at: nat, count: nat, refs: seq<nat>)
    requires count > 0
    ensures var ref := ReadBE(f.bytes, at, f.refSize);
            WithRefs(refs, ReadRefs(f, at, count)) ==
            if ref.None? || ref.value >= |f.offsets| then None
            else WithRefs(refs + [ref.value], ReadRefs(f, at + f.refSize, count - 1))
  {
    var ref := ReadBE(f.bytes, at, f.refSize);
    if ref.Some? && ref.value < |f.offsets| {
      var rest := ReadRefs(f, at + f.refSize, count - 1);
      if rest.Some? {
        Associates(refs, [ref.value], rest.value);
      }
    }
  }

  lemma {:induction false} OffsetsNext(bytes: Bytes, at: nat, width: nat, count: nat, table: nat, offsets: seq<nat>)
    requires count > 0
    ensures var offset := ReadBE(bytes, at, width);
            WithRefs(offsets, ReadOffsets(bytes, at, width, count, table)) ==
            if offset.None? || offset.value >= table then None
            else WithRefs(offsets + [offset.value], ReadOffsets(bytes, at + width, width, count - 1, table))
  {
    var offset := ReadBE(bytes, at, width);
    if offset.Some? && offset.value < table {
      var rest := ReadOffsets(bytes, at + width, width, count - 1, table);
      if rest.Some? {
        Associates(offsets, [offset.value], rest.value);
      }
    }
  }

  lemma {:induction false} ItemsNext(t: seq<Shape>, refs: seq<nat>, i: nat, depth: nat, used: Used, items: seq<Value>)
    requires i < |refs| && depth <= MAX_DEPTH + 1
    ensures var (v, u) := Object(t, refs[i], depth, used);
            WithItems(items, Objects(t, refs[i..], depth, used)) ==
            if v.None? then (None, u) else WithItems(items + [v.value], Objects(t, refs[i + 1..], depth, u))
  {
    assert refs[i..][0] == refs[i] && refs[i..][1..] == refs[i + 1..];
    var (v, u) := Object(t, refs[i], depth, used);
    if v.Some? {
      var (rest, w) := Objects(t, refs[i + 1..], depth, u);
      if rest.Some? {
        Associates(items, [v.value], rest.value);
      }
    }
  }

  lemma {:induction false} EntriesNext(t: seq<Shape>, keyRefs: seq<nat>, valueRefs: seq<nat>, i: nat, depth: nat,
      used: Used,
                                       keys: seq<Bytes>, values: seq<Value>)
    requires i < |keyRefs| == |valueRefs| && depth <= MAX_DEPTH + 1
    ensures var (k, u) := Object(t, keyRefs[i], depth, used);
            var (v, w) := Object(t, valueRefs[i], depth, u);
            WithEntries(keys, values, Entries(t, keyRefs[i..], valueRefs[i..], depth, used)) ==
            if k.None? || !k.value.Text? || v.None? then (None, w)
            else WithEntries(keys + [k.value.text], values + [v.value],
                Entries(t, keyRefs[i + 1..], valueRefs[i + 1..], depth, w))
  {
    assert keyRefs[i..][0] == keyRefs[i] && keyRefs[i..][1..] == keyRefs[i + 1..];
    assert valueRefs[i..][0] == valueRefs[i] && valueRefs[i..][1..] == valueRefs[i + 1..];
    var (k, u) := Object(t, keyRefs[i], depth, used);
    var (v, w) := Object(t, valueRefs[i], depth, u);
    if k.Some? && k.value.Text? && v.Some? {
      var (rest, x) := Entries(t, keyRefs[i + 1..], valueRefs[i + 1..], depth, w);
      if rest.Some? {
        Associates(keys, [k.value.text], rest.value.keys);
        Associates(values, [v.value], rest.value.values);
      }
    }
  }

  lemma {:induction false} InsertNext(keys: seq<Bytes>, values: seq<Value>, key: Bytes, value: Value)
    requires |keys| == |values|
    ensures InsertAll(keys + [key], values + [value]) ==
            Insert(InsertAll(keys, values).0, InsertAll(keys, values).1, key, value)
  {
    var n := |keys|;
    assert (keys + [key])[..n] == keys && (values + [value])[..n] == values;
  }

  lemma {:induction false} ShapeAt(f: File, t: seq<Shape>, index: nat)
    requires ValidFile(f) && t == Shapes(f)
    ensures |t| == |f.offsets|
    ensures index < |t| ==> t[index] == ReadShape(f, index)
  {}

  function UnitAt(bytes: Bytes, at: nat): Bytes
    requires at + 2 <= |bytes|
  {
    UnitBytes((bytes[at] as int) * 256 + bytes[at + 1])
  }

  ghost function Units(bytes: Bytes, at: nat, count: nat): Bytes
    requires at + 2 * count <= |bytes|
  {
    UnitsText(bytes[at..at + 2 * count])
  }

  lemma {:induction false} UnitsNext(text: Bytes, bytes: Bytes, at: nat, count: nat, whole: Bytes)
    requires count > 0 && at + 2 * count <= |bytes|
    requires text + Units(bytes, at, count) == whole
    ensures (text + UnitAt(bytes, at)) + Units(bytes, at + 2, count - 1) == whole
  {
    assert bytes[at..at + 2 * count][2..] == bytes[at + 2..at + 2 + 2 * (count - 1)];
    Associates(text, UnitAt(bytes, at), Units(bytes, at + 2, count - 1));
  }

  ghost function ArrayFrom(read: (Option<seq<Value>>, Used)): (Option<Value>, Used) {
    (if read.0.Some? then Some(Array(read.0.value)) else None, read.1)
  }

  ghost function DictionaryFrom(read: (Option<RawEntries>, Used)): (Option<Value>, Used) {
    (if read.0.Some? then Some(DictionaryOf(read.0.value)) else None, read.1)
  }

  /** What a container reads as, once its references are known. */
  lemma {:induction false} ObjectOfRefs(
    t: seq<Shape>, index: nat, depth: nat, used: Used, dictionary: bool, refs: seq<nat>, half: nat)
    requires depth <= MAX_DEPTH && index < |t| && t[index] == Refs(dictionary, refs) && used.nodes < MAX_NODES
    requires half == |refs| / 2
    ensures var u := used.(calls := used.calls + 1, nodes := used.nodes + 1);
            Object(t, index, depth, used) ==
            if dictionary then DictionaryFrom(Entries(t, refs[..half], refs[half..], depth + 1, u))
            else ArrayFrom(Objects(t, refs, depth + 1, u))
  {}

  lemma {:induction false} ObjectOfMalformed(t: seq<Shape>, index: nat, depth: nat, used: Used)
    requires depth <= MAX_DEPTH && index < |t| && t[index] == Malformed && used.nodes < MAX_NODES
    ensures Object(t, index, depth, used) == (None, used.(calls := used.calls + 1, nodes := used.nodes + 1))
  {}

  /** What a string or data reads as: its bytes count even when they are over the budget. */
  lemma {:induction false} ObjectOfBulk(t: seq<Shape>, index: nat, depth: nat, used: Used, value: Value, cost: nat)
    requires depth <= MAX_DEPTH && index < |t| && t[index] == Bulk(value, cost) && used.nodes < MAX_NODES
    ensures var w := used.(calls := used.calls + 1, nodes := used.nodes + 1, bytes := used.bytes + cost);
            Object(t, index, depth, used) == (if w.bytes > MAX_BYTES then None else Some(value), w)
  {}

  lemma {:induction false} TrailerRead(bytes: Bytes, widen: U32 -> U64, trailer: nat)
    requires |bytes| >= 40 && bytes[..8] == MAGIC && trailer == |bytes| - 32
    ensures var count, top, table := ReadBE(bytes, trailer + 8, 8), ReadBE(bytes, trailer + 16, 8),
            ReadBE(bytes, trailer + 24, 8);
            count.Some? && top.Some? && table.Some? &&
            Open(bytes, widen) ==
                OpenWith(bytes, widen, bytes[trailer + 6], bytes[trailer + 7], count.value, top.value, table.value)
  {
    assert bytes[trailer + 24..] == bytes[trailer + 24..trailer + 32];
  }

  /** Strings and data among the counted objects. */
  lemma {:induction false} CountedText(f: File, kind: nat, items: nat, at: nat)
    requires f.refSize > 0
    ensures var r, size := ReadCounted(f, kind, items, at), |f.bytes|;
            if kind == 4 && at <= size && items <= size - at then r == Bulk(Data(f.bytes[at..at + items]), items)
            else if kind == 5 && at <= size && items <= size - at then r == Bulk(Text(f.bytes[at..at + items]), items)
            else if kind == 6 && at <= size && items <= (size - at) / 2
            then r == Bulk(Text(Units(f.bytes, at, items)), 3 * items)
            else !r.Bulk?
  {
    hide ReadRefs, UnitsText;
  }

  method ReadUnits(bytes: Bytes, at: nat, items: nat) returns (text: Bytes)
    requires at + 2 * items <= |bytes|
    ensures text == Units(bytes, at, items)
  {
    text := [];
    var from: nat := at;
    ghost var left, whole := items, Units(bytes, at, items);
    ListStart(whole);
    while from < at + 2 * items
      invariant from + 2 * left == at + 2 * items
      invariant text + Units(bytes, from, left) == whole
      decreases left
    {
      UnitsNext(text, bytes, from, left, whole);
      text := text + UnitAt(bytes, from);
      from, left := from + 2, left - 1;
    }
    NoUnits(text, bytes, from);
  }

  lemma {:induction false} NoUnits(text: Bytes, bytes: Bytes, at: nat)
    requires at <= |bytes|
    ensures text + Units(bytes, at, 0) == text
  {
    assert bytes[at..at + 2 * 0] == [];
  }

  class Decoder {
    const bytes: Bytes
    const widen: U32 -> U64
    var refSize: nat
    var offsets: seq<nat>
    var materializedNodes: nat
    var materializedBytes: nat
    ghost var calls: nat

    constructor (bytes: Bytes, widen: U32 -> U64)
      ensures this.bytes == bytes && this.widen == widen && Spent() == NOTHING_USED
    {
      this.bytes, this.widen := bytes, widen;
      refSize, offsets, materializedNodes, materializedBytes, calls := 0, [], 0, 0, 0;
    }

    ghost function Opened(): File
      reads this`refSize, this`offsets
    {
      File(bytes, refSize, offsets, widen)
    }

    ghost function Spent(): Used
      reads this`materializedNodes, this`materializedBytes, this`calls
    {
      Used(materializedNodes, materializedBytes, calls)
    }

    method DecodeAll() returns (result: Option<Value>)
      requires Spent() == NOTHING_USED
      modifies this
      ensures result == Decode(bytes, widen)
    {
      if |bytes| < 40 || bytes[..8] != MAGIC {
        return None;
      }
      var trailer := |bytes| - 32;
      var count := ReadNumber(bytes, trailer + 8, 8);
      var top := ReadNumber(bytes, trailer + 16, 8);
      var table := ReadNumber(bytes, trailer + 24, 8);
      TrailerRead(bytes, widen, trailer);
      result := DecodeWith(bytes[trailer + 6], bytes[trailer + 7], count.value, top.value, table.value);
    }

    method DecodeWith(offsetSize: nat, refSize: nat, count: nat, top: nat, table: nat) returns (result: Option<Value>)
      requires Spent() == NOTHING_USED
      modifies this
      ensures result == Resolve(OpenWith(bytes, widen, offsetSize, refSize, count, top, table))
    {
      if count == 0 || top >= count || offsetSize == 0 || refSize == 0 || count > 65536 || table > |bytes| ||
         count > (|bytes| - table) / offsetSize {
        return None;
      }
      var read := ReadOffsetTable(table, offsetSize, count);
      if read.None? {
        return None;
      }
      this.refSize, offsets := refSize, read.value;
      result := ReadObject(top, 0, Shapes(Opened()));
    }

    method ReadOffsetTable(table: nat, offsetSize: nat, count: nat) returns (result: Option<seq<nat>>)
      ensures result == ReadOffsets(bytes, table, offsetSize, count, table)
    {
      var offsets: seq<nat> := [];
      var at: nat := table;
      RefsStart(ReadOffsets(bytes, table, offsetSize, count, table));
      for index := 0 to count
        invariant WithRefs(offsets, ReadOffsets(bytes, at, offsetSize, count - index, table)) ==
                  ReadOffsets(bytes, table, offsetSize, count, table)
      {
        OffsetsNext(bytes, at, offsetSize, count - index, table, offsets);
        var offset := ReadNumber(bytes, at, offsetSize);
        if offset.None? || offset.value >= table {
          return None;
        }
        offsets := offsets + [offset.value];
        at := at + offsetSize;
      }
      ListEnd(offsets);
      result := Some(offsets);
    }

    method ReadCount(offset: nat, nibble: nat) returns (result: Option<(nat, nat)>)
      ensures result == Count(bytes, offset, nibble)
    {
      if nibble != 15 {
        return Some((nibble, offset + 1));
      }
      if offset + 2 > |bytes| || bytes[offset + 1] / 16 != 1 {
        return None;
      }
      var size := Power2(bytes[offset + 1] % 16);
      var value := ReadNumber(bytes, offset + 2, size);
      if value.None? {
        return None;
      }
      result := Some((value.value, offset + 2 + size));
    }

    /** Reads one object and, through its references, all it contains; the counters bound the work. */
    method ReadObject(index: nat, depth: nat, ghost t: seq<Shape>) returns (result: Option<Value>)
      requires depth <= MAX_DEPTH + 1
      requires ValidFile(Opened()) && t == Shapes(Opened())
      modifies this`materializedNodes, this`materializedBytes, this`calls
      ensures (result, Spent()) == Object(t, index, depth, old(Spent()))
      decreases MAX_DEPTH + 1 - depth, 2
    {
      ghost var used := Spent();
      ShapeAt(Opened(), t, index);
      calls := calls + 1;
      if index >= |offsets| || depth > MAX_DEPTH {
        return None;
      }
      materializedNodes := materializedNodes + 1;
      if materializedNodes > MAX_NODES {
        return None;
      }
      var offset := offsets[index];
      var kind, nibble := bytes[offset] / 16, bytes[offset] % 16;
      if kind == 0 && (nibble == 8 || nibble == 9) {
        return Some(Bool(nibble == 9));
      }
      if kind == 1 {
        var value := ReadNumber(bytes, offset + 1, Power2(nibble));
        return if value.Some? then Some(Integer(value.value)) else None;
      }
      if kind == 2 {
        result := ReadFloat(offset + 1, Power2(nibble));
        return;
      }
      var parsed := ReadCount(offset, nibble);
      if parsed.None? {
        return None;
      }
      result := ReadItems(kind, parsed.value.0, parsed.value.1, index, depth, t, used);
    }

    method ReadFloat(at: nat, size: nat) returns (result: Option<Value>)
      ensures var shape := ReadReal(Opened(), at, size);
              result == if shape.Scalar? then Some(shape.value) else None
      ensures var shape := ReadReal(Opened(), at, size); shape.Scalar? || shape.Malformed?
    {
      var value := ReadNumber(bytes, at, size);
      if value.None? {
        return None;
      }
      if size == 8 {
        return Some(Real(value.value));
      }
      if size == 4 && value.value < 0x1_0000_0000 {
        return Some(Real(widen(value.value)));
      }
      return None;
    }

    /** The kinds that carry an item count. */
    method ReadItems(
      kind: nat, items: nat, at: nat, ghost index: nat, depth: nat, ghost t: seq<Shape>, ghost used: Used)
      returns (result: Option<Value>)
      requires depth <= MAX_DEPTH
      requires ValidFile(Opened()) && t == Shapes(Opened())
      requires index < |t| && t[index] == ReadCounted(Opened(), kind, items, at)
      requires Spent() == used.(calls := used.calls + 1, nodes := used.nodes + 1) && materializedNodes <= MAX_NODES
      modifies this`materializedNodes, this`materializedBytes, this`calls
      ensures (result, Spent()) == Object(t, index, depth, used)
      decreases MAX_DEPTH + 1 - depth, 1
    {
      hide Object, Shapes, ReadRefs, UnitsText, ReadCounted, Units;
      CountedText(Opened(), kind, items, at);
      var size := |bytes|;
      if (kind == 4 || kind == 5) && at <= size && items <= size - at {
        var value := if kind == 4 then Data(bytes[at..at + items]) else Text(bytes[at..at + items]);
        ObjectOfBulk(t, index, depth, used, value, items);
        materializedBytes := materializedBytes + items;
        if materializedBytes > MAX_BYTES {
          return None;
        }
        return Some(value);
      }
      if kind == 6 && at <= size && items <= (size - at) / 2 {
        ObjectOfBulk(t, index, depth, used, Text(Units(bytes, at, items)), 3 * items);
        materializedBytes := materializedBytes + items * 3;
        if materializedBytes > MAX_BYTES {
          return None;
        }
        var text := ReadUnits(bytes, at, items);
        return Some(Text(text));
      }
      result := ReadContainer(kind, items, at, index, depth, t, used);
    }

    method ReadContainer(
      kind: nat, items: nat, at: nat, ghost index: nat, depth: nat, ghost t: seq<Shape>, ghost used: Used)
      returns (result: Option<Value>)
      requires depth <= MAX_DEPTH
      requires ValidFile(Opened()) && t == Shapes(Opened())
      requires index < |t| && t[index] == ReadCounted(Opened(), kind, items, at) && !t[index].Bulk?
      requires Spent() == used.(calls := used.calls + 1, nodes := used.nodes + 1) && materializedNodes <= MAX_NODES
      modifies this`materializedNodes, this`materializedBytes, this`calls
      ensures (result, Spent()) == Object(t, index, depth, used)
      decreases MAX_DEPTH + 1 - depth, 0
    {
      hide Object, Objects, Entries, Shapes, ReadRefs, DictionaryFrom, ArrayFrom;
      if t[index] == Malformed {
        ObjectOfMalformed(t, index, depth, used);
      }
      var size := |bytes|;
      if (kind == 0xa || kind == 0xd) && at <= size && items <= (size - at) / refSize &&
         (kind != 0xd || items <= (size - at) / (2 * refSize)) {
        var refs := ReadReferences(at, if kind == 0xd then items * 2 else items);
        if refs.None? {
          return None;
        }
        if kind == 0xa {
          ObjectOfRefs(t, index, depth, used, false, refs.value, |refs.value| / 2);
          result := ReadArray(refs.value, depth + 1, t);
        } else {
          ObjectOfRefs(t, index, depth, used, true, refs.value, items);
          result := ReadDictionary(refs.value, items, depth + 1, t);
        }
        return;
      }
      return None;
    }

    method ReadReferences(at: nat, count: nat) returns (result: Option<seq<nat>>)
      ensures result == ReadRefs(Opened(), at, count)
    {
      var refs: seq<nat> := [];
      var from: nat := at;
      ghost var f := Opened();
      RefsStart(ReadRefs(f, at, count));
      for item := 0 to count
        invariant WithRefs(refs, ReadRefs(f, from, count - item)) == ReadRefs(f, at, count)
      {
        RefsNext(f, from, count - item, refs);
        var ref := ReadNumber(bytes, from, refSize);
        if ref.None? || ref.value >= |offsets| {
          return None;
        }
        refs := refs + [ref.value];
        from := from + refSize;
      }
      ListEnd(refs);
      result := Some(refs);
    }

    method ReadArray(refs: seq<nat>, depth: nat, ghost t: seq<Shape>) returns (result: Option<Value>)
      requires depth <= MAX_DEPTH + 1
      requires ValidFile(Opened()) && t == Shapes(Opened())
      modifies this`materializedNodes, this`materializedBytes, this`calls
      ensures (result, Spent()) == ArrayFrom(Objects(t, refs, depth, old(Spent())))
      decreases MAX_DEPTH + 1 - depth, 3
    {
      var items: seq<Value> := [];
      ghost var whole := Objects(t, refs, depth, Spent());
      ItemsStart(whole);
      for i := 0 to |refs|
        invariant WithItems(items, Objects(t, refs[i..], depth, Spent())) == whole
      {
        ItemsNext(t, refs, i, depth, Spent(), items);
        var value := ReadObject(refs[i], depth, t);
        if value.None? {
          return None;
        }
        items := items + [value.value];
      }
      ListEnd(items);
      result := Some(Array(items));
    }

    method ReadDictionary(refs: seq<nat>, items: nat, depth: nat, ghost t: seq<Shape>) returns (result: Option<Value>)
      requires depth <= MAX_DEPTH + 1 && |refs| == items * 2
      requires ValidFile(Opened()) && t == Shapes(Opened())
      modifies this`materializedNodes, this`materializedBytes, this`calls
      ensures (result, Spent()) == DictionaryFrom(Entries(t, refs[..items], refs[items..], depth, old(Spent())))
      decreases MAX_DEPTH + 1 - depth, 3
    {
      var keys: seq<Bytes>, values: seq<Value> := [], [];
      ghost var rawKeys: seq<Bytes>, rawValues: seq<Value> := [], [];
      ghost var keyRefs, valueRefs := refs[..items], refs[items..];
      ghost var whole := Entries(t, keyRefs, valueRefs, depth, Spent());
      EntriesStart(whole);
      for i := 0 to items
        invariant |keys| == |values| && |rawKeys| == |rawValues|
        invariant (keys, values) == InsertAll(rawKeys, rawValues)
        invariant WithEntries(rawKeys, rawValues, Entries(t, keyRefs[i..], valueRefs[i..], depth, Spent())) == whole
      {
        EntriesNext(t, keyRefs, valueRefs, i, depth, Spent(), rawKeys, rawValues);
        var key := ReadObject(refs[i], depth, t);
        var value := ReadObject(refs[items + i], depth, t);
        if key.None? || !key.value.Text? || value.None? {
          return None;
        }
        InsertNext(rawKeys, rawValues, key.value.text, value.value);
        rawKeys, rawValues := rawKeys + [key.value.text], rawValues + [value.value];
        var inserted := Insert(keys, values, key.value.text, value.value);
        keys, values := inserted.0, inserted.1;
      }
      ListEnd(rawKeys);
      ListEnd(rawValues);
      result := Some(Dictionary(keys, values));
    }
  }

  method DecodeBplist(bytes: Bytes, widen: U32 -> U64) returns (result: Option<Value>)
    ensures result == Decode(bytes, widen)
  {
    var decoder := new Decoder(bytes, widen);
    result := decoder.DecodeAll();
  }
}

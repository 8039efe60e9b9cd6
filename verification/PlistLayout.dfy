/**
 The bytes of a property list, spelled out: what the encoder writes for each kind of object, and two kinds only read.
 */
module PlistLayout {
  import opened ByteStrings
  import opened PlistFormat

  // ----- What is written -----

  /** The marker of a string or container: its kind, and its count there or behind it. */
  function Marker(kind: Byte, count: nat): Bytes
    requires kind <= 0xf0
  {
    if count < 15 then [kind + count]
    else if count < 0x100 then [kind + 15, 0x10, count]
    else if count < 0x1_0000 then [kind + 15, 0x11, count / 256, count % 256]
    else if count < 0x1_0000_0000 then [kind + 15, 0x12] + BigEndian(count, 4)
    else [kind + 15, 0x13] + BigEndian(count, 8)
  }

  lemma {:induction false} OneByte(n: nat)
    requires n < 256
    ensures BigEndian(n, 1) == [n]
  {
    assert BigEndian(n / 256, 0) == [];
  }

  lemma {:induction false} TwoBytes(n: nat)
    requires n < 0x1_0000
    ensures BigEndian(n, 2) == [n / 256, n % 256]
  {
    OneByte(n / 256);
  }

  lemma {:induction false} MarkerIs(kind: nat, count: nat)
    requires kind <= 0xf
    ensures CountMarker(kind, count) == Marker(kind * 16, count)
  {
    if count < 256 {
      OneByte(count);
    } else if count < 0x1_0000 {
      TwoBytes(count);
    }
  }

  /** An integer in one, two, four or eight bytes, the high byte first, behind the marker for its width. */
  function IntegerForm(n: U64): Bytes {
    if n < 0x100 then [0x10, n]
    else if n < 0x1_0000 then [0x11, n / 256, n % 256]
    else if n < 0x1_0000_0000 then [0x12] + BigEndian(n, 4)
    else [0x13] + BigEndian(n, 8)
  }

  /** The bytes of a leaf. */
  function LeafForm(v: Value): Bytes
    requires !v.Array? && !v.Dictionary?
  {
    match v
    case Bool(truth) => [if truth then 9 else 8]
    case Integer(n) => IntegerForm(n)
    case Real(bits) => [0x23] + BigEndian(bits, 8)
    case Text(text) => Marker(0x50, |text|) + text
    case Data(data) => Marker(0x40, |data|) + data
  }

  lemma {:induction false} LeafLayout(v: Value, base: nat, refSize: nat)
    requires !v.Array? && !v.Dictionary?
    ensures |Flatten(v, base)| == 1 && NodeBytes(NodeOf(Flatten(v, base)[0]), refSize) == LeafForm(v)
  {
    var node := NodeOf(Flatten(v, base)[0]);
    assert node.bytes + Table([], refSize) == node.bytes;
    match v
    case Bool(_) =>
    case Integer(n) =>
      if n < 256 {
        OneByte(n);
      } else if n < 0x1_0000 {
        TwoBytes(n);
      }
    case Real(_) =>
    case Text(text) => MarkerIs(5, |text|);
    case Data(data) => MarkerIs(4, |data|);
  }

  /** The node of an array: its count, then the numbers of its items. */
  lemma {:induction false} ArrayLayout(items: seq<Value>, base: nat, refSize: nat)
    ensures NodeBytes(NodeOf(Flatten(Array(items), base)[0]), refSize) ==
            Marker(0xa0, |items|) + Table(Starts(items, base + 1), refSize)
  {
    MarkerIs(0xa, |items|);
  }

  /** The node of a dictionary: its count, then the numbers of all keys, then those of all values. */
  lemma {:induction false} DictionaryLayout(keys: seq<Bytes>, values: seq<Value>, base: nat, refSize: nat)
    requires |keys| == |values|
    ensures NodeBytes(NodeOf(Flatten(Dictionary(keys, values), base)[0]), refSize) ==
            Marker(0xd0, |keys|) +
            Table(Range(base + 1, |keys|) + Starts(values, base + 1 + |keys|), refSize)
  {
    MarkerIs(0xd, |keys|);
  }

  /** A file of one leaf: the magic word, the leaf, its offset, and the trailer. */
  lemma {:induction false} FileLayout(v: Value)
    requires !v.Array? && !v.Dictionary? && |LeafForm(v)| < 200
    ensures Encode(v) ==
            [0x62, 0x70, 0x6c, 0x69, 0x73, 0x74, 0x30, 0x30] + LeafForm(v) + [8] +
            ([0, 0, 0, 0, 0, 0, 1, 1] + [0, 0, 0, 0, 0, 0, 0, 1] + [0, 0, 0, 0, 0, 0, 0, 0] +
             [0, 0, 0, 0, 0, 0, 0, 8 + |LeafForm(v)|])
  {
    hide LeafForm, BigEndian, NodeBytes, NodeOf, Flatten;
    LeafLayout(v, 0, 1);
    var nodes := NodesOf(Flatten(v, 0));
    assert Body(nodes, 1) == NodeBytes(nodes[0], 1) + [] by { assert nodes[1..] == []; }
    assert Offsets(nodes, 1, 8) == [8] by { assert nodes[1..] == []; }
    assert Table([8], 1) == [8] by { OneByte(8); assert [8][1..] == []; }
    EightBytes(1);
    EightBytes(0);
    EightBytes(8 + |LeafForm(v)|);
  }

  lemma {:induction false} EightBytes(n: nat)
    requires n < 256
    ensures BigEndian(n, 8) == [0, 0, 0, 0, 0, 0, 0, n]
  {
    assert n / 256 == 0;
    ZeroBytes(7);
    assert BigEndian(n, 8) == BigEndian(0, 7) + [n];
    assert BigEndian(0, 7) == [0, 0, 0, 0, 0, 0, 0];
  }

  lemma {:induction false} ZeroBytes(k: nat)
    ensures forall i :: 0 <= i < k ==> BigEndian(0, k)[i] == 0
  {
    if k > 0 {
      ZeroBytes(k - 1);
    }
  }

  // ----- What is only read -----

  /** The code unit that a byte string of one to three bytes stands for, as UTF-8 has it. */
  function CodeOf(b: Bytes): nat
    requires 1 <= |b| <= 3
  {
    if |b| == 1 then b[0]
    else if |b| == 2 then b[0] as int % 32 * 64 + b[1] as int % 64
    else b[0] as int % 16 * 4096 + b[1] as int % 64 * 64 + b[2] as int % 64
  }

  /** Each 16-bit unit of a text is read as the shortest UTF-8 form of that unit. */
  lemma {:induction false} UnitForm(code: nat)
    requires code < 0x1_0000
    ensures var b := UnitBytes(code);
            && 1 <= |b| <= 3 && CodeOf(b) == code
            && (|b| == 1 <==> code < 0x80) && (|b| == 3 <==> code >= 0x800)
            && (|b| == 1 ==> b[0] < 0x80)
            && (|b| == 2 ==> 0xc0 <= b[0] < 0xe0 && 0x80 <= b[1] < 0xc0)
            && (|b| == 3 ==> 0xe0 <= b[0] < 0xf0 && 0x80 <= b[1] < 0xc0 && 0x80 <= b[2] < 0xc0)
  {
    var high, middle, low := code / 4096, code / 64 % 64, code % 64;
    assert code / 64 == high * 64 + middle;
    assert (0xe0 + high) % 16 == high || code < 0x800;
    assert (0x80 + middle) % 64 == middle && (0x80 + low) % 64 == low;
  }

  /** The shortest form of a code unit. */
  ghost predicate FormOf(b: Bytes, code: nat) {
    1 <= |b| <= 3 && CodeOf(b) == code &&
    (if code < 0x80 then |b| == 1
     else if code < 0x800 then |b| == 2 && 0xc0 <= b[0] < 0xe0 && 0x80 <= b[1] < 0xc0
     else |b| == 3 && 0xe0 <= b[0] < 0xf0 && 0x80 <= b[1] < 0xc0 && 0x80 <= b[2] < 0xc0)
  }

  /** One piece for every two bytes, which give its code unit, the high byte first. */
  ghost predicate FormsOf(pieces: seq<Bytes>, units: Bytes) {
    2 * |pieces| == |units| &&
    forall k :: 0 <= k < |pieces| ==> FormOf(pieces[k], units[2 * k] as int * 256 + units[2 * k + 1])
  }

  /** A text in 16-bit units is read as the forms of its units, one after the other. */
  lemma {:induction false} UnitsForm(units: Bytes) returns (pieces: seq<Bytes>)
    requires |units| % 2 == 0
    ensures FormsOf(pieces, units) && UnitsText(units) == Concat(pieces)
    decreases |units|
  {
    hide FormOf, UnitBytes;
    if units == [] {
      pieces := [];
    } else {
      var code, rest := units[0] as int * 256 + units[1], units[2..];
      UnitIs(code);
      var more := UnitsForm(rest);
      pieces := [UnitBytes(code)] + more;
      assert pieces[1..] == more;
      forall k | 0 < k < |pieces|
        ensures FormOf(pieces[k], units[2 * k] as int * 256 + units[2 * k + 1])
      {
        assert pieces[k] == more[k - 1];
        assert rest[2 * (k - 1)] == units[2 * k] && rest[2 * (k - 1) + 1] == units[2 * k + 1];
      }
    }
  }

  lemma {:induction false} UnitIs(code: nat)
    requires code < 0x1_0000
    ensures FormOf(UnitBytes(code), code)
  {
    hide CodeOf;
    UnitForm(code);
  }

  /** A text in 16-bit units, up to fourteen of them, costs three bytes for each. */
  lemma {:induction false} UnitsRead(f: File, i: nat, units: Bytes)
    requires ValidFile(f) && i < |f.offsets| && |units| % 2 == 0 && |units| < 30
    requires var at := f.offsets[i];
             at + 1 + |units| <= |f.bytes| && f.bytes[at] == 0x60 + |units| / 2 &&
                 f.bytes[at + 1..at + 1 + |units|] == units
    ensures ReadShape(f, i) == Bulk(Text(UnitsText(units)), 3 * (|units| / 2))
  {
    hide UnitsText, ReadRefs;
    var at := f.offsets[i];
    assert f.bytes[at] / 16 == 6 && f.bytes[at] % 16 == |units| / 2;
    assert at + 1 + 2 * (|units| / 2) == at + 1 + |units|;
  }

  /** A float of four bytes is widened. */
  lemma {:induction false} FloatRead(f: File, i: nat, bits: U32)
    requires ValidFile(f) && i < |f.offsets|
    requires var at := f.offsets[i];
             at + 5 <= |f.bytes| && f.bytes[at] == 0x22 && f.bytes[at + 1..at + 5] == BigEndian(bits, 4)
    ensures ReadShape(f, i) == Scalar(Real(f.widen(bits)))
  {
    assert Power2(2) == 4;
    assert bits < Capacity(4) by { assert Capacity(2) == 65536; assert Capacity(3) == 256 * Capacity(2); }
    BigEndianRoundTrip(bits, 4);
  }

  // ----- The order of keys -----

  /** A text comes first when it is a beginning of the other, or is smaller at the first byte where they differ. */
  lemma {:induction false} LessMeans(a: Bytes, b: Bytes)
    ensures Less(a, b) <==>
            (|a| < |b| && a == b[..|a|]) || exists i :: 0 <= i < |a| && i < |b| && DifferFirst(a, b, i) && a[i] < b[i]
    decreases |a|
  {
    if a == [] || b == [] {
      assert b != [] ==> b[..0] == [];
    } else if a[0] != b[0] {
      assert DifferFirst(a, b, 0);
      assert |a| < |b| ==> b[..|a|][0] == b[0];
      forall i | 0 <= i < |a| && i < |b| && DifferFirst(a, b, i)
        ensures i == 0
      {}
    } else {
      var s, t := a[1..], b[1..];
      LessMeans(s, t);
      assert a == [a[0]] + s && b == [b[0]] + t;
      assert |a| < |b| ==> b[..|a|] == [b[0]] + t[..|s|];
      forall i | 0 <= i < |a| && i < |b| && DifferFirst(a, b, i) && a[i] < b[i]
        ensures Less(s, t)
      {
        assert i > 0;
        assert forall j :: 0 <= j < i - 1 ==> s[j] == a[j + 1] && t[j] == b[j + 1];
        assert DifferFirst(s, t, i - 1) && s[i - 1] < t[i - 1];
      }
      if exists i :: 0 <= i < |s| && i < |t| && DifferFirst(s, t, i) && s[i] < t[i] {
        var i :| 0 <= i < |s| && i < |t| && DifferFirst(s, t, i) && s[i] < t[i];
        assert forall j :: 0 < j < i + 1 ==> s[j - 1] == a[j] && t[j - 1] == b[j];
        assert DifferFirst(a, b, i + 1);
      }
    }
  }

  ghost predicate DifferFirst(a: Bytes, b: Bytes, i: nat)
    requires i < |a| && i < |b|
  {
    a[i] != b[i] && forall j :: 0 <= j < i ==> a[j] == b[j]
  }
}

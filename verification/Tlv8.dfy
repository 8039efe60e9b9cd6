/**
 Type-length-value lists with one-byte lengths: a long value is cut into fragments, and fragments of one type are put
 together again.
 */
module Tlv8 {
  import opened ByteStrings

  datatype Field = Field(kind: Byte, value: Bytes)

  const MAX_FRAGMENT: nat := 255

  /** The fragments of one value; an empty value has none. */
  function FieldBytes(kind: Byte, value: Bytes): Bytes
    decreases |value|
  {
    if |value| == 0 then []
    else
      var size := if |value| < MAX_FRAGMENT then |value| else MAX_FRAGMENT;
      [kind, size] + value[..size] + FieldBytes(kind, value[size..])
  }

  function Encode(fields: seq<Field>): Bytes {
    if |fields| == 0 then [] else FieldBytes(fields[0].kind, fields[0].value) + Encode(fields[1..])
  }

  function Lookup(m: map<Byte, Bytes>, kind: Byte): Bytes {
    if kind in m then m[kind] else []
  }

  function Put(m: map<Byte, Bytes>, kind: Byte, part: Bytes): map<Byte, Bytes> {
    m[kind := Lookup(m, kind) + part]
  }

  /** A fragment that runs past the end spoils the whole list; a single byte at the end is ignored. */
  function DecodeFrom(bytes: Bytes, m: map<Byte, Bytes>): Option<map<Byte, Bytes>>
    decreases |bytes|
  {
    if |bytes| < 2 then Some(m)
    else
      var size := bytes[1];
      if 2 + size > |bytes| then None
      else DecodeFrom(bytes[2 + size..], Put(m, bytes[0], bytes[2..2 + size]))
  }

  function Decode(bytes: Bytes): map<Byte, Bytes> {
    match DecodeFrom(bytes, map[])
    case None => map[]
    case Some(m) => m
  }

  method EncodeTlv8(fields: seq<Field>) returns (output: Bytes)
    ensures output == Encode(fields)
  {
    output := [];
    assert fields[0..] == fields && [] + Encode(fields) == Encode(fields);
    for i := 0 to |fields|
      invariant output + Encode(fields[i..]) == Encode(fields)
    {
      assert fields[i..][0] == fields[i] && fields[i..][1..] == fields[i + 1..];
      Associates(output, FieldBytes(fields[i].kind, fields[i].value), Encode(fields[i + 1..]));
      output := AppendField(output, fields[i].kind, fields[i].value);
    }
    assert output + [] == output;
  }

  method AppendField(target: Bytes, kind: Byte, value: Bytes) returns (output: Bytes)
    ensures output == target + FieldBytes(kind, value)
  {
    output := target;
    var offset := 0;
    assert value[0..] == value;
    while offset < |value|
      invariant offset <= |value|
      invariant output + FieldBytes(kind, value[offset..]) == target + FieldBytes(kind, value)
      decreases |value| - offset
    {
      var size := if |value| - offset < 255 then |value| - offset else 255;
      ghost var rest := FieldBytes(kind, value[offset + size..]);
      assert value[offset..][..size] == value[offset..offset + size] &&
             value[offset..][size..] == value[offset + size..];
      Associates(output, [kind, size] + value[offset..offset + size], rest);
      Associates(output, [kind, size], value[offset..offset + size]);
      output := output + [kind, size];
      output := output + value[offset..offset + size];
      offset := offset + size;
    }
    assert output + [] == output;
  }

  lemma {:induction false} DecodeTurn(bytes: Bytes, offset: nat, m: map<Byte, Bytes>)
    requires offset + 2 <= |bytes|
    ensures var start, end := offset + 2, offset + 2 + bytes[offset + 1];
            DecodeFrom(bytes[offset..], m) ==
            if end > |bytes| then None else DecodeFrom(bytes[end..], Put(m, bytes[offset], bytes[start..end]))
  {
    hide Put;
    var rest, size := bytes[offset..], bytes[offset + 1];
    if offset + 2 + size <= |bytes| {
      assert rest[2..2 + size] == bytes[offset + 2..offset + 2 + size];
      assert rest[2 + size..] == bytes[offset + 2 + size..];
    }
  }

  lemma {:induction false} DecodeEnd(bytes: Bytes, offset: nat, m: map<Byte, Bytes>)
    requires offset <= |bytes| < offset + 2
    ensures DecodeFrom(bytes[offset..], m) == Some(m)
  {}

  method DecodeTlv8(bytes: Bytes) returns (result: map<Byte, Bytes>)
    ensures result == Decode(bytes)
  {
    hide DecodeFrom;
    result := map[];
    var offset := 0;
    assert bytes[0..] == bytes;
    while offset + 2 <= |bytes|
      invariant offset <= |bytes|
      invariant DecodeFrom(bytes[offset..], result) == DecodeFrom(bytes, map[])
      decreases |bytes| - offset
    {
      DecodeTurn(bytes, offset, result);
      var kind, size := bytes[offset], bytes[offset + 1];
      offset := offset + 2;
      if offset + size > |bytes| {
        return map[];
      }
      result := result[kind := (if kind in result then result[kind] else []) + bytes[offset..offset + size]];
      offset := offset + size;
    }
    DecodeEnd(bytes, offset, result);
  }

  // ----- Decoding what was encoded -----

  /** All values of a type, one after the other. */
  function Values(fields: seq<Field>, kind: Byte): Bytes {
    if |fields| == 0 then []
    else (if fields[0].kind == kind then fields[0].value else []) + Values(fields[1..], kind)
  }

  function PutAll(m: map<Byte, Bytes>, fields: seq<Field>): map<Byte, Bytes>
    decreases |fields|
  {
    if |fields| == 0 then m
    else PutAll(if fields[0].value == [] then m else Put(m, fields[0].kind, fields[0].value), fields[1..])
  }

  lemma {:induction false} OneFragment(kind: Byte, part: Bytes, rest: Bytes, m: map<Byte, Bytes>)
    requires |part| <= MAX_FRAGMENT
    ensures DecodeFrom([kind, |part|] + part + rest, m) == DecodeFrom(rest, Put(m, kind, part))
  {
    var b := [kind, |part|] + part + rest;
    assert b[1] == |part| && b[2..2 + |part|] == part && b[2 + |part|..] == rest;
  }

  lemma {:induction false} PutTwice(m: map<Byte, Bytes>, kind: Byte, a: Bytes, b: Bytes)
    ensures Put(Put(m, kind, a), kind, b) == Put(m, kind, a + b)
  {
    Associates(Lookup(m, kind), a, b);
  }

  lemma {:induction false} FieldParts(kind: Byte, value: Bytes)
    ensures FieldBytes(kind, value) ==
            if value == [] then []
            else
              var size := if |value| < MAX_FRAGMENT then |value| else MAX_FRAGMENT;
              [kind, size] + value[..size] + FieldBytes(kind, value[size..])
  {}

  lemma {:induction false} OneField(kind: Byte, value: Bytes, rest: Bytes, m: map<Byte, Bytes>)
    requires value != []
    ensures DecodeFrom(FieldBytes(kind, value) + rest, m) == DecodeFrom(rest, Put(m, kind, value))
    decreases |value|
  {
    hide FieldBytes, DecodeFrom, Put;
    var size := if |value| < MAX_FRAGMENT then |value| else MAX_FRAGMENT;
    var part, others := value[..size], value[size..];
    FieldParts(kind, value);
    FieldParts(kind, others);
    Associates([kind, size] + part, FieldBytes(kind, others), rest);
    OneFragment(kind, part, FieldBytes(kind, others) + rest, m);
    if others == [] {
      assert part == value && [] + rest == rest;
    } else {
      OneField(kind, others, rest, Put(m, kind, part));
      PutTwice(m, kind, part, others);
      assert part + others == value;
    }
  }

  lemma {:induction false} AllFields(fields: seq<Field>, m: map<Byte, Bytes>)
    ensures DecodeFrom(Encode(fields), m) == Some(PutAll(m, fields))
    decreases |fields|
  {
    if |fields| > 0 {
      var f, rest := fields[0], Encode(fields[1..]);
      if f.value == [] {
        assert [] + rest == rest;
        AllFields(fields[1..], m);
      } else {
        OneField(f.kind, f.value, rest, m);
        AllFields(fields[1..], Put(m, f.kind, f.value));
      }
    }
  }

  lemma {:induction false} PutAllLookup(m: map<Byte, Bytes>, fields: seq<Field>, kind: Byte)
    ensures Lookup(PutAll(m, fields), kind) == Lookup(m, kind) + Values(fields, kind)
    ensures kind in PutAll(m, fields) <==> kind in m || Values(fields, kind) != []
    decreases |fields|
  {
    if |fields| > 0 {
      var f := fields[0];
      var next := if f.value == [] then m else Put(m, f.kind, f.value);
      var own := if f.kind == kind then f.value else [];
      PutAllLookup(next, fields[1..], kind);
      assert Lookup(next, kind) == Lookup(m, kind) + own;
      Associates(Lookup(m, kind), own, Values(fields[1..], kind));
    } else {
      assert Lookup(m, kind) + [] == Lookup(m, kind);
    }
  }

  /**
   Decoding an encoded list maps each type to all its values in order; a type whose values are all empty is not there.
   */
  lemma {:induction false} RoundTrip(fields: seq<Field>, kind: Byte)
    ensures kind in Decode(Encode(fields)) <==> Values(fields, kind) != []
    ensures Lookup(Decode(Encode(fields)), kind) == Values(fields, kind)
  {
    AllFields(fields, map[]);
    PutAllLookup(map[], fields, kind);
  }

  // ----- The wire -----

  lemma {:induction false} FieldStep(kind: Byte, value: Bytes)
    requires value != []
    ensures var b, size := FieldBytes(kind, value), if |value| < 255 then |value| else 255;
            && |b| >= size + 2 && b[0] == kind && b[1] == size && b[2..2 + size] == value[..size]
            && b[2 + size..] == FieldBytes(kind, value[size..])
  {}

  /** The number of fragments. */
  lemma {:induction false} FieldLength(kind: Byte, value: Bytes)
    ensures |FieldBytes(kind, value)| == |value| + 2 * ((|value| + 254) / 255)
    decreases |value|
  {
    if value != [] {
      var size := if |value| < 255 then |value| else 255;
      FieldStep(kind, value);
      FieldLength(kind, value[size..]);
      assert |FieldBytes(kind, value)| == 2 + size + |FieldBytes(kind, value[size..])|;
    }
  }

  lemma {:induction false} SameByte(b: Bytes, value: Bytes, size: nat, k: nat)
    requires k < size <= |value| && 2 + size <= |b| && b[2..2 + size] == value[..size]
    ensures b[2 + k] == value[k]
  {
    assert b[2..2 + size][k] == b[2 + k];
  }

  /**
   Byte `k` of a value stands in the fragment number k / 255, behind the two bytes of that fragment: the type, and the
   length, which is 255 but in the last fragment.
   */
  lemma {:induction false} FragmentForm(kind: Byte, value: Bytes, k: nat)
    requires k < |value|
    ensures var b, i := FieldBytes(kind, value), k / 255;
            && 257 * i + 2 + k % 255 < |b| && b[257 * i + 2 + k % 255] == value[k]
            && b[257 * i] == kind && b[257 * i + 1] == if |value| - 255 * i < 255 then |value| - 255 * i else 255
    decreases |value|
  {
    hide FieldBytes;
    var b, i, j := FieldBytes(kind, value), k / 255, k % 255;
    FieldStep(kind, value);
    if k >= 255 {
      var tail := b[257..];
      FragmentForm(kind, value[255..], k - 255);
      assert (k - 255) / 255 == i - 1 && (k - 255) % 255 == j;
      assert tail[257 * (i - 1) + 2 + j] == b[257 * i + 2 + j];
      assert tail[257 * (i - 1)] == b[257 * i] && tail[257 * (i - 1) + 1] == b[257 * i + 1];
    } else {
      SameByte(b, value, if |value| < 255 then |value| else 255, k);
    }
  }

  // ----- Decoding any bytes -----

  ghost predicate AllShort(fragments: seq<Field>) {
    forall i :: 0 <= i < |fragments| ==> |fragments[i].value| <= 255
  }

  /** Fragments one after the other: the type, the length, and as many bytes. */
  function Fragments(fragments: seq<Field>): Bytes
    requires AllShort(fragments)
  {
    if |fragments| == 0 then []
    else
      var f := fragments[0];
      [f.kind, |f.value|] + f.value + Fragments(fragments[1..])
  }

  /** A fragment that says it is longer than what is left, or the single byte that may be left. */
  predicate Broken(rest: Bytes) { |rest| < 2 || 2 + rest[1] > |rest| }

  function PutEach(m: map<Byte, Bytes>, fragments: seq<Field>): map<Byte, Bytes>
    decreases |fragments|
  {
    if |fragments| == 0 then m else PutEach(Put(m, fragments[0].kind, fragments[0].value), fragments[1..])
  }

  lemma {:induction false} EachRead(fragments: seq<Field>, rest: Bytes, m: map<Byte, Bytes>)
    requires AllShort(fragments)
    ensures DecodeFrom(Fragments(fragments) + rest, m) == DecodeFrom(rest, PutEach(m, fragments))
    decreases |fragments|
  {
    hide DecodeFrom, Put;
    if |fragments| == 0 {
      assert [] + rest == rest;
    } else {
      var f, others := fragments[0], Fragments(fragments[1..]);
      Associates([f.kind, |f.value|] + f.value, others, rest);
      OneFragment(f.kind, f.value, others + rest, m);
      EachRead(fragments[1..], rest, Put(m, f.kind, f.value));
    }
  }

  ghost predicate Occurs(fragments: seq<Field>, kind: Byte) {
    exists i :: 0 <= i < |fragments| && fragments[i].kind == kind
  }

  lemma {:induction false} OccursFirst(fragments: seq<Field>, kind: Byte)
    requires |fragments| > 0
    ensures Occurs(fragments, kind) <==> fragments[0].kind == kind || Occurs(fragments[1..], kind)
  {
    var tail := fragments[1..];
    if Occurs(tail, kind) {
      var i :| 0 <= i < |tail| && tail[i].kind == kind;
      assert fragments[i + 1].kind == kind;
    }
    if Occurs(fragments, kind) {
      var i :| 0 <= i < |fragments| && fragments[i].kind == kind;
      assert i > 0 ==> tail[i - 1].kind == kind;
    }
  }

  lemma {:induction false} EachLookup(m: map<Byte, Bytes>, fragments: seq<Field>, kind: Byte)
    ensures Lookup(PutEach(m, fragments), kind) == Lookup(m, kind) + Values(fragments, kind)
    ensures kind in PutEach(m, fragments) <==> kind in m || Occurs(fragments, kind)
    decreases |fragments|
  {
    hide Occurs;
    if |fragments| == 0 {
      assert Lookup(m, kind) + [] == Lookup(m, kind);
      NoneOccurs(kind);
    } else {
      var f := fragments[0];
      var own := if f.kind == kind then f.value else [];
      EachLookup(Put(m, f.kind, f.value), fragments[1..], kind);
      OccursFirst(fragments, kind);
      assert Lookup(Put(m, f.kind, f.value), kind) == Lookup(m, kind) + own by {
        assert Lookup(m, kind) + [] == Lookup(m, kind);
      }
      Associates(Lookup(m, kind), own, Values(fragments[1..], kind));
    }
  }

  lemma {:induction false} NoneOccurs(kind: Byte)
    ensures !Occurs([], kind)
  {}

  /** Any bytes are fragments, and behind them less than one more. */
  lemma {:induction false} AnyBytes(bytes: Bytes) returns (fragments: seq<Field>, rest: Bytes)
    ensures AllShort(fragments) && bytes == Fragments(fragments) + rest && Broken(rest)
    decreases |bytes|
  {
    if Broken(bytes) {
      fragments, rest := [], bytes;
      assert [] + bytes == bytes;
    } else {
      var size := bytes[1];
      var first := Field(bytes[0], bytes[2..2 + size]);
      var more: seq<Field>;
      more, rest := AnyBytes(bytes[2 + size..]);
      fragments := [first] + more;
      assert fragments[1..] == more;
      Associates([first.kind, |first.value|] + first.value, Fragments(more), rest);
      assert bytes == [bytes[0], size] + bytes[2..2 + size] + bytes[2 + size..];
    }
  }

  /**
   What any bytes decode to: nothing at all if a fragment is cut short; otherwise the types of the fragments, each with
   the values of its fragments in order. A single byte that is left is ignored.
   */
  lemma {:induction false} DecodedMeans(fragments: seq<Field>, rest: Bytes, kind: Byte)
    requires AllShort(fragments) && Broken(rest)
    ensures var m := Decode(Fragments(fragments) + rest);
            if |rest| >= 2 then m == map[]
            else (kind in m <==> Occurs(fragments, kind)) && Lookup(m, kind) == Values(fragments, kind)
  {
    EachRead(fragments, rest, map[]);
    EachLookup(map[], fragments, kind);
  }
}

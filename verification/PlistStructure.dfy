/** Numbering the parts of a value and resolving the numbers again; what resolving costs and what it can return. */
module PlistStructure {
  import opened ByteStrings
  import opened PlistFormat

  // ----- Resolving what flattening numbered -----

  function Spend(used: Used, nodes: nat, bytes: nat): Used {
    Used(used.nodes + nodes, used.bytes + bytes, used.calls + nodes)
  }

  ghost predicate Affordable(used: Used, nodes: nat, bytes: nat) {
    used.nodes + nodes <= MAX_NODES && used.bytes + bytes <= MAX_BYTES
  }

  /** `part` lies in the table from number `i` on. */
  ghost predicate Among(t: seq<Shape>, i: nat, part: seq<Shape>) {
    i + |part| <= |t| && forall k {:trigger part[k]} :: 0 <= k < |part| ==> t[i + k] == part[k]
  }

  lemma {:induction false} AmongParts(t: seq<Shape>, i: nat, a: seq<Shape>, b: seq<Shape>)
    requires Among(t, i, a + b)
    ensures Among(t, i, a) && Among(t, i + |a|, b)
  {
    forall k | 0 <= k < |a|
      ensures t[i + k] == a[k]
    {
      assert (a + b)[k] == a[k];
    }
    forall k | 0 <= k < |b|
      ensures t[i + |a| + k] == b[k]
    {
      assert (a + b)[|a| + k] == b[k];
    }
  }

  lemma {:induction false} AmongFirst(t: seq<Shape>, i: nat, part: seq<Shape>)
    requires Among(t, i, part) && part != []
    ensures i < |t| && t[i] == part[0]
  {
    assert t[i + 0] == part[0];
  }

  /** A flattened value within the three budgets resolves to itself and costs exactly its measures. */
  lemma {:induction false} ObjectResolves(t: seq<Shape>, v: Value, i: nat, depth: nat, used: Used)
    requires WellFormed(v) && Among(t, i, Flatten(v, i))
    requires depth + Depth(v) <= MAX_DEPTH && Affordable(used, Size(v), Payload(v))
    ensures Object(t, i, depth, used) == (Some(v), Spend(used, Size(v), Payload(v)))
    decreases v, 1
  {
    AmongFirst(t, i, Flatten(v, i));
    if v.Array? {
      ArrayResolves(t, v, i, depth, used);
    } else if v.Dictionary? {
      DictionaryResolves(t, v, i, depth, used);
    }
  }

  lemma {:induction false} ArrayResolves(t: seq<Shape>, v: Value, i: nat, depth: nat, used: Used)
    requires v.Array? && WellFormed(v) && Among(t, i, Flatten(v, i))
    requires depth + Depth(v) <= MAX_DEPTH && Affordable(used, Size(v), Payload(v))
    ensures Object(t, i, depth, used) == (Some(v), Spend(used, Size(v), Payload(v)))
    decreases v, 0
  {
    hide FlattenAll, Among;
    var items, refs := v.items, Starts(v.items, i + 1);
    AmongFirst(t, i, Flatten(v, i));
    AmongParts(t, i, [Refs(false, refs)], FlattenAll(items, i + 1));
    var u := Spend(used, 1, 0);
    if items != [] {
      ObjectsResolve(t, items, i + 1, depth + 1, u);
    }
    assert Objects(t, refs, depth + 1, u) == (Some(items), Spend(u, Sizes(items), Payloads(items)));
  }

  lemma {:induction false} ObjectsStep(
    t: seq<Shape>, ref: nat, refs: seq<nat>, depth: nat, used: Used, first: Value, rest: seq<Value>, u: Used, w: Used)
    requires depth <= MAX_DEPTH
    requires Object(t, ref, depth, used) == (Some(first), u) && Objects(t, refs, depth, u) == (Some(rest), w)
    ensures Objects(t, [ref] + refs, depth, used) == (Some([first] + rest), w)
  {
    assert ([ref] + refs)[1..] == refs;
  }

  lemma {:induction false} ObjectsResolve(t: seq<Shape>, vs: seq<Value>, base: nat, depth: nat, used: Used)
    requires (forall x <- vs :: WellFormed(x)) && Among(t, base, FlattenAll(vs, base))
    requires depth + Depths(vs) <= MAX_DEPTH && Affordable(used, Sizes(vs), Payloads(vs))
    ensures Objects(t, Starts(vs, base), depth, used) == (Some(vs), Spend(used, Sizes(vs), Payloads(vs)))
    decreases vs, 0
  {
    if vs != [] {
      var first, rest := vs[0], vs[1..];
      var next := base + Size(first);
      AmongParts(t, base, Flatten(first, base), FlattenAll(rest, next));
      ObjectResolves(t, first, base, depth, used);
      var u := Spend(used, Size(first), Payload(first));
      ObjectsResolve(t, rest, next, depth, u);
      var w := Spend(u, Sizes(rest), Payloads(rest));
      ObjectsStep(t, base, Starts(rest, next), depth, used, first, rest, u, w);
      assert w == Spend(used, Sizes(vs), Payloads(vs));
      assert Starts(vs, base) == [base] + Starts(rest, next);
      assert vs == [first] + rest;
    }
  }

  lemma {:induction false} DictionaryResolves(t: seq<Shape>, v: Value, i: nat, depth: nat, used: Used)
    requires v.Dictionary? && WellFormed(v) && Among(t, i, Flatten(v, i))
    requires depth + Depth(v) <= MAX_DEPTH && Affordable(used, Size(v), Payload(v))
    ensures Object(t, i, depth, used) == (Some(v), Spend(used, Size(v), Payload(v)))
    decreases v, 0
  {
    hide Entries, Object, FlattenAll, Flatten, Starts, Among, Range, TextShapes;
    var keys, values, first := v.keys, v.values, i + 1 + |v.keys|;
    var keyRefs, valueRefs := Range(i + 1, |keys|), Starts(values, first);
    DictionaryParts(t, keys, values, i);
    var u, w := Spend(used, 1, 0), Spend(used, Size(v), Payload(v));
    assert Entries(t, keyRefs, valueRefs, depth + 1, u) == (Some(RawEntries(keys, values)), w) by {
      if |keys| > 0 {
        EntriesResolve(t, keys, values, i + 1, first, depth + 1, u);
      } else {
        EntriesNone(t, keys, values, i + 1, first, depth + 1, u);
      }
    }
    assert DictionaryOf(RawEntries(keys, values)) == v by {
      InsertAllSorted(keys, values);
    }
    ObjectOfDictionary(t, i, depth, used, keyRefs, valueRefs, RawEntries(keys, values), w);
  }

  lemma {:induction false} DictionaryParts(t: seq<Shape>, keys: seq<Bytes>, values: seq<Value>, i: nat)
    requires Among(t, i, Flatten(Dictionary(keys, values), i))
    ensures var first := i + 1 + |keys|;
            && t[i] == Refs(true, Range(i + 1, |keys|) + Starts(values, first))
            && Among(t, i + 1, TextShapes(keys)) && Among(t, first, FlattenAll(values, first))
  {
    var first := i + 1 + |keys|;
    var head := [Refs(true, Range(i + 1, |keys|) + Starts(values, first))];
    AmongParts(t, i, head + TextShapes(keys), FlattenAll(values, first));
    AmongParts(t, i, head, TextShapes(keys));
    AmongFirst(t, i, head);
  }

  lemma {:induction false} ObjectOfDictionary(
    t: seq<Shape>, i: nat, depth: nat, used: Used, keyRefs: seq<nat>, valueRefs: seq<nat>, e: RawEntries, w: Used)
    requires i < |t| && depth <= MAX_DEPTH && used.nodes < MAX_NODES
    requires |keyRefs| == |valueRefs| && t[i] == Refs(true, keyRefs + valueRefs)
    requires Entries(t, keyRefs, valueRefs, depth + 1, Spend(used, 1, 0)) == (Some(e), w)
    ensures Object(t, i, depth, used) == (Some(DictionaryOf(e)), w)
  {
    var refs := keyRefs + valueRefs;
    assert refs[..|refs| / 2] == keyRefs && refs[|refs| / 2..] == valueRefs;
  }

  lemma {:induction false} EntriesResolve(t: seq<Shape>, keys: seq<Bytes>, values: seq<Value>, keyBase: nat, base: nat,
                                          depth: nat, used: Used)
    requires |keys| == |values| && forall x <- values :: WellFormed(x)
    requires Among(t, keyBase, TextShapes(keys)) && Among(t, base, FlattenAll(values, base))
    requires depth <= MAX_DEPTH && depth + Depths(values) <= MAX_DEPTH
    requires Affordable(used, |keys| + Sizes(values), Lengths(keys) + Payloads(values))
    ensures Entries(t, Range(keyBase, |keys|), Starts(values, base), depth, used)
         == (Some(RawEntries(keys, values)), Spend(used, |keys| + Sizes(values), Lengths(keys) + Payloads(values)))
    decreases values, 1
  {
    hide Entries, Among, Object, TextShapes, FlattenAll, Starts, Range, Flatten;
    if |keys| == 0 {
      EntriesNone(t, keys, values, keyBase, base, depth, used);
    } else {
      var u := Spend(Spend(used, 1, |keys[0]|), Size(values[0]), Payload(values[0]));
      FirstEntry(t, keys, values, keyBase, base, depth, used);
      EntriesResolve(t, keys[1..], values[1..], keyBase + 1, base + Size(values[0]), depth, u);
      EntriesJoin(t, keys, values, keyBase, base, depth, used);
    }
  }

  lemma {:induction false} FirstEntry(
    t: seq<Shape>, keys: seq<Bytes>, values: seq<Value>, keyBase: nat, base: nat, depth: nat, used: Used)
    requires |keys| == |values| > 0 && WellFormed(values[0])
    requires Among(t, keyBase, TextShapes(keys)) && Among(t, base, FlattenAll(values, base))
    requires depth + Depth(values[0]) <= MAX_DEPTH
    requires Affordable(used, 1 + Size(values[0]), |keys[0]| + Payload(values[0]))
    ensures var u := Spend(used, 1, |keys[0]|);
            && Object(t, keyBase, depth, used) == (Some(Text(keys[0])), u)
            && Object(t, base, depth, u) == (Some(values[0]), Spend(u, Size(values[0]), Payload(values[0])))
    ensures var next := base + Size(values[0]);
            Among(t, keyBase + 1, TextShapes(keys[1..])) && Among(t, next, FlattenAll(values[1..], next))
    decreases values, 0
  {
    var key, first := keys[0], values[0];
    var next := base + Size(first);
    AmongParts(t, keyBase, [TextShape(key)], TextShapes(keys[1..]));
    AmongParts(t, base, Flatten(first, base), FlattenAll(values[1..], next));
    KeyResolves(t, key, keyBase, depth, used);
    ObjectResolves(t, first, base, depth, Spend(used, 1, |key|));
  }

  lemma {:induction false} EntriesJoin(
    t: seq<Shape>, keys: seq<Bytes>, values: seq<Value>, keyBase: nat, base: nat, depth: nat, used: Used)
    requires |keys| == |values| > 0 && depth <= MAX_DEPTH
    requires var u := Spend(used, 1, |keys[0]|);
             var w := Spend(u, Size(values[0]), Payload(values[0]));
             var more, rest := keys[1..], values[1..];
             && Object(t, keyBase, depth, used) == (Some(Text(keys[0])), u)
             && Object(t, base, depth, u) == (Some(values[0]), w)
             && Entries(t, Range(keyBase + 1, |more|), Starts(rest, base + Size(values[0])), depth, w)
                == (Some(RawEntries(more, rest)), Spend(w, |more| + Sizes(rest), Lengths(more) + Payloads(rest)))
    ensures Entries(t, Range(keyBase, |keys|), Starts(values, base), depth, used)
         == (Some(RawEntries(keys, values)), Spend(used, |keys| + Sizes(values), Lengths(keys) + Payloads(values)))
  {
    var more, rest := keys[1..], values[1..];
    var u := Spend(used, 1, |keys[0]|);
    var w := Spend(u, Size(values[0]), Payload(values[0]));
    var x := Spend(w, |more| + Sizes(rest), Lengths(more) + Payloads(rest));
    EntriesStep(t, keyBase, Range(keyBase + 1, |more|), base, Starts(rest, base + Size(values[0])), depth, used,
                keys[0], values[0], u, w, RawEntries(more, rest), x);
    SpendHeads(keys, values, used);
    RefHeads(keys, values, keyBase, base);
    assert keys == [keys[0]] + more && values == [values[0]] + rest;
  }

  lemma {:induction false} EntriesNone(
    t: seq<Shape>, keys: seq<Bytes>, values: seq<Value>, keyBase: nat, base: nat, depth: nat, used: Used)
    requires |keys| == |values| == 0 && depth <= MAX_DEPTH + 1
    ensures Entries(t, Range(keyBase, |keys|), Starts(values, base), depth, used)
         == (Some(RawEntries(keys, values)), Spend(used, |keys| + Sizes(values), Lengths(keys) + Payloads(values)))
  {
    assert keys == [] && values == [];
  }

  lemma {:induction false} SpendHeads(keys: seq<Bytes>, values: seq<Value>, used: Used)
    requires |keys| == |values| > 0
    ensures var w := Spend(Spend(used, 1, |keys[0]|), Size(values[0]), Payload(values[0]));
            Spend(w, |keys[1..]| + Sizes(values[1..]), Lengths(keys[1..]) + Payloads(values[1..]))
            == Spend(used, |keys| + Sizes(values), Lengths(keys) + Payloads(values))
  {}

  lemma {:induction false} RefHeads(keys: seq<Bytes>, values: seq<Value>, keyBase: nat, base: nat)
    requires |keys| == |values| > 0
    ensures Range(keyBase, |keys|) == [keyBase] + Range(keyBase + 1, |keys[1..]|)
    ensures Starts(values, base) == [base] + Starts(values[1..], base + Size(values[0]))
  {}

  lemma {:induction false} KeyResolves(t: seq<Shape>, key: Bytes, i: nat, depth: nat, used: Used)
    requires Among(t, i, [TextShape(key)]) && depth <= MAX_DEPTH && Affordable(used, 1, |key|)
    ensures Object(t, i, depth, used) == (Some(Text(key)), Spend(used, 1, |key|))
  {
    AmongFirst(t, i, [TextShape(key)]);
  }

  lemma {:induction false} EntriesStep(t: seq<Shape>, keyRef: nat, keyRefs: seq<nat>, valueRef: nat,
      valueRefs: seq<nat>, depth: nat, used: Used,
                    key: Bytes, value: Value, u: Used, w: Used, rest: RawEntries, x: Used)
    requires depth <= MAX_DEPTH && |keyRefs| == |valueRefs|
    requires Object(t, keyRef, depth, used) == (Some(Text(key)), u) && Object(t, valueRef, depth, u) == (Some(value), w)
    requires Entries(t, keyRefs, valueRefs, depth, w) == (Some(rest), x)
    ensures Entries(t, [keyRef] + keyRefs, [valueRef] + valueRefs, depth, used)
         == (Some(RawEntries([key] + rest.keys, [value] + rest.values)), x)
  {
    assert ([keyRef] + keyRefs)[1..] == keyRefs && ([valueRef] + valueRefs)[1..] == valueRefs;
  }

  // ----- Key order -----

  lemma {:induction false} LessIrreflexive(a: Bytes)
    ensures !Less(a, a)
  {
    if a != [] {
      LessIrreflexive(a[1..]);
    }
  }

  lemma {:induction false} LessTransitive(a: Bytes, b: Bytes, c: Bytes)
    requires Less(a, b) && Less(b, c)
    ensures Less(a, c)
  {
    if a != [] && a[0] == b[0] == c[0] {
      LessTransitive(a[1..], b[1..], c[1..]);
    }
  }

  lemma {:induction false} LessTotal(a: Bytes, b: Bytes)
    ensures a == b || Less(a, b) || Less(b, a)
  {
    if a != [] && b != [] && a[0] == b[0] {
      LessTotal(a[1..], b[1..]);
      assert a == [a[0]] + a[1..] && b == [b[0]] + b[1..];
    }
  }

  lemma {:induction false} AscendingTail(keys: seq<Bytes>, more: seq<Bytes>)
    requires keys != [] && Ascending(keys + more)
    ensures Ascending(keys[1..] + more)
  {
    var whole, tail := keys + more, keys[1..] + more;
    forall i, j | 0 <= i < j < |tail|
      ensures Less(tail[i], tail[j])
    {
      assert tail[i] == whole[i + 1] && tail[j] == whole[j + 1];
    }
  }

  lemma {:induction false} InsertLast(doneKeys: seq<Bytes>, done: seq<Value>, keys: seq<Bytes>, value: Value)
    requires |doneKeys| == |done| && keys != [] && Ascending(doneKeys + keys)
    ensures Insert(doneKeys, done, keys[0], value) == (doneKeys + [keys[0]], done + [value])
    decreases |doneKeys|
  {
    if doneKeys == [] {
      assert doneKeys + [keys[0]] == [keys[0]] && done + [value] == [value];
    } else {
      var whole, key := doneKeys + keys, keys[0];
      assert Less(whole[0], whole[|doneKeys|]);
      assert whole[0] == doneKeys[0] && whole[|doneKeys|] == key;
      LessIrreflexive(key);
      if Less(key, doneKeys[0]) {
        LessTransitive(key, doneKeys[0], key);
      }
      AscendingTail(doneKeys, keys);
      InsertLast(doneKeys[1..], done[1..], keys, value);
      assert [doneKeys[0]] + (doneKeys[1..] + [key]) == doneKeys + [key];
      assert [done[0]] + (done[1..] + [value]) == done + [value];
    }
  }

  lemma {:induction false} AscendingPrefix(keys: seq<Bytes>, n: nat)
    requires n <= |keys| && Ascending(keys)
    ensures Ascending(keys[..n])
  {}

  /** Entries that come in key order stay as they are. */
  lemma {:induction false} InsertAllSorted(keys: seq<Bytes>, values: seq<Value>)
    requires |keys| == |values| && Ascending(keys)
    ensures InsertAll(keys, values) == (keys, values)
    decreases |keys|
  {
    var n := |keys|;
    if n > 0 {
      var k, v := keys[..n - 1], values[..n - 1];
      AscendingPrefix(keys, n - 1);
      InsertAllSorted(k, v);
      assert k + [keys[n - 1]] == keys && v + [values[n - 1]] == values;
      InsertLast(k, v, [keys[n - 1]], values[n - 1]);
    }
  }
}

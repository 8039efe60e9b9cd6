/**
 Decoding arbitrary bytes: objects may name themselves or share parts, yet the number of visits is bounded, and
 whatever comes out is within the limits, so that it survives being encoded and decoded again.
 */
module PlistLimits {
  import opened ByteStrings
  import opened PlistFormat
  import opened PlistStructure
  import opened PlistBytes

  // ----- What a table read from a file can contain -----

  /** Scalars are scalars, strings charge at least their length, and references stay in the table. */
  ghost predicate Honest(s: Shape, count: nat) {
    match s
    case Malformed => true
    case Scalar(v) => v.Bool? || v.Integer? || v.Real?
    case Bulk(v, cost) => (v.Text? && |v.text| <= cost) || (v.Data? && |v.data| <= cost)
    case Refs(dictionary, refs) => forall k :: 0 <= k < |refs| ==> refs[k] < count
  }

  ghost predicate HonestTable(t: seq<Shape>) {
    forall i :: 0 <= i < |t| ==> Honest(t[i], |t|)
  }

  lemma {:induction false} RefsInTable(f: File, at: nat, count: nat)
    ensures var r := ReadRefs(f, at, count);
            r.Some? ==> forall k :: 0 <= k < count ==> r.value[k] < |f.offsets|
    decreases count
  {
    if count > 0 && ReadBE(f.bytes, at, f.refSize).Some? {
      RefsInTable(f, at + f.refSize, count - 1);
    }
  }

  lemma {:induction false} CountedHonest(f: File, kind: nat, items: nat, at: nat)
    requires f.refSize > 0
    ensures Honest(ReadCounted(f, kind, items, at), |f.offsets|)
  {
    RefsInTable(f, at, if kind == 0xd then 2 * items else items);
  }

  lemma {:induction false} ShapesHonest(f: File)
    requires ValidFile(f)
    ensures HonestTable(Shapes(f))
  {
    forall i | 0 <= i < |f.offsets|
      ensures Honest(ReadShape(f, i), |f.offsets|)
    {
      var offset := f.offsets[i];
      match Count(f.bytes, offset, f.bytes[offset] % 16)
      case None =>
      case Some((items, at)) => CountedHonest(f, f.bytes[offset] / 16, items, at);
    }
  }

  // ----- Dictionaries built from entries in any order -----

  lemma {:induction false} InsertKeepsOrder(keys: seq<Bytes>, values: seq<Value>, key: Bytes, value: Value)
    requires |keys| == |values| && Ascending(keys)
    ensures Ascending(Insert(keys, values, key, value).0)
    ensures forall k <- Insert(keys, values, key, value).0 :: k == key || k in keys
    decreases |keys|
  {
    if keys != [] && key != keys[0] {
      LessTotal(key, keys[0]);
      if Less(key, keys[0]) {
        FirstAscending(key, keys);
      } else {
        AscendingDrop(keys);
        InsertKeepsOrder(keys[1..], values[1..], key, value);
        var tail := Insert(keys[1..], values[1..], key, value).0;
        forall k <- tail
          ensures Less(keys[0], k)
        {
          if k != key {
            var i :| 0 <= i < |keys[1..]| && keys[1..][i] == k;
            assert keys[i + 1] == k;
          }
        }
        PrependAscending(keys[0], tail);
      }
    }
  }

  lemma {:induction false} AscendingDrop(keys: seq<Bytes>)
    requires keys != [] && Ascending(keys)
    ensures Ascending(keys[1..])
  {
    assert keys + [] == keys && keys[1..] + [] == keys[1..];
    AscendingTail(keys, []);
  }

  lemma {:induction false} PrependAscending(first: Bytes, keys: seq<Bytes>)
    requires Ascending(keys) && forall k <- keys :: Less(first, k)
    ensures Ascending([first] + keys)
  {
    var all := [first] + keys;
    forall i, j | 0 <= i < j < |all|
      ensures Less(all[i], all[j])
    {
      assert all[j] == keys[j - 1] && keys[j - 1] in keys;
      if i > 0 {
        assert all[i] == keys[i - 1];
      }
    }
  }

  lemma {:induction false} FirstAscending(key: Bytes, keys: seq<Bytes>)
    requires keys != [] && Ascending(keys) && Less(key, keys[0])
    ensures Ascending([key] + keys)
  {
    forall k <- keys
      ensures Less(key, k)
    {
      var i :| 0 <= i < |keys| && keys[i] == k;
      if i > 0 {
        assert Less(keys[0], keys[i]);
        LessTransitive(key, keys[0], k);
      }
    }
    PrependAscending(key, keys);
  }

  /** The measures of a list of entries. */
  ghost predicate Measured(keys: seq<Bytes>, values: seq<Value>, nodes: nat, bytes: nat, depth: nat) {
    && |keys| == |values| && |keys| + Sizes(values) <= nodes && Lengths(keys) + Payloads(values) <= bytes
    && Depths(values) <= depth && forall x <- values :: WellFormed(x)
  }

  lemma {:induction false} InsertMeasured(
    keys: seq<Bytes>, values: seq<Value>, key: Bytes, value: Value, nodes: nat, bytes: nat, depth: nat)
    requires Measured(keys, values, nodes, bytes, depth) && WellFormed(value) && Depth(value) <= depth
    ensures var (ks, vs) := Insert(keys, values, key, value);
            Measured(ks, vs, nodes + 1 + Size(value), bytes + |key| + Payload(value), depth)
    decreases |keys|
  {
    if keys == [] {
      assert [key][1..] == [] && [value][1..] == [];
    } else if key == keys[0] {
    } else if Less(key, keys[0]) {
      assert ([key] + keys)[1..] == keys && ([value] + values)[1..] == values;
    } else {
      var n, b := 1 + Size(values[0]), |keys[0]| + Payload(values[0]);
      InsertMeasured(keys[1..], values[1..], key, value, nodes - n, bytes - b, depth);
      var (ks, vs) := Insert(keys[1..], values[1..], key, value);
      assert ([keys[0]] + ks)[1..] == ks && ([values[0]] + vs)[1..] == vs;
    }
  }

  lemma {:induction false} MeasuredAppend(keys: seq<Bytes>, values: seq<Value>, nodes: nat, bytes: nat, depth: nat)
    requires Measured(keys, values, nodes, bytes, depth) && |keys| > 0
    ensures var n := |keys| - 1;
            && WellFormed(values[n]) && Depth(values[n]) <= depth
            && nodes >= 1 + Size(values[n]) && bytes >= |keys[n]| + Payload(values[n])
            && Measured(keys[..n], values[..n], nodes - 1 - Size(values[n]), bytes - |keys[n]| - Payload(values[n]),
               depth)
    decreases |keys|
  {
    var n := |keys| - 1;
    if n == 0 {
      assert keys[..n] == [] && values[..n] == [];
    } else {
      MeasuredAppend(keys[1..], values[1..], nodes - 1 - Size(values[0]), bytes - |keys[0]| - Payload(values[0]),
          depth);
      assert keys[..n][1..] == keys[1..][..n - 1] && values[..n][1..] == values[1..][..n - 1];
    }
  }

  lemma {:induction false} InsertAllMeasured(keys: seq<Bytes>, values: seq<Value>, nodes: nat, bytes: nat, depth: nat)
    requires Measured(keys, values, nodes, bytes, depth)
    ensures var (ks, vs) := InsertAll(keys, values); Measured(ks, vs, nodes, bytes, depth) && Ascending(ks)
    decreases |keys|
  {
    var n := |keys|;
    if n > 0 {
      var k, v := keys[n - 1], values[n - 1];
      MeasuredAppend(keys, values, nodes, bytes, depth);
      InsertAllMeasured(keys[..n - 1], values[..n - 1], nodes - 1 - Size(v), bytes - |k| - Payload(v), depth);
      var (ks, vs) := InsertAll(keys[..n - 1], values[..n - 1]);
      InsertKeepsOrder(ks, vs, k, v);
      InsertMeasured(ks, vs, k, v, nodes - 1 - Size(v), bytes - |k| - Payload(v), depth);
    }
  }

  // ----- Limits of a decoded value -----

  ghost predicate InBudget(used: Used) { used.nodes <= MAX_NODES && used.bytes <= MAX_BYTES }

  /** A successful read stays in budget and has paid for at least the nodes and bytes it returns. */
  ghost predicate Paid(before: Used, after: Used, nodes: nat, bytes: nat) {
    InBudget(after) && before.nodes + nodes <= after.nodes && before.bytes + bytes <= after.bytes
  }

  lemma {:induction false} ObjectLimits(t: seq<Shape>, index: nat, depth: nat, used: Used)
    requires HonestTable(t) && depth <= MAX_DEPTH + 1 && InBudget(used)
    ensures var (v, u) := Object(t, index, depth, used);
            v.Some? ==>
              && WellFormed(v.value) && depth + Depth(v.value) <= MAX_DEPTH
              && Paid(used, u, Size(v.value), Payload(v.value))
    decreases MAX_DEPTH + 1 - depth, 1, 0
  {
    hide Objects, Entries, Shapes, InsertAll;
    if index < |t| && depth <= MAX_DEPTH && used.nodes < MAX_NODES && t[index].Refs? {
      var refs, u := t[index].refs, Spend(used, 1, 0);
      if t[index].dictionary {
        var half := |refs| / 2;
        EntriesLimits(t, refs[..half], refs[half..], depth + 1, u);
        var (e, w) := Entries(t, refs[..half], refs[half..], depth + 1, u);
        if e.Some? {
          var keys, values := e.value.keys, e.value.values;
          InsertAllMeasured(keys, values, |keys| + Sizes(values), Lengths(keys) + Payloads(values), Depths(values));
        }
      } else {
        ObjectsLimits(t, refs, depth + 1, u);
      }
    }
  }

  lemma {:induction false} ObjectsLimits(t: seq<Shape>, refs: seq<nat>, depth: nat, used: Used)
    requires HonestTable(t) && depth <= MAX_DEPTH + 1 && InBudget(used)
    ensures var (vs, u) := Objects(t, refs, depth, used);
            vs.Some? ==>
              && (forall x <- vs.value :: WellFormed(x)) && Paid(used, u, Sizes(vs.value), Payloads(vs.value))
              && (vs.value != [] ==> depth + Depths(vs.value) <= MAX_DEPTH)
    decreases MAX_DEPTH + 1 - depth, 2, |refs|
  {
    if |refs| > 0 {
      ObjectLimits(t, refs[0], depth, used);
      var (v, u) := Object(t, refs[0], depth, used);
      if v.Some? {
        ObjectsLimits(t, refs[1..], depth, u);
        var (vs, w) := Objects(t, refs[1..], depth, u);
        if vs.Some? {
          assert ([v.value] + vs.value)[1..] == vs.value;
        }
      }
    }
  }

  lemma {:induction false} EntriesLimits(t: seq<Shape>, keyRefs: seq<nat>, valueRefs: seq<nat>, depth: nat, used: Used)
    requires HonestTable(t) && depth <= MAX_DEPTH + 1 && InBudget(used)
    ensures var (e, u) := Entries(t, keyRefs, valueRefs, depth, used);
            e.Some? ==>
              var keys, values := e.value.keys, e.value.values;
              && (forall x <- values :: WellFormed(x))
              && Paid(used, u, |keys| + Sizes(values), Lengths(keys) + Payloads(values))
              && (values != [] ==> depth + Depths(values) <= MAX_DEPTH)
    decreases MAX_DEPTH + 1 - depth, 2, |keyRefs|
  {
    if |keyRefs| > 0 && |valueRefs| > 0 {
      ObjectLimits(t, keyRefs[0], depth, used);
      var (k, u) := Object(t, keyRefs[0], depth, used);
      if k.Some? && k.value.Text? {
        ObjectLimits(t, valueRefs[0], depth, u);
        var (v, w) := Object(t, valueRefs[0], depth, u);
        if v.Some? {
          EntriesLimits(t, keyRefs[1..], valueRefs[1..], depth, w);
          var (rest, x) := Entries(t, keyRefs[1..], valueRefs[1..], depth, w);
          if rest.Some? {
            assert ([k.value.text] + rest.value.keys)[1..] == rest.value.keys;
            assert ([v.value] + rest.value.values)[1..] == rest.value.values;
          }
        }
      }
    }
  }

  /** Whatever bytes come in, a decoded value is well formed and within the three limits. */
  lemma {:induction false} DecodedWithinLimits(bytes: Bytes, widen: U32 -> U64)
    ensures var v := Decode(bytes, widen); v.Some? ==> WithinLimits(v.value)
  {
    match Open(bytes, widen)
    case None =>
    case Some((f, top)) =>
      ShapesHonest(f);
      ObjectLimits(Shapes(f), top, 0, NOTHING_USED);
  }

  /** So it can be encoded and decoded again without change. */
  lemma {:induction false} DecodedSurvives(bytes: Bytes, widen: U32 -> U64)
    ensures var v := Decode(bytes, widen); v.Some? ==> Decode(Encode(v.value), widen) == v
  {
    DecodedWithinLimits(bytes, widen);
    var v := Decode(bytes, widen);
    if v.Some? {
      RoundTrip(v.value, widen);
    }
  }

  // ----- Bound on the visits -----

  /**
   A visit at a legal depth counts as one node. Beyond the node budget every visit fails at once; a failed key
   still has its value visited, once for each enclosing dictionary. A container at the deepest legal level visits
   at most two objects that are too deep and count no node.
   */
  lemma {:induction false} ObjectVisits(t: seq<Shape>, index: nat, depth: nat, used: Used)
    requires HonestTable(t) && index < |t| && depth <= MAX_DEPTH + 1
    ensures var (v, u) := Object(t, index, depth, used);
            && (depth > MAX_DEPTH ==> v.None? && u.nodes == used.nodes && u.calls == used.calls + 1)
            && (depth <= MAX_DEPTH ==>
                  && used.nodes < u.nodes && u.calls - used.calls <= 3 * (u.nodes - used.nodes)
                  && (used.nodes <= MAX_NODES ==> u.nodes <= MAX_NODES + MAX_DEPTH + 1 - depth)
                  && (used.nodes > MAX_NODES ==> u.nodes == used.nodes + 1)
                  && (v.Some? ==> u.nodes <= MAX_NODES))
    decreases MAX_DEPTH + 1 - depth, 1, 0
  {
    if depth <= MAX_DEPTH && used.nodes < MAX_NODES && t[index].Refs? {
      assert Honest(t[index], |t|);
      var refs, u := t[index].refs, Spend(used, 1, 0);
      if t[index].dictionary {
        var half := |refs| / 2;
        EntriesVisits(t, refs[..half], refs[half..], depth + 1, u);
      } else {
        ObjectsVisits(t, refs, depth + 1, u);
      }
    }
  }

  lemma {:induction false} ObjectsVisits(t: seq<Shape>, refs: seq<nat>, depth: nat, used: Used)
    requires HonestTable(t) && (forall k :: 0 <= k < |refs| ==> refs[k] < |t|) && depth <= MAX_DEPTH + 1
    requires used.nodes <= MAX_NODES
    ensures var (vs, u) := Objects(t, refs, depth, used);
            && used.nodes <= u.nodes <= MAX_NODES + MAX_DEPTH + 1 - depth && (vs.Some? ==> u.nodes <= MAX_NODES)
            && u.calls - used.calls <= if depth > MAX_DEPTH then 1 else 3 * (u.nodes - used.nodes)
    decreases MAX_DEPTH + 1 - depth, 2, |refs|
  {
    if |refs| > 0 {
      ObjectVisits(t, refs[0], depth, used);
      var (v, u) := Object(t, refs[0], depth, used);
      if v.Some? {
        ObjectsVisits(t, refs[1..], depth, u);
      }
    }
  }

  lemma {:induction false} EntriesVisits(t: seq<Shape>, keyRefs: seq<nat>, valueRefs: seq<nat>, depth: nat, used: Used)
    requires HonestTable(t) && depth <= MAX_DEPTH + 1 && used.nodes <= MAX_NODES
    requires forall k :: 0 <= k < |keyRefs| ==> keyRefs[k] < |t|
    requires forall k :: 0 <= k < |valueRefs| ==> valueRefs[k] < |t|
    ensures var (e, u) := Entries(t, keyRefs, valueRefs, depth, used);
            && used.nodes <= u.nodes <= MAX_NODES + MAX_DEPTH + 2 - depth && (e.Some? ==> u.nodes <= MAX_NODES)
            && (depth > MAX_DEPTH ==> u.nodes == used.nodes && u.calls - used.calls <= 2)
            && (depth <= MAX_DEPTH ==> u.calls - used.calls <= 3 * (u.nodes - used.nodes))
    decreases MAX_DEPTH + 1 - depth, 2, |keyRefs|
  {
    if |keyRefs| > 0 && |valueRefs| > 0 {
      ObjectVisits(t, keyRefs[0], depth, used);
      var (k, u) := Object(t, keyRefs[0], depth, used);
      ObjectVisits(t, valueRefs[0], depth, u);
      var (v, w) := Object(t, valueRefs[0], depth, u);
      if k.Some? && k.value.Text? && v.Some? {
        EntriesVisits(t, keyRefs[1..], valueRefs[1..], depth, w);
      }
    }
  }

  /** Decoding any bytes visits at most 196803 objects, however the file refers to itself. */
  lemma {:induction false} DecodeVisitsBounded(bytes: Bytes, widen: U32 -> U64)
    ensures match Open(bytes, widen)
            case None => true
            case Some((f, top)) => Object(Shapes(f), top, 0, NOTHING_USED).1.calls <= 3 * (MAX_NODES + MAX_DEPTH + 1)
  {
    match Open(bytes, widen)
    case None =>
    case Some((f, top)) =>
      ShapesHonest(f);
      OpenTop(bytes, widen);
      ObjectVisits(Shapes(f), top, 0, NOTHING_USED);
  }

  lemma {:induction false} OpenTop(bytes: Bytes, widen: U32 -> U64)
    ensures match Open(bytes, widen) case None => true case Some((f, top)) => top < |f.offsets|
  {}
}

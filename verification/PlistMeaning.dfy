/**
 What a property list means, whoever wrote it: its objects may be shared, its dictionaries list their entries in any
 order and may repeat a key. The meaning is read off the references; the decoder finds it whenever it is within the
 budgets.
 */
module PlistMeaning {
  import opened ByteStrings
  import opened PlistFormat
  import opened PlistStructure
  import opened PlistLimits

  // ----- Reading the references -----

  datatype Key = Key(text: Bytes, cost: nat)

  /** What stands behind a number when all references are followed; entries in the order of the file. */
  datatype Tree =
    | Leaf(value: Value, cost: nat)
    | Items(items: seq<Tree>)
    | Pairs(keys: seq<Key>, values: seq<Tree>)

  /** Object `i` of the table denotes the tree. */
  ghost predicate Denotes(t: seq<Shape>, i: nat, r: Tree)
    decreases r
  {
    i < |t| &&
    match r
    case Leaf(v, cost) => (t[i] == Scalar(v) && cost == 0) || t[i] == Bulk(v, cost)
    case Items(items) =>
      && t[i].Refs? && !t[i].dictionary && |t[i].refs| == |items|
      && forall k :: 0 <= k < |items| ==> Denotes(t, t[i].refs[k], items[k])
    case Pairs(keys, values) =>
      && t[i].Refs? && t[i].dictionary && |t[i].refs| == 2 * |keys| && |values| == |keys|
      && (forall k :: 0 <= k < |keys| ==> KeyAt(t, t[i].refs[k], keys[k]))
      && forall k :: 0 <= k < |values| ==> Denotes(t, t[i].refs[|keys| + k], values[k])
  }

  ghost predicate KeyAt(t: seq<Shape>, i: nat, key: Key) {
    i < |t| && t[i] == Bulk(Text(key.text), key.cost)
  }

  // ----- Its size -----

  function Nodes(r: Tree): (n: nat)
    ensures n >= 1
    decreases r, 1
  {
    match r
    case Leaf(_, _) => 1
    case Items(items) => 1 + NodesAll(items)
    case Pairs(keys, values) => 1 + |keys| + NodesAll(values)
  }

  function NodesAll(rs: seq<Tree>): nat
    decreases rs, 0
  {
    if |rs| == 0 then 0 else Nodes(rs[0]) + NodesAll(rs[1..])
  }

  function Cost(r: Tree): nat
    decreases r, 1
  {
    match r
    case Leaf(_, cost) => cost
    case Items(items) => CostAll(items)
    case Pairs(keys, values) => KeyCosts(keys) + CostAll(values)
  }

  function CostAll(rs: seq<Tree>): nat
    decreases rs, 0
  {
    if |rs| == 0 then 0 else Cost(rs[0]) + CostAll(rs[1..])
  }

  function KeyCosts(keys: seq<Key>): nat {
    if |keys| == 0 then 0 else keys[0].cost + KeyCosts(keys[1..])
  }

  function Height(r: Tree): nat
    decreases r, 1
  {
    match r
    case Leaf(_, _) => 0
    case Items(items) => if |items| == 0 then 0 else 1 + HeightAll(items)
    case Pairs(keys, values) => if |values| == 0 then 0 else 1 + HeightAll(values)
  }

  function HeightAll(rs: seq<Tree>): nat
    decreases rs, 0
  {
    if |rs| == 0 then 0 else Max(Height(rs[0]), HeightAll(rs[1..]))
  }

  // ----- Its meaning -----

  /** Entry `k` is the first one with this key. */
  ghost predicate FirstWith(keys: seq<Key>, text: Bytes, k: nat) {
    k < |keys| && keys[k].text == text && forall j :: 0 <= j < k ==> keys[j].text != text
  }

  /**
   The value a tree means. The keys of a dictionary are exactly those of its entries, in ascending order, and beside
   each stands what the first entry in file order with that key means.
   */
  ghost predicate Means(r: Tree, v: Value)
    decreases r, 1
  {
    match r
    case Leaf(value, _) => v == value
    case Items(items) =>
      v.Array? && |v.items| == |items| && forall k :: 0 <= k < |items| ==> Means(items[k], v.items[k])
    case Pairs(keys, values) =>
      && v.Dictionary? && |v.keys| == |v.values| && Ascending(v.keys)
      && (forall k :: 0 <= k < |keys| ==> keys[k].text in v.keys)
      && forall m :: 0 <= m < |v.keys| ==> FirstMeans(keys, values, v.keys[m], v.values[m])
  }

  ghost predicate FirstMeans(keys: seq<Key>, values: seq<Tree>, text: Bytes, v: Value)
    decreases values, 0
  {
    exists k :: 0 <= k < |values| && FirstWith(keys, text, k) && Means(values[k], v)
  }

  lemma {:induction false} FirstOnce(keys: seq<Key>, text: Bytes, i: nat, j: nat)
    requires FirstWith(keys, text, i) && FirstWith(keys, text, j)
    ensures i == j
  {}

  lemma {:induction false} SameAscending(a: seq<Bytes>, b: seq<Bytes>)
    requires Ascending(a) && Ascending(b) && (forall x <- a :: x in b) && (forall x <- b :: x in a)
    ensures a == b
    decreases |a|
  {
    assert a == [] || a[0] in a;
    assert b == [] || b[0] in b;
    if a == [] {
    } else {
      SmallestFirst(a, b[0]);
      SmallestFirst(b, a[0]);
      NotBothLess(a[0], b[0]);
      AscendingDrop(a);
      AscendingDrop(b);
      TailsSame(a, b);
      TailsSame(b, a);
      SameAscending(a[1..], b[1..]);
      assert a == [a[0]] + a[1..] && b == [b[0]] + b[1..];
    }
  }

  lemma {:induction false} SmallestFirst(keys: seq<Bytes>, x: Bytes)
    requires Ascending(keys) && x in keys
    ensures x == keys[0] || Less(keys[0], x)
  {
    var i :| 0 <= i < |keys| && keys[i] == x;
    if i > 0 {
      assert Less(keys[0], keys[i]);
    }
  }

  lemma {:induction false} NotBothLess(a: Bytes, b: Bytes)
    ensures !(Less(a, b) && Less(b, a))
  {
    if Less(a, b) && Less(b, a) {
      LessTransitive(a, b, a);
    }
    LessIrreflexive(a);
  }

  lemma {:induction false} TailsSame(a: seq<Bytes>, b: seq<Bytes>)
    requires a != [] && b != [] && a[0] == b[0] && Ascending(a) && forall x <- a :: x in b
    ensures forall x <- a[1..] :: x in b[1..]
  {
    forall x <- a[1..]
      ensures x in b[1..]
    {
      var i :| 0 <= i < |a[1..]| && a[1..][i] == x;
      assert a[i + 1] == x && Less(a[0], a[i + 1]) && x in a;
      LessIrreflexive(a[0]);
      var j :| 0 <= j < |b| && b[j] == x;
      assert b[1..][j - 1] == x;
    }
  }

  /** A tree means one value only. */
  lemma {:induction false} OneMeaning(r: Tree, v: Value, w: Value)
    requires Means(r, v) && Means(r, w)
    ensures v == w
    decreases r
  {
    match r
    case Leaf(_, _) =>
    case Items(items) =>
      forall k | 0 <= k < |items|
        ensures v.items[k] == w.items[k]
      {
        OneMeaning(items[k], v.items[k], w.items[k]);
      }
      assert v.items == w.items;
    case Pairs(keys, values) =>
      KeysFromEntries(keys, values, v, w);
      KeysFromEntries(keys, values, w, v);
      SameAscending(v.keys, w.keys);
      forall m | 0 <= m < |v.keys|
        ensures v.values[m] == w.values[m]
      {
        var i :| 0 <= i < |values| && FirstWith(keys, v.keys[m], i) && Means(values[i], v.values[m]);
        var j :| 0 <= j < |values| && FirstWith(keys, w.keys[m], j) && Means(values[j], w.values[m]);
        FirstOnce(keys, v.keys[m], i, j);
        OneMeaning(values[i], v.values[m], w.values[m]);
      }
      assert v.values == w.values;
  }

  lemma {:induction false} KeysFromEntries(keys: seq<Key>, values: seq<Tree>, v: Value, w: Value)
    requires Means(Pairs(keys, values), v) && Means(Pairs(keys, values), w)
    ensures forall x <- v.keys :: x in w.keys
  {
    forall m | 0 <= m < |v.keys|
      ensures v.keys[m] in w.keys
    {
      var i :| 0 <= i < |values| && FirstWith(keys, v.keys[m], i) && Means(values[i], v.values[m]);
      assert keys[i].text in w.keys;
    }
  }

  // ----- Entries in any order -----

  ghost predicate FirstAt(keys: seq<Bytes>, key: Bytes, k: nat) {
    k < |keys| && keys[k] == key && forall j :: 0 <= j < k ==> keys[j] != key
  }

  /** Adding an entry: nothing happens if the key is there; otherwise it takes one place, its value beside it. */
  lemma {:induction false} InsertIs(keys: seq<Bytes>, values: seq<Value>, key: Bytes, value: Value) returns (p: nat)
    requires |keys| == |values| && Ascending(keys)
    ensures p <= |keys|
    ensures Insert(keys, values, key, value) ==
            if key in keys then (keys, values)
            else (keys[..p] + [key] + keys[p..], values[..p] + [value] + values[p..])
    decreases |keys|
  {
    hide Ascending;
    if keys == [] {
      p := 0;
      assert [] + [key] + [] == [key] && [] + [value] + [] == [value];
    } else if key == keys[0] {
      p := 0;
    } else if Less(key, keys[0]) {
      p := 0;
      BelowAll(keys, key);
      assert keys[..0] + [key] + keys[0..] == [key] + keys && values[..0] + [value] + values[0..] == [value] + values;
    } else {
      AscendingDrop(keys);
      var q := InsertIs(keys[1..], values[1..], key, value);
      p := q + 1;
      PlaceBehind(keys, key, q);
      PlaceBehind(values, value, q);
      assert keys == [keys[0]] + keys[1..] && values == [values[0]] + values[1..];
    }
  }

  lemma {:induction false} PlaceBehind<T>(s: seq<T>, x: T, q: nat)
    requires s != [] && q <= |s| - 1
    ensures s[..q + 1] + [x] + s[q + 1..] == [s[0]] + (s[1..][..q] + [x] + s[1..][q..])
  {}

  lemma {:induction false} PlacedAt<T>(s: seq<T>, x: T, p: nat, m: nat)
    requires p <= |s| && m <= |s|
    ensures (s[..p] + [x] + s[p..])[m] == if m < p then s[m] else if m == p then x else s[m - 1]
  {}

  lemma {:induction false} BelowAll(keys: seq<Bytes>, key: Bytes)
    requires Ascending(keys) && keys != [] && Less(key, keys[0])
    ensures key !in keys
  {
    if key in keys {
      SmallestFirst(keys, key);
      NotBothLess(key, keys[0]);
      LessIrreflexive(key);
    }
  }

  /** Every key of the entries is there, and beside each key the value of the first entry that has it. */
  ghost predicate FirstWins(ks: seq<Bytes>, vs: seq<Value>, keys: seq<Bytes>, values: seq<Value>)
    requires |ks| == |vs|
  {
    && |keys| == |values| && Ascending(keys)
    && (forall k :: 0 <= k < |ks| ==> ks[k] in keys)
    && forall m :: 0 <= m < |keys| ==> exists k :: 0 <= k < |vs| && FirstAt(ks, keys[m], k) && values[m] == vs[k]
  }

  /** A dictionary is built from its entries in any order so that the first entry with a key decides. */
  lemma {:induction false} FirstEntryWins(ks: seq<Bytes>, vs: seq<Value>)
    requires |ks| == |vs|
    ensures var v := DictionaryOf(RawEntries(ks, vs)); v.Dictionary? && FirstWins(ks, vs, v.keys, v.values)
    decreases |ks|
  {
    hide Insert;
    var n := |ks|;
    if n > 0 {
      var k, v := ks[n - 1], vs[n - 1];
      FirstEntryWins(ks[..n - 1], vs[..n - 1]);
      var (keys, values) := InsertAll(ks[..n - 1], vs[..n - 1]);
      InsertKeepsOrder(keys, values, k, v);
      var p := InsertIs(keys, values, k, v);
      OneMoreEntry(ks, vs, keys, values, if k in keys then None else Some(p));
    }
  }

  /** The list with an element put in at `p`, or unchanged when `p` is none. */
  function Placed<T>(s: seq<T>, x: T, p: Option<nat>): seq<T> {
    if p.Some? && p.value <= |s| then s[..p.value] + [x] + s[p.value..] else s
  }

  lemma {:induction false} PlacedIn<T>(s: seq<T>, x: T, p: Option<nat>, y: T)
    requires (p.Some? && p.value <= |s| && y == x) || y in s
    ensures y in Placed(s, x, p)
  {
    if p.Some? && p.value <= |s| {
      if y == x {
        PlacedAt(s, x, p.value, p.value);
        assert Placed(s, x, p)[p.value] == x;
      } else {
        var o :| 0 <= o < |s| && s[o] == y;
        var m := if o < p.value then o else o + 1;
        PlacedAt(s, x, p.value, m);
        assert Placed(s, x, p)[m] == y;
      }
    }
  }

  /** Where the element at `m` was before. */
  function Before(p: Option<nat>, m: nat): nat { if p.Some? && p.value < m then m - 1 else m }

  lemma {:induction false} PlacedFrom<T>(s: seq<T>, x: T, p: Option<nat>, m: nat)
    requires m < |Placed(s, x, p)| && (p.Some? ==> p.value <= |s|)
    ensures if p == Some(m) then Placed(s, x, p)[m] == x
            else Before(p, m) < |s| && Placed(s, x, p)[m] == s[Before(p, m)]
  {
    if p.Some? {
      PlacedAt(s, x, p.value, m);
    }
  }

  lemma {:induction false} OneMoreEntry(
    ks: seq<Bytes>, vs: seq<Value>, keys: seq<Bytes>, values: seq<Value>, p: Option<nat>)
    requires |ks| == |vs| > 0 && (p.Some? ==> p.value <= |keys|)
    requires FirstWins(ks[..|ks| - 1], vs[..|vs| - 1], keys, values)
    requires p.None? <==> ks[|ks| - 1] in keys
    requires Ascending(Placed(keys, ks[|ks| - 1], p))
    ensures FirstWins(ks, vs, Placed(keys, ks[|ks| - 1], p), Placed(values, vs[|vs| - 1], p))
  {
    hide Ascending, Placed;
    var n := |ks| - 1;
    var key, value := ks[n], vs[n];
    var ak, av := Placed(keys, key, p), Placed(values, value, p);
    PlacedLength(keys, key, p);
    PlacedLength(values, value, p);
    forall k | 0 <= k < |ks|
      ensures ks[k] in ak
    {
      assert k < n ==> ks[..n][k] == ks[k];
      PlacedIn(keys, key, p, ks[k]);
    }
    forall m | 0 <= m < |ak|
      ensures exists k :: 0 <= k < |vs| && FirstAt(ks, ak[m], k) && av[m] == vs[k]
    {
      PlacedFrom(keys, key, p, m);
      PlacedFrom(values, value, p, m);
      if p == Some(m) {
        NewFirst(ks, keys);
      } else {
        var o := Before(p, m);
        var k :| 0 <= k < n && FirstAt(ks[..n], keys[o], k) && values[o] == vs[..n][k];
        FirstStill(ks, keys[o], k);
      }
    }
  }

  lemma {:induction false} PlacedLength<T>(s: seq<T>, x: T, p: Option<nat>)
    ensures |Placed(s, x, p)| == if p.Some? && p.value <= |s| then |s| + 1 else |s|
  {}

  lemma {:induction false} NewFirst(ks: seq<Bytes>, keys: seq<Bytes>)
    requires ks != [] && ks[|ks| - 1] !in keys
    requires var front := ks[..|ks| - 1]; forall j :: 0 <= j < |front| ==> front[j] in keys
    ensures FirstAt(ks, ks[|ks| - 1], |ks| - 1)
  {
    var front := ks[..|ks| - 1];
    assert forall j :: 0 <= j < |front| ==> front[j] == ks[j];
  }

  lemma {:induction false} FirstStill(ks: seq<Bytes>, key: Bytes, k: nat)
    requires ks != [] && FirstAt(ks[..|ks| - 1], key, k)
    ensures FirstAt(ks, key, k)
  {}

  // ----- The decoder finds the meaning -----

  ghost predicate AllMean(rs: seq<Tree>, vs: seq<Value>) {
    |rs| == |vs| && forall k :: 0 <= k < |rs| ==> Means(rs[k], vs[k])
  }

  ghost predicate AllDenote(t: seq<Shape>, refs: seq<nat>, rs: seq<Tree>) {
    |refs| == |rs| && forall k :: 0 <= k < |rs| ==> Denotes(t, refs[k], rs[k])
  }

  ghost predicate AllKeysAt(t: seq<Shape>, refs: seq<nat>, keys: seq<Key>) {
    |refs| == |keys| && forall k :: 0 <= k < |keys| ==> KeyAt(t, refs[k], keys[k])
  }

  function Texts(keys: seq<Key>): (r: seq<Bytes>)
    ensures |r| == |keys| && forall k :: 0 <= k < |keys| ==> r[k] == keys[k].text
  {
    seq(|keys|, k requires 0 <= k < |keys| => keys[k].text)
  }

  /** First entries decide: the dictionary built from what the entries mean is what they mean together. */
  lemma {:induction false} PairsMean(keys: seq<Key>, rs: seq<Tree>, vs: seq<Value>)
    requires |keys| == |rs| && AllMean(rs, vs)
    ensures Means(Pairs(keys, rs), DictionaryOf(RawEntries(Texts(keys), vs)))
  {
    hide DictionaryOf, Means;
    var v := DictionaryOf(RawEntries(Texts(keys), vs));
    FirstEntryWins(Texts(keys), vs);
    forall m | 0 <= m < |v.keys|
      ensures FirstMeans(keys, rs, v.keys[m], v.values[m])
    {
      var k :| 0 <= k < |vs| && FirstAt(Texts(keys), v.keys[m], k) && v.values[m] == vs[k];
      assert FirstWith(keys, v.keys[m], k) && Means(rs[k], v.values[m]);
    }
    forall k | 0 <= k < |keys|
      ensures keys[k].text in v.keys
    {
      assert Texts(keys)[k] in v.keys;
    }
    PairsUnfold(keys, rs, v);
  }

  lemma {:induction false} PairsUnfold(keys: seq<Key>, rs: seq<Tree>, v: Value)
    requires v.Dictionary? && |v.keys| == |v.values| && Ascending(v.keys)
    requires forall k :: 0 <= k < |keys| ==> keys[k].text in v.keys
    requires forall m :: 0 <= m < |v.keys| ==> FirstMeans(keys, rs, v.keys[m], v.values[m])
    ensures Means(Pairs(keys, rs), v)
  {}

  /** Within the budgets, an object is decoded to the value it denotes, and charged its size. */
  lemma {:induction false} ObjectMeans(t: seq<Shape>, i: nat, r: Tree, depth: nat, used: Used)
    requires Denotes(t, i, r) && depth + Height(r) <= MAX_DEPTH && Affordable(used, Nodes(r), Cost(r))
    ensures var (v, u) := Object(t, i, depth, used);
            v.Some? && Means(r, v.value) && u == Spend(used, Nodes(r), Cost(r))
    decreases r, 2
  {
    match r
    case Leaf(_, _) =>
    case Items(items) => ItemsMean(t, i, items, depth, used);
    case Pairs(keys, values) => EntriesMean(t, i, keys, values, depth, used);
  }

  lemma {:induction false} ItemsMean(t: seq<Shape>, i: nat, items: seq<Tree>, depth: nat, used: Used)
    requires Denotes(t, i, Items(items)) && depth + Height(Items(items)) <= MAX_DEPTH
    requires Affordable(used, Nodes(Items(items)), Cost(Items(items)))
    ensures var (v, u) := Object(t, i, depth, used);
            v.Some? && Means(Items(items), v.value) && u == Spend(used, Nodes(Items(items)), Cost(Items(items)))
    decreases items, 1
  {
    hide Objects;
    ObjectsMean(t, t[i].refs, items, depth + 1, Spend(used, 1, 0));
  }

  lemma {:induction false} ObjectsMean(t: seq<Shape>, refs: seq<nat>, rs: seq<Tree>, depth: nat, used: Used)
    requires AllDenote(t, refs, rs) && depth <= MAX_DEPTH + 1 && (rs != [] ==> depth + HeightAll(rs) <= MAX_DEPTH)
    requires Affordable(used, NodesAll(rs), CostAll(rs))
    ensures var (vs, u) := Objects(t, refs, depth, used);
            vs.Some? && AllMean(rs, vs.value) && u == Spend(used, NodesAll(rs), CostAll(rs))
    decreases rs, 0
  {
    hide Denotes, Means, Object;
    if |rs| > 0 {
      ObjectMeans(t, refs[0], rs[0], depth, used);
      var (v, u) := Object(t, refs[0], depth, used);
      ObjectsMean(t, refs[1..], rs[1..], depth, u);
      var (vs, w) := Objects(t, refs[1..], depth, u);
      OneMoreMeans(rs, v.value, vs.value);
    }
  }

  lemma {:induction false} OneMoreMeans(rs: seq<Tree>, v: Value, vs: seq<Value>)
    requires rs != [] && Means(rs[0], v) && AllMean(rs[1..], vs)
    ensures AllMean(rs, [v] + vs)
  {
    hide Means;
    forall k | 0 <= k < |rs|
      ensures Means(rs[k], ([v] + vs)[k])
    {
      if k > 0 {
        assert rs[1..][k - 1] == rs[k];
      }
    }
  }

  lemma {:induction false} EntriesMean(
    t: seq<Shape>, i: nat, keys: seq<Key>, values: seq<Tree>, depth: nat, used: Used)
    requires var r := Pairs(keys, values);
             Denotes(t, i, r) && depth + Height(r) <= MAX_DEPTH && Affordable(used, Nodes(r), Cost(r))
    ensures var (v, u) := Object(t, i, depth, used);
            var r := Pairs(keys, values); v.Some? && Means(r, v.value) && u == Spend(used, Nodes(r), Cost(r))
    decreases values, 1
  {
    hide Entries, DictionaryOf, Means;
    var refs, half := t[i].refs, |keys|;
    PairParts(t, i, keys, values);
    PairsRead(t, refs[..half], refs[half..], keys, values, depth + 1, Spend(used, 1, 0));
    var (e, w) := Entries(t, refs[..half], refs[half..], depth + 1, Spend(used, 1, 0));
    assert e.value == RawEntries(Texts(keys), e.value.values);
    PairsMean(keys, values, e.value.values);
  }

  lemma {:induction false} PairParts(t: seq<Shape>, i: nat, keys: seq<Key>, values: seq<Tree>)
    requires Denotes(t, i, Pairs(keys, values))
    ensures var refs, half := t[i].refs, |keys|;
            t[i].dictionary && |refs| == 2 * half && AllKeysAt(t, refs[..half], keys) &&
                AllDenote(t, refs[half..], values)
  {
    hide KeyAt;
  }

  /** The entries of a dictionary are read in file order. */
  lemma {:induction false} PairsRead(
    t: seq<Shape>, keyRefs: seq<nat>, valueRefs: seq<nat>, keys: seq<Key>, rs: seq<Tree>, depth: nat, used: Used)
    requires |keys| == |rs| && AllKeysAt(t, keyRefs, keys) && AllDenote(t, valueRefs, rs)
    requires depth <= MAX_DEPTH + 1 && (rs != [] ==> depth + HeightAll(rs) <= MAX_DEPTH)
    requires Affordable(used, |keys| + NodesAll(rs), KeyCosts(keys) + CostAll(rs))
    ensures var (e, u) := Entries(t, keyRefs, valueRefs, depth, used);
            && e.Some? && e.value.keys == Texts(keys) && AllMean(rs, e.value.values)
            && u == Spend(used, |keys| + NodesAll(rs), KeyCosts(keys) + CostAll(rs))
    decreases rs, 0
  {
    hide Denotes, Means, Object, KeyAt;
    if |rs| > 0 {
      var key := keys[0];
      KeyRead(t, keyRefs[0], key, depth, used);
      var u := Spend(used, 1, key.cost);
      ObjectMeans(t, valueRefs[0], rs[0], depth, u);
      var (v, w) := Object(t, valueRefs[0], depth, u);
      PairsRead(t, keyRefs[1..], valueRefs[1..], keys[1..], rs[1..], depth, w);
      var (rest, x) := Entries(t, keyRefs[1..], valueRefs[1..], depth, w);
      OneMoreMeans(rs, v.value, rest.value.values);
      assert Texts(keys) == [key.text] + Texts(keys[1..]);
    } else {
      assert Texts(keys) == [];
    }
  }

  lemma {:induction false} KeyRead(t: seq<Shape>, i: nat, key: Key, depth: nat, used: Used)
    requires KeyAt(t, i, key) && depth <= MAX_DEPTH && Affordable(used, 1, key.cost)
    ensures Object(t, i, depth, used) == (Some(Text(key.text)), Spend(used, 1, key.cost))
  {}

  // ----- Nothing else is decoded -----

  /** Whatever is decoded is what the object denotes, and was within the budgets. */
  lemma {:induction false} ObjectDenotes(t: seq<Shape>, i: nat, depth: nat, used: Used) returns (r: Tree)
    requires HonestTable(t) && depth <= MAX_DEPTH + 1 && InBudget(used) && Object(t, i, depth, used).0.Some?
    requires EvenTable(t)
    ensures Denotes(t, i, r) && depth + Height(r) <= MAX_DEPTH && Affordable(used, Nodes(r), Cost(r))
    decreases MAX_DEPTH + 1 - depth, 1, 0
  {
    match t[i]
    case Scalar(v) => r := Leaf(v, 0);
    case Bulk(v, cost) => r := Leaf(v, cost);
    case Refs(dictionary, refs) =>
      var u := Spend(used, 1, 0);
      if dictionary {
        var half := |refs| / 2;
        var keys, rs := EntriesDenote(t, refs[..half], refs[half..], depth + 1, u);
        r := Pairs(keys, rs);
        PairsDenote(t, i, keys, rs);
      } else {
        var rs := ObjectsDenote(t, refs, depth + 1, u);
        r := Items(rs);
      }
  }

  /** A dictionary names as many keys as values. */
  ghost predicate EvenTable(t: seq<Shape>) {
    forall i :: 0 <= i < |t| && t[i].Refs? && t[i].dictionary ==> |t[i].refs| % 2 == 0
  }

  lemma {:induction false} PairsDenote(t: seq<Shape>, i: nat, keys: seq<Key>, rs: seq<Tree>)
    requires i < |t| && t[i].Refs? && t[i].dictionary && |t[i].refs| == 2 * |keys| && |keys| == |rs|
    requires AllKeysAt(t, t[i].refs[..|keys|], keys) && AllDenote(t, t[i].refs[|keys|..], rs)
    ensures Denotes(t, i, Pairs(keys, rs))
  {
    hide KeyAt;
    var refs, half := t[i].refs, |keys|;
    assert forall k :: 0 <= k < half ==> refs[..half][k] == refs[k];
    assert forall k :: 0 <= k < |rs| ==> refs[half..][k] == refs[half + k];
  }

  lemma {:induction false} ObjectsDenote(t: seq<Shape>, refs: seq<nat>, depth: nat, used: Used) returns (rs: seq<Tree>)
    requires HonestTable(t) && EvenTable(t) && depth <= MAX_DEPTH + 1 && InBudget(used)
    requires Objects(t, refs, depth, used).0.Some?
    ensures AllDenote(t, refs, rs) && (rs != [] ==> depth + HeightAll(rs) <= MAX_DEPTH)
    ensures Affordable(used, NodesAll(rs), CostAll(rs))
    ensures Objects(t, refs, depth, used).1 == Spend(used, NodesAll(rs), CostAll(rs))
    decreases MAX_DEPTH + 1 - depth, 2, |refs|
  {
    hide Denotes, Means, Object;
    rs := [];
    if |refs| > 0 {
      var r := ObjectDenotes(t, refs[0], depth, used);
      ObjectMeans(t, refs[0], r, depth, used);
      var u := Spend(used, Nodes(r), Cost(r));
      rs := ObjectsDenote(t, refs[1..], depth, u);
      OneMoreDenotes(t, refs, r, rs);
      assert ([r] + rs)[1..] == rs;
      rs := [r] + rs;
    }
  }

  lemma {:induction false} OneMoreDenotes(t: seq<Shape>, refs: seq<nat>, r: Tree, rs: seq<Tree>)
    requires refs != [] && Denotes(t, refs[0], r) && AllDenote(t, refs[1..], rs)
    ensures AllDenote(t, refs, [r] + rs)
  {
    hide Denotes;
    forall k | 0 <= k < |refs|
      ensures Denotes(t, refs[k], ([r] + rs)[k])
    {
      if k > 0 {
        assert refs[1..][k - 1] == refs[k];
      }
    }
  }

  lemma {:induction false} EntriesDenote(
    t: seq<Shape>, keyRefs: seq<nat>, valueRefs: seq<nat>, depth: nat, used: Used)
    returns (keys: seq<Key>, rs: seq<Tree>)
    requires HonestTable(t) && EvenTable(t) && depth <= MAX_DEPTH + 1 && InBudget(used) && |keyRefs| == |valueRefs|
    requires Entries(t, keyRefs, valueRefs, depth, used).0.Some?
    ensures |keys| == |rs| && AllKeysAt(t, keyRefs, keys) && AllDenote(t, valueRefs, rs)
    ensures rs != [] ==> depth + HeightAll(rs) <= MAX_DEPTH
    ensures Affordable(used, |keys| + NodesAll(rs), KeyCosts(keys) + CostAll(rs))
    decreases MAX_DEPTH + 1 - depth, 2, |keyRefs|
  {
    hide Denotes, Means, Object, KeyAt;
    keys, rs := [], [];
    if |keyRefs| > 0 {
      var key := KeyFound(t, keyRefs[0], depth, used);
      var u := Spend(used, 1, key.cost);
      var r := ObjectDenotes(t, valueRefs[0], depth, u);
      ObjectMeans(t, valueRefs[0], r, depth, u);
      var w := Spend(u, Nodes(r), Cost(r));
      keys, rs := EntriesDenote(t, keyRefs[1..], valueRefs[1..], depth, w);
      OneMoreDenotes(t, valueRefs, r, rs);
      OneMoreKey(t, keyRefs, key, keys);
      assert ([r] + rs)[1..] == rs && ([key] + keys)[1..] == keys;
      keys, rs := [key] + keys, [r] + rs;
    }
  }

  lemma {:induction false} OneMoreKey(t: seq<Shape>, refs: seq<nat>, key: Key, keys: seq<Key>)
    requires refs != [] && KeyAt(t, refs[0], key) && AllKeysAt(t, refs[1..], keys)
    ensures AllKeysAt(t, refs, [key] + keys)
  {
    hide KeyAt;
    forall k | 0 <= k < |refs|
      ensures KeyAt(t, refs[k], ([key] + keys)[k])
    {
      if k > 0 {
        assert refs[1..][k - 1] == refs[k];
      }
    }
  }

  lemma {:induction false} KeyFound(t: seq<Shape>, i: nat, depth: nat, used: Used) returns (key: Key)
    requires HonestTable(t) && depth <= MAX_DEPTH + 1 && InBudget(used)
    requires var k := Object(t, i, depth, used).0; k.Some? && k.value.Text?
    ensures KeyAt(t, i, key) && depth <= MAX_DEPTH && Affordable(used, 1, key.cost)
    ensures Object(t, i, depth, used) == (Some(Text(key.text)), Spend(used, 1, key.cost))
  {
    assert Honest(t[i], |t|);
    key := Key(t[i].value.text, t[i].cost);
  }

  // ----- Whole files -----

  lemma {:induction false} ShapesEven(f: File)
    requires ValidFile(f)
    ensures EvenTable(Shapes(f))
  {}

  /** The top object of an opened file denotes this tree, and the tree is within the three budgets. */
  ghost predicate FileDenotes(bytes: Bytes, widen: U32 -> U64, r: Tree) {
    match Open(bytes, widen)
    case None => false
    case Some((f, top)) =>
      Denotes(Shapes(f), top, r) && Height(r) <= 64 && Nodes(r) <= 65536 && Cost(r) <= 8388608
  }

  /**
   Any bytes at all, sorted or not, shared or not: they are decoded to a value exactly when the top object denotes,
   within the budgets, a tree that means this value.
   */
  lemma {:induction false} DecodedMeaning(bytes: Bytes, widen: U32 -> U64, v: Value)
    ensures Decode(bytes, widen) == Some(v) <==> exists r :: FileDenotes(bytes, widen, r) && Means(r, v)
  {
    hide Denotes, Means, Shapes, Height, Nodes, Cost, Object;
    match Open(bytes, widen)
    case None =>
    case Some((f, top)) =>
      var t := Shapes(f);
      ShapesHonest(f);
      ShapesEven(f);
      if Decode(bytes, widen) == Some(v) {
        var r := ObjectDenotes(t, top, 0, NOTHING_USED);
        ObjectMeans(t, top, r, 0, NOTHING_USED);
        assert FileDenotes(bytes, widen, r) && Means(r, v);
      }
      if exists r :: FileDenotes(bytes, widen, r) && Means(r, v) {
        var r :| FileDenotes(bytes, widen, r) && Means(r, v);
        ObjectMeans(t, top, r, 0, NOTHING_USED);
        OneMeaning(r, v, Object(t, top, 0, NOTHING_USED).0.value);
      }
  }
}

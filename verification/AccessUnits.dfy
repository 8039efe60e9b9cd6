/** Grouping H.264 units into access units: delimiters and parameter sets come first, then the slices of one picture. */
module AccessUnits {
  import opened ByteStrings
  import SliceHeader

  function Kind(unit: Bytes): nat
    requires unit != []
  {
    unit[0] % 32
  }

  predicate IsSlice(unit: Bytes) { unit != [] && 1 <= Kind(unit) <= 5 }

  predicate IsDelimiter(unit: Bytes) { unit != [] && Kind(unit) == 9 }

  predicate IsParameterSet(unit: Bytes) { unit != [] && (Kind(unit) == 7 || Kind(unit) == 8) }

  /** A slice that begins a picture, or one whose first macroblock cannot be read. */
  predicate FirstSlice(unit: Bytes) {
    IsSlice(unit) && (SliceHeader.FirstMacroblock(unit).None? || SliceHeader.FirstMacroblock(unit) == Some(0))
  }

  predicate HasSlice(units: seq<Bytes>) {
    |units| > 0 && (IsSlice(units[|units| - 1]) || HasSlice(units[..|units| - 1]))
  }

  /** The unit cannot go on in an access unit that holds these. */
  predicate Breaks(units: seq<Bytes>, unit: Bytes) {
    IsDelimiter(unit) || (HasSlice(units) && (IsParameterSet(unit) || FirstSlice(unit)))
  }

  // ----- The grouping -----

  /** The groups already closed, and the one being filled. */
  datatype Grouping = Grouping(closed: seq<seq<Bytes>>, open: seq<Bytes>)

  function Close(g: Grouping): Grouping {
    if g.open == [] then g else Grouping(g.closed + [g.open], [])
  }

  function Add(g: Grouping, unit: Bytes): Grouping {
    if unit == [] then g
    else
      var h := if Breaks(g.open, unit) then Close(g) else g;
      Grouping(h.closed, h.open + [unit])
  }

  function AddAll(g: Grouping, units: seq<Bytes>): Grouping
    decreases |units|
  {
    if |units| == 0 then g else AddAll(Add(g, units[0]), units[1..])
  }

  function Groups(units: seq<Bytes>): seq<seq<Bytes>> {
    Close(AddAll(Grouping([], []), units)).closed
  }

  lemma {:induction false} AddNext(g: Grouping, units: seq<Bytes>, i: nat)
    requires i < |units|
    ensures AddAll(g, units[i..]) == AddAll(Add(g, units[i]), units[i + 1..])
  {
    assert units[i..][1..] == units[i + 1..];
  }

  lemma {:induction false} AddNone(g: Grouping, units: seq<Bytes>)
    ensures AddAll(g, units[|units|..]) == g && units[0..] == units
  {}

  lemma {:induction false} SliceAdded(units: seq<Bytes>, unit: Bytes)
    ensures HasSlice(units + [unit]) == (IsSlice(unit) || HasSlice(units))
    ensures !HasSlice([])
  {
    assert (units + [unit])[..|units|] == units;
  }

  method AccessUnits(units: seq<Bytes>) returns (result: seq<seq<Bytes>>)
    ensures result == Groups(units)
  {
    hide AddAll, HasSlice, SliceHeader.FirstMacroblock;
    result := [];
    var current: seq<Bytes> := [];
    var hasSlice := false;
    AddNone(Grouping([], []), units);
    SliceAdded([], []);
    for i := 0 to |units|
      invariant AddAll(Grouping(result, current), units[i..]) == AddAll(Grouping([], []), units)
      invariant hasSlice == HasSlice(current)
    {
      var unit := units[i];
      ghost var before := Grouping(result, current);
      AddNext(before, units, i);
      if unit == [] {
        continue;
      }
      var kind := unit[0] % 32;
      if kind == 9 || ((kind == 7 || kind == 8) && hasSlice) {
        result, current, hasSlice := Flush(result, current);
      }
      if 1 <= kind <= 5 {
        var firstMb := SliceHeader.FirstMbInSlice(unit);
        if hasSlice && (firstMb.None? || firstMb.value == 0) {
          result, current, hasSlice := Flush(result, current);
        }
        hasSlice := true;
      }
      SliceAdded(current, unit);
      current := current + [unit];
      assert Grouping(result, current) == Add(before, unit);
    }
    AddNone(Grouping(result, current), units);
    result, current, hasSlice := Flush(result, current);
  }

  method Flush(
    result: seq<seq<Bytes>>, current: seq<Bytes>) returns (closed: seq<seq<Bytes>>, open: seq<Bytes>, hasSlice: bool)
    ensures Grouping(closed, open) == Close(Grouping(result, current)) && open == [] && !hasSlice
  {
    closed := if current != [] then result + [current] else result;
    open, hasSlice := [], false;
  }

  // ----- What the groups are -----

  /** No unit of the group breaks off from those before it. */
  ghost predicate Coherent(group: seq<Bytes>) {
    && (forall i :: 0 <= i < |group| ==> group[i] != [])
    && (forall i :: 0 < i < |group| ==> !Breaks(group[..i], group[i]))
  }

  ghost predicate AllCoherent(groups: seq<seq<Bytes>>) {
    forall i :: 0 <= i < |groups| ==> groups[i] != [] && Coherent(groups[i])
  }

  /** A group ends only because its successor's first unit breaks off from it. */
  ghost predicate Maximal(groups: seq<seq<Bytes>>) {
    forall i :: 0 < i < |groups| ==> groups[i] != [] && Breaks(groups[i - 1], groups[i][0])
  }

  function Flatten(groups: seq<seq<Bytes>>): seq<Bytes> {
    if |groups| == 0 then [] else Flatten(groups[..|groups| - 1]) + groups[|groups| - 1]
  }

  function NonEmpty(units: seq<Bytes>): seq<Bytes> {
    if |units| == 0 then [] else (if units[0] == [] then [] else [units[0]]) + NonEmpty(units[1..])
  }

  function Whole(g: Grouping): seq<seq<Bytes>> {
    if g.open == [] then g.closed else g.closed + [g.open]
  }

  ghost predicate Sound(g: Grouping) {
    && AllCoherent(g.closed)
    && Coherent(g.open) && Maximal(Whole(g))
    && (g.open == [] ==> g.closed == [])
  }

  lemma {:induction false} CoherentGrows(group: seq<Bytes>, unit: Bytes)
    requires Coherent(group) && unit != [] && (group == [] || !Breaks(group, unit))
    ensures Coherent(group + [unit])
  {
    var next := group + [unit];
    forall i | 0 < i < |next|
      ensures !Breaks(next[..i], next[i])
    {
      assert next[..i] == group[..i];
      if i == |group| {
        assert group[..i] == group;
      }
    }
  }

  lemma {:induction false} AddSound(g: Grouping, unit: Bytes)
    requires Sound(g)
    ensures Sound(Add(g, unit))
  {
    if unit != [] {
      var h := Add(g, unit);
      if Breaks(g.open, unit) {
        CoherentGrows([], unit);
        assert [] + [unit] == [unit];
        BreakMaximal(g, unit);
      } else {
        CoherentGrows(g.open, unit);
        GrowMaximal(g, unit);
      }
    }
  }

  lemma {:induction false} BreakMaximal(g: Grouping, unit: Bytes)
    requires Sound(g) && Breaks(g.open, unit)
    ensures Maximal(Close(g).closed + [[unit]])
  {
    var groups := Close(g).closed + [[unit]];
    assert Close(g).closed == Whole(g);
    forall i | 0 < i < |groups|
      ensures groups[i] != [] && Breaks(groups[i - 1], groups[i][0])
    {
      if i < |groups| - 1 {
        assert groups[i] == Whole(g)[i] && groups[i - 1] == Whole(g)[i - 1];
      }
    }
  }

  lemma {:induction false} GrowMaximal(g: Grouping, unit: Bytes)
    requires Sound(g)
    ensures Maximal(g.closed + [g.open + [unit]])
  {
    var groups := g.closed + [g.open + [unit]];
    forall i | 0 < i < |groups|
      ensures groups[i] != [] && Breaks(groups[i - 1], groups[i][0])
    {
      assert groups[i - 1] == Whole(g)[i - 1];
      assert groups[i][0] == Whole(g)[i][0];
    }
  }

  lemma {:induction false} AddAllSound(g: Grouping, units: seq<Bytes>)
    requires Sound(g)
    ensures Sound(AddAll(g, units))
    decreases |units|
  {
    if |units| > 0 {
      AddSound(g, units[0]);
      AddAllSound(Add(g, units[0]), units[1..]);
    }
  }

  lemma {:induction false} FlattenAppend(groups: seq<seq<Bytes>>, group: seq<Bytes>)
    ensures Flatten(groups + [group]) == Flatten(groups) + group
  {
    assert (groups + [group])[..|groups|] == groups;
  }

  lemma {:induction false} AddKeeps(g: Grouping, unit: Bytes)
    ensures Flatten(Add(g, unit).closed) + Add(g, unit).open == Flatten(g.closed) + g.open +
            (if unit == [] then [] else [unit])
  {
    if unit != [] && Breaks(g.open, unit) && g.open != [] {
      FlattenAppend(g.closed, g.open);
    }
  }

  lemma {:induction false} AddAllKeeps(g: Grouping, units: seq<Bytes>)
    ensures Flatten(AddAll(g, units).closed) + AddAll(g, units).open == Flatten(g.closed) + g.open + NonEmpty(units)
    decreases |units|
  {
    if |units| > 0 {
      AddKeeps(g, units[0]);
      AddAllKeeps(Add(g, units[0]), units[1..]);
    }
  }

  lemma {:induction false} GroupsAreWhole(units: seq<Bytes>)
    ensures Groups(units) == Whole(AddAll(Grouping([], []), units))
  {}

  lemma {:induction false} GroupsFlatten(units: seq<Bytes>)
    ensures Flatten(Groups(units)) == NonEmpty(units)
  {
    var g := AddAll(Grouping([], []), units);
    AddAllKeeps(Grouping([], []), units);
    assert Flatten([]) + [] + NonEmpty(units) == NonEmpty(units);
    FlattenAppend(g.closed, g.open);
    GroupsAreWhole(units);
  }

  lemma {:induction false} WholeSound(g: Grouping)
    requires Sound(g)
    ensures AllCoherent(Whole(g)) && Maximal(Whole(g))
  {}

  /**
   Grouping loses and reorders nothing but empty units; in no group does a unit break off from those before it;
   and a group ends only where it has to.
   */
  lemma {:induction false} GroupsExact(units: seq<Bytes>)
    ensures Flatten(Groups(units)) == NonEmpty(units) && AllCoherent(Groups(units)) && Maximal(Groups(units))
  {
    GroupsFlatten(units);
    GroupsAreWhole(units);
    AddAllSound(Grouping([], []), units);
    WholeSound(AddAll(Grouping([], []), units));
  }

  lemma {:induction false} SliceSeen(units: seq<Bytes>, i: nat)
    requires i < |units| && IsSlice(units[i])
    ensures HasSlice(units)
    decreases |units|
  {
    if i < |units| - 1 {
      SliceSeen(units[..|units| - 1], i);
    }
  }

  lemma {:induction false} SliceThere(units: seq<Bytes>) returns (k: nat)
    requires HasSlice(units)
    ensures k < |units| && units[k] != [] && 1 <= units[k][0] % 32 <= 5
    decreases |units|
  {
    if IsSlice(units[|units| - 1]) {
      k := |units| - 1;
    } else {
      k := SliceThere(units[..|units| - 1]);
    }
  }

  /** By kinds and first macroblocks: the unit cannot belong to the access unit of those before it. */
  ghost predicate MustOpen(before: seq<Bytes>, unit: Bytes)
    requires unit != []
  {
    var kind, number := unit[0] % 32, SliceHeader.FirstMacroblock(unit);
    kind == 9 ||
    ((exists k :: 0 <= k < |before| && before[k] != [] && 1 <= before[k][0] % 32 <= 5) &&
     (kind == 7 || kind == 8 || (1 <= kind <= 5 && (number == None || number == Some(0)))))
  }

  lemma {:induction false} BreaksMeans(before: seq<Bytes>, unit: Bytes)
    requires unit != []
    ensures Breaks(before, unit) <==> MustOpen(before, unit)
  {
    hide SliceHeader.FirstMacroblock;
    if HasSlice(before) {
      var k := SliceThere(before);
    }
    forall k | 0 <= k < |before| && before[k] != [] && 1 <= before[k][0] % 32 <= 5
      ensures HasSlice(before)
    {
      SliceSeen(before, k);
    }
  }

  /**
   Between two groups there is a boundary because the unit behind it is a delimiter, or because a slice stands in the
   group before it and the unit is a parameter set or a slice whose first macroblock is 0 or unreadable.
   */
  lemma {:induction false} BoundaryNeeded(units: seq<Bytes>, i: nat)
    requires 0 < i < |Groups(units)|
    ensures var before, group := Groups(units)[i - 1], Groups(units)[i];
            before != [] && group != [] && group[0] != [] && MustOpen(before, group[0])
  {
    hide Groups, Breaks, MustOpen;
    GroupsExact(units);
    var before, group := Groups(units)[i - 1], Groups(units)[i];
    assert group[0] != [] by { assert Coherent(group); }
    BreaksMeans(before, group[0]);
  }

  /** Inside a group there is no such unit behind its first. */
  lemma {:induction false} NoBoundaryMissed(units: seq<Bytes>, i: nat, j: nat)
    requires i < |Groups(units)| && 0 < j < |Groups(units)[i]|
    ensures var group := Groups(units)[i]; group[j] != [] && !MustOpen(group[..j], group[j])
  {
    hide Groups, Breaks, MustOpen;
    GroupsExact(units);
    var group := Groups(units)[i];
    assert Coherent(group);
    BreaksMeans(group[..j], group[j]);
  }
}

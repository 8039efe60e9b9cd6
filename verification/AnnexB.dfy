/**
 Byte streams of H.264 units separated by start codes (section B.1 of ITU-T H.264). The session and the forwarder
 each have a splitter of their own; both are proved against the one description here.
 */
module AnnexB {
  import opened ByteStrings

  /** The length of the start code at the front, if there is one. */
  function StartCode(b: Bytes): nat {
    if |b| >= 4 && b[0] == 0 && b[1] == 0 && b[2] == 0 && b[3] == 1 then 4
    else if |b| >= 3 && b[0] == 0 && b[1] == 0 && b[2] == 1 then 3
    else 0
  }

  /** Where the unit at the front ends: at the next start code, or with the bytes. */
  function UnitEnd(b: Bytes): (r: nat)
    ensures r <= |b|
  {
    if |b| < 3 then |b| else if StartCode(b) != 0 then 0 else 1 + UnitEnd(b[1..])
  }

  function Units(b: Bytes): seq<Bytes>
    decreases |b|
  {
    if |b| < 3 then []
    else
      var code := StartCode(b);
      if code == 0 then Units(b[1..])
      else
        var body := b[code..];
        var end := UnitEnd(body);
        (if end > 0 then [body[..end]] else []) + Units(body[end..])
  }

  lemma {:induction false} SkipByte(input: Bytes, offset: nat)
    requires offset + 3 <= |input| && StartCode(input[offset..]) == 0
    ensures Units(input[offset..]) == Units(input[offset + 1..])
  {
    assert input[offset..][1..] == input[offset + 1..];
  }

  lemma {:induction false} FromTheFront(input: Bytes)
    ensures [] + Units(input[0..]) == Units(input)
  {
    assert input[0..] == input;
  }

  lemma {:induction false} NoMoreUnits(input: Bytes, offset: nat, done: seq<Bytes>)
    requires offset <= |input| < offset + 3
    ensures done + Units(input[offset..]) == done
  {}

  lemma {:induction false} CodeAt(input: Bytes, offset: nat)
    requires offset + 3 <= |input|
    ensures StartCode(input[offset..]) ==
            if offset + 4 <= |input| && input[offset] == 0 && input[offset + 1] == 0 && input[offset + 2] == 0
               && input[offset + 3] == 1 then 4
            else if input[offset] == 0 && input[offset + 1] == 0 && input[offset + 2] == 1 then 3
            else 0
  {}

  // ----- The two splitters -----

  method ScanEnd(input: Bytes, start: nat) returns (end: nat)
    requires start <= |input|
    ensures end == start + UnitEnd(input[start..])
  {
    end := start;
    while end + 3 <= |input|
      invariant start <= end <= |input|
      invariant start + UnitEnd(input[start..]) == end + UnitEnd(input[end..])
      decreases |input| - end
    {
      if (end + 4 <= |input| && input[end] == 0 && input[end + 1] == 0 && input[end + 2] == 0 && input[end + 3] == 1) ||
         (input[end] == 0 && input[end + 1] == 0 && input[end + 2] == 1) {
        break;
      }
      assert input[end..][1..] == input[end + 1..];
      end := end + 1;
    }
    if end + 3 > |input| {
      end := |input|;
    }
  }

  lemma {:induction false} NextUnit(input: Bytes, offset: nat, code: nat, end: nat, done: seq<Bytes>)
    requires offset + 3 <= |input| && code == StartCode(input[offset..]) != 0
    requires end == offset + code + UnitEnd(input[offset + code..])
    ensures done + Units(input[offset..]) ==
            (if offset + code < end then done + [input[offset + code..end]] else done) + Units(input[end..])
  {
    var b := input[offset..];
    var body := input[offset + code..];
    assert b[code..] == body && body[end - offset - code..] == input[end..];
    assert body[..end - offset - code] == input[offset + code..end];
    if offset + code < end {
      Associates(done, [input[offset + code..end]], Units(input[end..]));
    } else {
      assert [] + Units(input[end..]) == Units(input[end..]);
    }
  }

  /** The session's splitter. */
  method SplitInSession(input: Bytes) returns (result: seq<Bytes>)
    ensures result == Units(input)
  {
    hide Units, UnitEnd, StartCode;
    result := [];
    var offset := 0;
    FromTheFront(input);
    while offset + 3 <= |input|
      invariant offset <= |input|
      invariant result + Units(input[offset..]) == Units(input)
      decreases |input| - offset
    {
      var code := 0;
      if offset + 4 <= |input| && input[offset] == 0 && input[offset + 1] == 0 && input[offset + 2] == 0 &&
          input[offset + 3] == 1 {
        code := 4;
      } else if input[offset] == 0 && input[offset + 1] == 0 && input[offset + 2] == 1 {
        code := 3;
      }
      CodeAt(input, offset);
      if code == 0 {
        SkipByte(input, offset);
        offset := offset + 1;
        continue;
      }
      var start := offset + code;
      var end := ScanEnd(input, start);
      NextUnit(input, offset, code, end, result);
      if start < end {
        result := result + [input[start..end]];
      }
      offset := end;
    }
    NoMoreUnits(input, offset, result);
  }

  /** The forwarder's splitter asks for the two start codes in the other order. */
  method SplitInForwarder(input: Bytes) returns (result: seq<Bytes>)
    ensures result == Units(input)
  {
    hide Units, UnitEnd, StartCode;
    result := [];
    var offset := 0;
    FromTheFront(input);
    while offset + 3 <= |input|
      invariant offset <= |input|
      invariant result + Units(input[offset..]) == Units(input)
      decreases |input| - offset
    {
      var three := input[offset] == 0 && input[offset + 1] == 0 && input[offset + 2] == 1;
      var four := offset + 4 <= |input| && input[offset] == 0 && input[offset + 1] == 0 && input[offset + 2] == 0 &&
          input[offset + 3] == 1;
      CodeAt(input, offset);
      if !three && !four {
        SkipByte(input, offset);
        offset := offset + 1;
        continue;
      }
      var start := offset + if four then 4 else 3;
      var end := ScanEnd(input, start);
      NextUnit(input, offset, start - offset, end, result);
      if start < end {
        result := result + [input[start..end]];
      }
      offset := end;
    }
    NoMoreUnits(input, offset, result);
  }

  // ----- What splitting means -----

  /** No start code begins anywhere in the unit. */
  predicate Clean(u: Bytes) {
    |u| < 3 || (StartCode(u) == 0 && Clean(u[1..]))
  }

  ghost predicate AllUnits(us: seq<Bytes>) {
    forall u <- us :: u != [] && Clean(u)
  }

  /** Every unit behind a start code, of three bytes or of four. */
  function JoinWith(us: seq<Bytes>, short: seq<bool>): Bytes
    requires |short| == |us|
  {
    if us == [] then []
    else (if short[0] then [0, 0, 1] else [0, 0, 0, 1]) + us[0] + JoinWith(us[1..], short[1..])
  }

  function AllLong(n: nat): (r: seq<bool>)
    ensures |r| == n && forall i :: 0 <= i < n ==> !r[i]
  {
    seq(n, i => false)
  }

  /** Every unit behind a start code of four bytes. */
  function Join(us: seq<Bytes>): Bytes { JoinWith(us, AllLong(|us|)) }

  lemma {:induction false} PrefixClean(b: Bytes, end: nat)
    requires end == UnitEnd(b)
    ensures Clean(b[..end])
    decreases |b|
  {
    if end >= 3 {
      PrefixClean(b[1..], end - 1);
      assert b[..end][1..] == b[1..][..end - 1];
    }
  }

  /** Whatever the bytes, what comes out are non-empty units without a start code in them. */
  lemma {:induction false} UnitsClean(b: Bytes)
    ensures AllUnits(Units(b))
    decreases |b|
  {
    if |b| >= 3 {
      var code := StartCode(b);
      if code == 0 {
        UnitsClean(b[1..]);
      } else {
        var body := b[code..];
        var end := UnitEnd(body);
        PrefixClean(body, end);
        UnitsClean(body[end..]);
      }
    }
  }

  /** A unit is whole before a start code of four bytes, and before one of three unless it ends in a zero. */
  lemma {:induction false} UnitEndsAtCode(u: Bytes, rest: Bytes)
    requires Clean(u) && (rest == [] || StartCode(rest) != 0)
    requires rest != [] && StartCode(rest) == 3 && u != [] ==> u[|u| - 1] != 0
    ensures UnitEnd(u + rest) == |u|
    decreases |u|
  {
    if u == [] {
      assert u + rest == rest;
    } else if |u + rest| >= 3 {
      UnitEndsAtCode(u[1..], rest);
      assert (u + rest)[1..] == u[1..] + rest;
      assert StartCode(u + rest) == 0;
    }
  }

  /** Before a start code of three bytes a unit loses the zero it ends in. */
  lemma {:induction false} ZeroLost(u: Bytes, rest: Bytes)
    requires Clean(u) && StartCode(rest) == 3 && u != [] && u[|u| - 1] == 0
    ensures UnitEnd(u + rest) == |u| - 1
    decreases |u|
  {
    assert (u + rest)[1..] == u[1..] + rest;
    if |u| == 1 {
      assert rest[0] == 0 && rest[1] == 0 && rest[2] == 1;
      assert StartCode(u + rest) == 4;
    } else {
      ZeroLost(u[1..], rest);
      assert StartCode(u + rest) == 0;
    }
  }

  /** No unit in front of a start code of three bytes ends in a zero. */
  ghost predicate NoZeroLost(us: seq<Bytes>, short: seq<bool>)
    requires |short| == |us|
  {
    forall i :: 0 <= i < |us| - 1 && short[i + 1] && us[i] != [] ==> us[i][|us[i]| - 1] != 0
  }

  lemma {:induction false} JoinStarts(us: seq<Bytes>, short: seq<bool>)
    requires |short| == |us| > 0
    ensures var b, code := JoinWith(us, short), if short[0] then 3 else 4;
            |b| >= code && b[code..] == us[0] + JoinWith(us[1..], short[1..])
    ensures us[0] != [] && Clean(us[0]) ==> StartCode(JoinWith(us, short)) == if short[0] then 3 else 4
  {
    var b := JoinWith(us, short);
    assert b[0] == 0 && b[1] == 0 && b[2] == (if short[0] then 1 else 0);
  }

  lemma {:induction false} AllUnitsTail(us: seq<Bytes>, short: seq<bool>)
    requires |short| == |us| > 0 && AllUnits(us)
    ensures us[0] != [] && Clean(us[0]) && AllUnits(us[1..])
    ensures NoZeroLost(us, short) <==>
            (NoZeroLost(us[1..], short[1..]) && (|us| > 1 && short[1] ==> us[0][|us[0]| - 1] != 0))
  {
    assert us[0] in us;
    assert forall u <- us[1..] :: u in us;
    var tail, codes := us[1..], short[1..];
    assert forall i :: 0 <= i < |tail| ==> tail[i] == us[i + 1] && codes[i] == short[i + 1];
    if NoZeroLost(tail, codes) && (|us| > 1 && short[1] ==> us[0][|us[0]| - 1] != 0) {
      forall i | 0 <= i < |us| - 1 && short[i + 1] && us[i] != []
        ensures us[i][|us[i]| - 1] != 0
      {
        if i > 0 {
          assert tail[i - 1] == us[i] && codes[i] == short[i + 1];
        }
      }
    }
  }

  lemma {:induction false} UnitsOfJoined(us: seq<Bytes>, short: seq<bool>)
    requires |short| == |us| > 0
    requires StartCode(JoinWith(us, short)) == if short[0] then 3 else 4
    ensures var body := us[0] + JoinWith(us[1..], short[1..]);
            var end := UnitEnd(body);
            Units(JoinWith(us, short)) == (if end > 0 then [body[..end]] else []) + Units(body[end..])
  {
    JoinStarts(us, short);
  }

  lemma {:induction false} UnitWhole(us: seq<Bytes>, short: seq<bool>)
    requires |short| == |us| > 0 && AllUnits(us)
    requires us[0] != [] && (|us| > 1 && short[1] ==> us[0][|us[0]| - 1] != 0)
    ensures Units(JoinWith(us, short)) == [us[0]] + Units(JoinWith(us[1..], short[1..]))
  {
    hide Units, UnitEnd, StartCode, Clean, JoinWith;
    var u, rest := us[0], JoinWith(us[1..], short[1..]);
    AllUnitsTail(us, short);
    JoinStarts(us, short);
    UnitsOfJoined(us, short);
    RestStarts(us[1..], short[1..]);
    UnitEndsAtCode(u, rest);
    assert (u + rest)[..|u|] == u && (u + rest)[|u|..] == rest;
  }

  lemma {:induction false} UnitCut(us: seq<Bytes>, short: seq<bool>)
    requires |short| == |us| > 1 && AllUnits(us) && short[1] && us[0] != [] && us[0][|us[0]| - 1] == 0
    ensures var n := |us[0]| - 1;
            Units(JoinWith(us, short)) ==
            (if n > 0 then [us[0][..n]] else []) + Units(JoinWith(us[1..], short[1..]))
  {
    hide Units, UnitEnd, StartCode, Clean, JoinWith;
    var u, rest, n := us[0], JoinWith(us[1..], short[1..]), |us[0]| - 1;
    AllUnitsTail(us, short);
    JoinStarts(us, short);
    UnitsOfJoined(us, short);
    RestStarts(us[1..], short[1..]);
    ZeroLost(u, rest);
    ShortCode(rest);
    ZeroInFront(rest);
    assert (u + rest)[..n] == u[..n] && (u + rest)[n..] == [0] + rest;
  }

  lemma {:induction false} ShortCode(b: Bytes)
    requires StartCode(b) == 3
    ensures |b| >= 3
  {}

  lemma {:induction false} SplitJoined(us: seq<Bytes>, short: seq<bool>)
    requires |short| == |us| && AllUnits(us)
    ensures Units(JoinWith(us, short)) == us <==> NoZeroLost(us, short)
    ensures |Units(JoinWith(us, short))| <= |us|
    decreases |us|
  {
    if us != [] {
      hide Units, Clean, JoinWith, NoZeroLost;
      var u, tail, codes := us[0], us[1..], short[1..];
      var units := Units(JoinWith(tail, codes));
      AllUnitsTail(us, short);
      SplitJoined(tail, codes);
      assert us == [u] + tail;
      if |us| > 1 && short[1] && u[|u| - 1] == 0 {
        UnitCut(us, short);
        CutDiffers(u, units, tail);
      } else {
        UnitWhole(us, short);
        SameTail(u, units, tail);
      }
    } else {
      assert JoinWith(us, short) == [];
    }
  }

  lemma {:induction false} CutDiffers(u: Bytes, units: seq<Bytes>, tail: seq<Bytes>)
    requires u != [] && |units| <= |tail|
    ensures var n := |u| - 1; var all := (if n > 0 then [u[..n]] else []) + units;
            all != [u] + tail && |all| <= 1 + |tail|
  {
    var n := |u| - 1;
    var all := (if n > 0 then [u[..n]] else []) + units;
    if n > 0 {
      assert all[0] == u[..n] && |u[..n]| < |u|;
    }
  }

  lemma {:induction false} RestStarts(us: seq<Bytes>, short: seq<bool>)
    requires |short| == |us| && AllUnits(us)
    ensures if us == [] then JoinWith(us, short) == []
            else JoinWith(us, short) != [] && StartCode(JoinWith(us, short)) == if short[0] then 3 else 4
  {
    if us != [] {
      AllUnitsTail(us, short);
      JoinStarts(us, short);
    }
  }

  lemma {:induction false} SameTail(u: Bytes, a: seq<Bytes>, b: seq<Bytes>)
    ensures [u] + a == [u] + b <==> a == b
  {
    assert ([u] + a)[1..] == a && ([u] + b)[1..] == b;
  }

  /** A zero in front of a start code of three bytes makes it one of four. */
  lemma {:induction false} ZeroInFront(rest: Bytes)
    requires |rest| >= 3 && StartCode(rest) == 3
    ensures Units([0] + rest) == Units(rest)
  {
    assert ([0] + rest)[4..] == rest[3..];
  }

  /**
   Joining and splitting gives the units back exactly when none is empty, none has a start code in it, and none in front
   of a start code of three bytes ends in a zero.
   */
  lemma {:induction false} JoinSplits(us: seq<Bytes>, short: seq<bool>)
    requires |short| == |us|
    ensures Units(JoinWith(us, short)) == us <==> AllUnits(us) && NoZeroLost(us, short)
  {
    UnitsClean(JoinWith(us, short));
    if AllUnits(us) {
      SplitJoined(us, short);
    }
  }

  /** What stands before the first start code belongs to no unit. */
  lemma {:induction false} LeadingIgnored(before: Bytes, us: seq<Bytes>, short: seq<bool>)
    requires |short| == |us| && AllUnits(us) && NoZeroLost(us, short)
    requires Clean(before) && (us != [] && short[0] && before != [] ==> before[|before| - 1] != 0)
    ensures Units(before + JoinWith(us, short)) == us
    decreases |before|
  {
    hide JoinWith;
    var rest := JoinWith(us, short);
    if before == [] {
      assert before + rest == rest;
      SplitJoined(us, short);
    } else {
      RestStarts(us, short);
      UnitEndsAtCode(before, rest);
      assert (before + rest)[1..] == before[1..] + rest;
      if |before + rest| >= 3 {
        assert StartCode(before + rest) == 0;
        CleanTail(before);
        LeadingIgnored(before[1..], us, short);
      } else {
        NoneInShort(us, short);
      }
    }
  }

  lemma {:induction false} CleanTail(u: Bytes)
    requires Clean(u) && u != []
    ensures Clean(u[1..])
  {}

  lemma {:induction false} NoneInShort(us: seq<Bytes>, short: seq<bool>)
    requires |short| == |us| && |JoinWith(us, short)| < 3
    ensures us == []
  {}
}

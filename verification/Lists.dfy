/** Lists of frames and of the numbers they are known by, for the queues. */
module Lists {
  import opened ByteStrings

  /** The bytes of all frames. */
  function Total(frames: seq<Bytes>): nat {
    if |frames| == 0 then 0 else |frames[0]| + Total(frames[1..])
  }

  lemma {:induction false} TotalAppend(frames: seq<Bytes>, frame: Bytes)
    ensures Total(frames + [frame]) == Total(frames) + |frame|
    decreases |frames|
  {
    if |frames| == 0 {
      assert frames + [frame] == [frame] && [frame][1..] == [];
    } else {
      assert (frames + [frame])[1..] == frames[1..] + [frame];
      TotalAppend(frames[1..], frame);
    }
  }

  ghost predicate Increasing(numbers: seq<nat>) {
    forall i, j :: 0 <= i < j < |numbers| ==> numbers[i] < numbers[j]
  }

  ghost predicate AllBelow(numbers: seq<nat>, n: nat) {
    forall i :: 0 <= i < |numbers| ==> numbers[i] < n
  }

  /** Each frame of `part` is the frame of `whole` at the place its number gives. */
  ghost predicate Named(whole: seq<Bytes>, numbers: seq<nat>, part: seq<Bytes>) {
    && |numbers| == |part| && AllBelow(numbers, |whole|)
    && forall i :: 0 <= i < |numbers| ==> part[i] == whole[numbers[i]]
  }

  lemma {:induction false} WithoutMiddle(a: seq<nat>, b: seq<nat>, c: seq<nat>, n: nat)
    requires Increasing(a + b + c)
    ensures Increasing(a + c)
    ensures AllBelow(a + b + c, n) ==> AllBelow(a + c, n)
  {
    var whole, part := a + b + c, a + c;
    forall i | 0 <= i < |part|
      ensures part[i] == whole[if i < |a| then i else i + |b|]
    {}
  }

  lemma {:induction false} IncreasingGrows(numbers: seq<nat>, n: nat)
    requires Increasing(numbers) && AllBelow(numbers, n)
    ensures Increasing(numbers + [n])
  {}

  lemma {:induction false} IncreasingPrefix(a: seq<nat>, b: seq<nat>)
    requires Increasing(a + b)
    ensures Increasing(a)
  {
    forall i | 0 <= i < |a| ensures a[i] == (a + b)[i] {}
  }

  lemma {:induction false} NamedGrows(whole: seq<Bytes>, frame: Bytes, numbers: seq<nat>, part: seq<Bytes>)
    requires Named(whole, numbers, part)
    ensures Named(whole + [frame], numbers, part)
    ensures Named(whole + [frame], numbers + [|whole|], part + [frame])
  {}

  lemma {:induction false} NamedAppend(whole: seq<Bytes>, numbers: seq<nat>, part: seq<Bytes>, k: nat)
    requires Named(whole, numbers, part) && k < |whole|
    ensures Named(whole, numbers + [k], part + [whole[k]])
  {}

  lemma {:induction false} NamedTail(whole: seq<Bytes>, numbers: seq<nat>, part: seq<Bytes>)
    requires Named(whole, numbers, part) && numbers != []
    ensures Named(whole, numbers[1..], part[1..])
  {}
}

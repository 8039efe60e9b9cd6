/** Bytes, byte strings and big-endian numbers: the common ground of every codec in this project. */
module ByteStrings {

  type Byte = b: int | 0 <= b < 256

  type Bytes = seq<Byte>

  type U16 = n: int | 0 <= n < 0x1_0000

  datatype Option<+T> = None | Some(value: T)

  /** The low-order `size` bytes of `value`, most significant first. */
  function BigEndian(value: nat, size: nat): (r: Bytes)
    ensures |r| == size
  {
    if size == 0 then [] else BigEndian(value / 256, size - 1) + [value % 256]
  }

  /** The number a byte string denotes, most significant byte first. */
  function FromBigEndian(bytes: Bytes): nat {
    if bytes == [] then 0 else FromBigEndian(bytes[..|bytes| - 1]) * 256 + bytes[|bytes| - 1]
  }

  function U16Bytes(n: U16): (r: Bytes)
    ensures |r| == 2
  {
    [n / 256, n % 256]
  }

  function U16At(bytes: Bytes, offset: nat): U16
    requires offset + 2 <= |bytes|
  {
    (bytes[offset] as int) * 256 + bytes[offset + 1]
  }

  function Power2(n: nat): (r: nat)
    ensures r > 0
  {
    if n == 0 then 1 else 2 * Power2(n - 1)
  }

  /** 256 to the power `size`: the first number that does not fit in `size` bytes. */
  function Capacity(size: nat): (r: nat)
    ensures r > 0
  {
    if size == 0 then 1 else 256 * Capacity(size - 1)
  }

  lemma {:induction false} CapacityMonotonic(a: nat, b: nat)
    requires a <= b
    ensures Capacity(a) <= Capacity(b)
    decreases b - a
  {
    if a < b {
      CapacityMonotonic(a, b - 1);
    }
  }

  lemma {:induction false} EightByteCapacity()
    ensures Capacity(8) == 0x1_0000_0000_0000_0000
  {
    assert Capacity(2) == 0x1_0000;
    assert Capacity(4) == 0x1_0000_0000 by { assert Capacity(3) == 256 * Capacity(2); }
    assert Capacity(6) == 0x1_0000_0000_0000 by { assert Capacity(5) == 256 * Capacity(4); }
    assert Capacity(7) == 256 * Capacity(6);
  }

  lemma {:induction false} BigEndianRoundTrip(value: nat, size: nat)
    requires value < Capacity(size)
    ensures FromBigEndian(BigEndian(value, size)) == value
  {
    if size == 0 {
    } else {
      var r := BigEndian(value, size);
      assert r[..|r| - 1] == BigEndian(value / 256, size - 1);
      HighPart(value, Capacity(size - 1));
      BigEndianRoundTrip(value / 256, size - 1);
    }
  }

  lemma {:induction false} HighPart(value: nat, c: nat)
    requires value < 256 * c
    ensures value / 256 < c && value / 256 * 256 + value % 256 == value
  {}

  lemma {:induction false} FromBigEndianBound(bytes: Bytes)
    ensures FromBigEndian(bytes) < Capacity(|bytes|)
  {
    if bytes == [] {
    } else {
      FromBigEndianBound(bytes[..|bytes| - 1]);
    }
  }

  lemma {:induction false} FromBigEndianRoundTrip(bytes: Bytes)
    ensures BigEndian(FromBigEndian(bytes), |bytes|) == bytes
  {
    if bytes == [] {
    } else {
      var init := bytes[..|bytes| - 1];
      var n := FromBigEndian(bytes);
      FromBigEndianRoundTrip(init);
      assert n / 256 == FromBigEndian(init) && n % 256 == bytes[|bytes| - 1];
      assert BigEndian(n, |bytes|) == BigEndian(n / 256, |bytes| - 1) + [n % 256];
    }
  }

  /** Concatenation of a list of byte strings. */
  function Concat(parts: seq<Bytes>): Bytes {
    if parts == [] then [] else parts[0] + Concat(parts[1..])
  }

  lemma {:induction false} ConcatAppend(xs: seq<Bytes>, ys: seq<Bytes>)
    ensures Concat(xs + ys) == Concat(xs) + Concat(ys)
  {
    if xs == [] {
      assert xs + ys == ys;
    } else {
      assert (xs + ys)[1..] == xs[1..] + ys;
      ConcatAppend(xs[1..], ys);
    }
  }

  lemma {:induction false} ConcatFirst(before: Bytes, parts: seq<Bytes>)
    requires |parts| > 0
    ensures before + Concat(parts) == (before + parts[0]) + Concat(parts[1..])
  {}

  lemma {:induction false} ConcatNone(before: Bytes)
    ensures before + Concat([]) == before
  {}

  lemma {:induction false} Associates<T>(a: seq<T>, b: seq<T>, c: seq<T>)
    ensures a + (b + c) == (a + b) + c
  {}

  // ----- Division -----

  lemma {:induction false} Multiple(d: int, n: nat)
    ensures d >= 1 ==> d * n >= n
    ensures d <= -1 ==> d * n + n <= 0
  {
    if d >= 1 {
      assert (d - 1) * n >= 0;
    } else if d <= -1 {
      assert (-1 - d) * n >= 0;
    }
  }

  /** Quotient and remainder are the only numbers of their kind. */
  lemma {:induction false} DivisionIs(x: int, n: nat, q: int, r: nat)
    requires r < n && x == q * n + r
    ensures x / n == q && x % n == r
  {
    var p := x / n;
    assert x == p * n + x % n;
    assert (p - q) * n == r - x % n by { assert (p - q) * n == p * n - q * n; }
    Multiple(p - q, n);
  }

  lemma {:induction false} DivideTwice(x: nat, a: nat, b: nat)
    requires a > 0 && b > 0
    ensures x / a / b == x / (a * b)
  {
    var q, r := x / a / b, x / a % b;
    assert x / a == q * b + r;
    assert x == (q * b + r) * a + x % a == q * (a * b) + (r * a + x % a);
    assert r * a + x % a < a * b by { Multiple(b - r, a); assert (b - r) * a == a * b - r * a; }
    DivisionIs(x, a * b, q, r * a + x % a);
  }
}

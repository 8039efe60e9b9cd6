/**
 The first macroblock number of an H.264 slice: an unsigned Exp-Golomb code (section 9.1 of ITU-T H.264) at the start of
 the slice. The program reads it from the escaped bytes of the unit (section 7.3.1); the code is so short that no
 escape byte can change it, up to the bound found here.
 */
module SliceHeader {
  import opened ByteStrings

  const TWO32: nat := 0x1_0000_0000

  /** Bit i of a byte string, most significant bit of each byte first. */
  function Bit(b: Bytes, i: nat): (r: nat)
    requires i < 8 * |b|
    ensures r < 2
  {
    b[i / 8] / Power2(7 - i % 8) % 2
  }

  /** The number that `count` bits denote. */
  function Number(b: Bytes, from: nat, count: nat): (r: nat)
    requires from + count <= 8 * |b|
    ensures r < Power2(count)
  {
    if count == 0 then 0 else 2 * Number(b, from, count - 1) + Bit(b, from + count - 1)
  }

  // ----- Reading -----

  /** Zero bits from bit i on, up to the first one bit or the end. */
  function Zeros(b: Bytes, i: nat): (r: nat)
    requires i <= 8 * |b|
    ensures i + r <= 8 * |b|
    decreases 8 * |b| - i
  {
    if i == 8 * |b| || Bit(b, i) == 1 then 0 else 1 + Zeros(b, i + 1)
  }

  /** What is read from the bytes after the header byte; all sums are those of 32-bit numbers. */
  function ReadCode(b: Bytes): Option<nat> {
    var z := Zeros(b, 0);
    if z > 31 || z == 8 * |b| || 2 * z + 1 > 8 * |b| then None
    else Some((Power2(z) - 1 + Number(b, z + 1, z)) % TWO32)
  }

  function FirstMacroblock(unit: Bytes): Option<nat> {
    if |unit| < 2 then None else ReadCode(unit[1..])
  }

  lemma {:induction false} Pow2Grows(a: nat, b: nat)
    requires a <= b
    ensures Power2(a) <= Power2(b)
    decreases b - a
  {
    if a < b {
      Pow2Grows(a, b - 1);
    }
  }

  lemma {:induction false} Pow2Of31()
    ensures Power2(31) == 0x8000_0000
  {
    assert Power2(8) == 256 && Power2(16) == 65536 && Power2(24) == 0x100_0000;
  }

  /** The 32-bit sums never wrap. */
  lemma {:induction false} NoWrap(z: nat)
    requires z <= 31
    ensures 2 * Power2(z) <= TWO32
  {
    Pow2Grows(z, 31);
    Pow2Of31();
  }

  lemma {:induction false} CodeValue(b: Bytes, z: nat)
    requires z <= 31 && 2 * z + 1 <= 8 * |b| && Zeros(b, 0) == z
    ensures ReadCode(b) == Some(Power2(z) - 1 + Number(b, z + 1, z))
  {
    hide Number, Zeros, Power2;
    NoWrap(z);
    Small(Power2(z) - 1 + Number(b, z + 1, z));
  }

  lemma {:induction false} Small(x: nat)
    requires x < TWO32
    ensures x % TWO32 == x
  {}

  /** Copies the bytes after the header. The loop looks for escape bytes but passes each of them on. */
  method CopyPayload(unit: Bytes) returns (rbsp: Bytes)
    requires |unit| >= 2
    ensures rbsp == unit[1..]
  {
    rbsp := [];
    var index := 1;
    while index < |unit|
      invariant 1 <= index <= |unit|
      invariant rbsp == unit[1..index]
    {
      if index + 2 < |unit| && unit[index] == 0 && unit[index + 1] == 0 && unit[index + 2] == 3 {
        rbsp := rbsp + [0];
        rbsp := rbsp + [0];
        index := index + 1;
      } else {
        rbsp := rbsp + [unit[index]];
      }
      index := index + 1;
    }
  }

  method FirstMbInSlice(unit: Bytes) returns (result: Option<nat>)
    ensures result == FirstMacroblock(unit)
  {
    if |unit| < 2 {
      return None;
    }
    var rbsp := CopyPayload(unit);
    var zeroBits := CountZeros(rbsp);
    if zeroBits > 31 || zeroBits == |rbsp| * 8 {
      return None;
    }
    var suffix := ReadSuffix(rbsp, zeroBits);
    if suffix.None? {
      return None;
    }
    CodeValue(rbsp, zeroBits);
    result := Some(Power2(zeroBits) - 1 + suffix.value);
  }

  /** Gives up after 32 zero bits. */
  method CountZeros(rbsp: Bytes) returns (zeroBits: nat)
    ensures if Zeros(rbsp, 0) > 31 then zeroBits > 31 else zeroBits == Zeros(rbsp, 0)
  {
    zeroBits := 0;
    while zeroBits < |rbsp| * 8 && Bit(rbsp, zeroBits) == 0
      invariant zeroBits <= 8 * |rbsp| && zeroBits <= 31
      invariant Zeros(rbsp, 0) == zeroBits + Zeros(rbsp, zeroBits)
      decreases |rbsp| * 8 - zeroBits
    {
      zeroBits := zeroBits + 1;
      if zeroBits > 31 {
        return;
      }
    }
  }

  /** The bits after the one bit, shifted into a 32-bit number. */
  method ReadSuffix(rbsp: Bytes, zeroBits: nat) returns (result: Option<nat>)
    requires zeroBits <= 31 && zeroBits < 8 * |rbsp|
    ensures result == if 2 * zeroBits + 1 > 8 * |rbsp| then None else Some(Number(rbsp, zeroBits + 1, zeroBits))
  {
    var bitOffset := zeroBits + 1;
    var suffix: nat := 0;
    for index := 0 to zeroBits
      invariant bitOffset == zeroBits + 1 + index <= 8 * |rbsp|
      invariant suffix == Number(rbsp, zeroBits + 1, index)
    {
      if bitOffset >= |rbsp| * 8 {
        return None;
      }
      SuffixFits(suffix, index, zeroBits);
      suffix := 2 * suffix % TWO32;
      suffix := suffix + Bit(rbsp, bitOffset);
      bitOffset := bitOffset + 1;
    }
    result := Some(suffix);
  }

  lemma {:induction false} SuffixFits(suffix: nat, index: nat, zeroBits: nat)
    requires index < zeroBits <= 31 && suffix < Power2(index)
    ensures 2 * suffix < TWO32 && 2 * suffix % TWO32 == 2 * suffix
  {
    Pow2Grows(index + 1, 31);
    Pow2Of31();
  }

  // ----- Writing -----

  /** The payload begins with the code of v: z zero bits, then v + 1 in z + 1 bits. What follows is left open. */
  ghost predicate BeginsWith(rbsp: Bytes, v: nat, z: nat) {
    Power2(z) <= v + 1 < Power2(z + 1) && 2 * z + 1 <= 8 * |rbsp| && Number(rbsp, 0, 2 * z + 1) == v + 1
  }

  /** Emulation prevention: after two zero bytes, a byte below four gets a three put before it. */
  function Escape(rbsp: Bytes, zeros: nat): Bytes {
    if rbsp == [] then []
    else if zeros >= 2 && rbsp[0] <= 3 then [3, rbsp[0]] + Escape(rbsp[1..], if rbsp[0] == 0 then 1 else 0)
    else [rbsp[0]] + Escape(rbsp[1..], if rbsp[0] == 0 then zeros + 1 else 0)
  }

  /** Where the first escape byte is put. */
  ghost predicate FirstEscape(rbsp: Bytes, escaped: Bytes, p: nat) {
    && 2 <= p < |rbsp| && p < |escaped| && escaped[..p] == rbsp[..p] && escaped[p] == 3
    && rbsp[p - 2] == 0 && rbsp[p - 1] == 0 && rbsp[p] <= 3
  }

  lemma {:induction false} EscapeShape(done: Bytes, rest: Bytes, zeros: nat)
    requires zeros <= |done| && forall i :: |done| - zeros <= i < |done| ==> done[i] == 0
    ensures Escape(rest, zeros) == rest ||
            exists p :: FirstEscape(done + rest, done + Escape(rest, zeros), p)
    decreases |rest|
  {
    if rest != [] {
      var e := Escape(rest, zeros);
      if zeros >= 2 && rest[0] <= 3 {
        var p := |done|;
        assert (done + e)[..p] == done == (done + rest)[..p];
        assert FirstEscape(done + rest, done + e, p);
      } else {
        var next := if rest[0] == 0 then zeros + 1 else 0;
        EscapeShape(done + [rest[0]], rest[1..], next);
        assert rest == [rest[0]] + rest[1..];
        Associates(done, [rest[0]], rest[1..]);
        Associates(done, [rest[0]], Escape(rest[1..], next));
      }
    }
  }

  lemma {:induction false} SmallByteBits(x: Byte, k: nat)
    requires x <= 3 && k <= 5
    ensures x / Power2(7 - k) % 2 == 0
  {
    assert Power2(7) == 128 && Power2(6) == 64 && Power2(5) == 32 && Power2(4) == 16 && Power2(3) == 8 &&
           Power2(2) == 4;
  }

  lemma {:induction false} ZeroByteBit(b: Bytes, i: nat)
    requires i < 8 * |b| && (b[i / 8] == 0 || (b[i / 8] <= 3 && i % 8 <= 5))
    ensures Bit(b, i) == 0
  {
    if b[i / 8] != 0 {
      SmallByteBits(b[i / 8], i % 8);
    }
  }

  lemma {:induction false} NumberAgrees(a: Bytes, b: Bytes, from: nat, count: nat)
    requires from + count <= 8 * |a| && from + count <= 8 * |b|
    requires forall i :: from <= i < from + count ==> Bit(a, i) == Bit(b, i)
    ensures Number(a, from, count) == Number(b, from, count)
    decreases count
  {
    if count > 0 {
      NumberAgrees(a, b, from, count - 1);
      assert Bit(a, from + count - 1) == Bit(b, from + count - 1);
    }
  }

  /** A number of bits, split in two. */
  lemma {:induction false} NumberSplits(b: Bytes, from: nat, high: nat, low: nat)
    requires from + high + low <= 8 * |b|
    ensures Number(b, from, high + low) == Number(b, from, high) * Power2(low) + Number(b, from + high, low)
    decreases low
  {
    hide Bit;
    if low > 0 {
      NumberSplits(b, from, high, low - 1);
      assert Number(b, from, high + low) == 2 * Number(b, from, high + low - 1) + Bit(b, from + high + low - 1);
      Doubled(Number(b, from, high), Power2(low - 1));
    }
  }

  lemma {:induction false} Doubled(a: nat, b: nat)
    ensures 2 * (a * b) == a * (2 * b)
  {}

  lemma {:induction false} ZeroNumber(b: Bytes, from: nat, count: nat)
    requires from + count <= 8 * |b| && Number(b, from, count) == 0
    ensures forall i :: from <= i < from + count ==> Bit(b, i) == 0
    decreases count
  {
    if count > 0 {
      ZeroNumber(b, from, count - 1);
    }
  }

  /** The parts of a code: z zero bits, a one, and the rest of the number. */
  lemma {:induction false} CodeParts(rbsp: Bytes, v: nat, z: nat)
    requires BeginsWith(rbsp, v, z)
    ensures forall i :: 0 <= i < z ==> Bit(rbsp, i) == 0
    ensures Bit(rbsp, z) == 1
    ensures Number(rbsp, z + 1, z) == v + 1 - Power2(z)
  {
    hide Bit;
    var high, bit, low := Number(rbsp, 0, z), Bit(rbsp, z), Number(rbsp, z + 1, z);
    NumberSplits(rbsp, 0, z + 1, z);
    assert Number(rbsp, 0, z + 1) == 2 * high + bit;
    TopBits(high, bit, low, Power2(z), v + 1);
    ZeroNumber(rbsp, 0, z);
  }

  lemma {:induction false} TopBits(high: nat, bit: nat, low: nat, p: nat, n: nat)
    requires bit < 2 && low < p && p <= n < 2 * p && n == (2 * high + bit) * p + low
    ensures high == 0 && bit == 1 && low == n - p
  {
    var top := 2 * high + bit;
    Times(top, p);
  }

  lemma {:induction false} Times(k: nat, p: nat)
    ensures k == 0 ==> k * p == 0
    ensures k == 1 ==> k * p == p
    ensures k >= 2 ==> k * p >= 2 * p
  {
    if k >= 2 {
      assert (k - 2) * p >= 0;
    }
  }

  lemma {:induction false} ZerosCount(b: Bytes, i: nat, z: nat)
    requires i <= z < 8 * |b| && Bit(b, z) == 1 && forall j :: i <= j < z ==> Bit(b, j) == 0
    ensures Zeros(b, i) == z - i
    decreases z - i
  {
    if i < z {
      assert Bit(b, i) == 0;
      ZerosCount(b, i + 1, z);
    }
  }

  /** Reading a code that is there unchanged gives its number. */
  lemma {:induction false} CodeRead(b: Bytes, v: nat, z: nat)
    requires BeginsWith(b, v, z) && z <= 31
    ensures ReadCode(b) == Some(v)
  {
    CodeParts(b, v, z);
    ZerosCount(b, 0, z);
    CodeValue(b, z);
  }

  /** No escape byte is put where it could change a code of at most 43 bits. */
  lemma {:induction false} EscapeTooLate(rbsp: Bytes, p: nat, v: nat, z: nat)
    requires BeginsWith(rbsp, v, z) && z <= 21
    requires 2 <= p < |rbsp| && rbsp[p - 2] == 0 && rbsp[p - 1] == 0 && rbsp[p] <= 3
    ensures 2 * z + 1 <= 8 * p + 6
  {
    CodeParts(rbsp, v, z);
    if 8 * (p - 2) <= z < 8 * p + 6 {
      ZeroRun(rbsp, p, z);
    }
  }

  lemma {:induction false} ZeroRun(rbsp: Bytes, p: nat, i: nat)
    requires 2 <= p < |rbsp| && rbsp[p - 2] == 0 && rbsp[p - 1] == 0 && rbsp[p] <= 3
    requires 8 * (p - 2) <= i < 8 * p + 6
    ensures Bit(rbsp, i) == 0
  {
    var k := i / 8;
    assert k == p - 2 || k == p - 1 || (k == p && i % 8 <= 5);
    ZeroByteBit(rbsp, i);
  }

  lemma {:induction false} BitKept(rbsp: Bytes, escaped: Bytes, p: nat, i: nat)
    requires FirstEscape(rbsp, escaped, p) && i < 8 * p + 6
    ensures Bit(rbsp, i) == Bit(escaped, i)
  {
    if i < 8 * p {
      assert escaped[i / 8] == escaped[..p][i / 8] == rbsp[..p][i / 8] == rbsp[i / 8];
    } else {
      ZeroByteBit(rbsp, i);
      ZeroByteBit(escaped, i);
    }
  }

  lemma {:induction false} CodeKept(rbsp: Bytes, escaped: Bytes, p: nat, v: nat, z: nat)
    requires BeginsWith(rbsp, v, z) && z <= 21 && FirstEscape(rbsp, escaped, p)
    ensures BeginsWith(escaped, v, z)
  {
    EscapeTooLate(rbsp, p, v, z);
    forall i | 0 <= i < 2 * z + 1
      ensures Bit(rbsp, i) == Bit(escaped, i)
    {
      BitKept(rbsp, escaped, p, i);
    }
    NumberAgrees(rbsp, escaped, 0, 2 * z + 1);
  }

  // ----- Which numbers are read rightly -----

  lemma {:induction false} ShortCodeRead(rbsp: Bytes, v: nat, z: nat)
    requires BeginsWith(rbsp, v, z) && v <= 4194302
    ensures ReadCode(Escape(rbsp, 0)) == Some(v)
  {
    var escaped := Escape(rbsp, 0);
    LengthBound(v, z);
    EscapeShape([], rbsp, 0);
    assert [] + rbsp == rbsp && [] + escaped == escaped;
    if escaped != rbsp {
      var p :| FirstEscape(rbsp, escaped, p);
      CodeKept(rbsp, escaped, p, v, z);
    }
    CodeRead(escaped, v, z);
  }

  lemma {:induction false} Pow2Of22()
    ensures Power2(22) == 4194304 && Power2(23) == 8388608
  {
    assert Power2(8) == 256 && Power2(16) == 65536;
  }

  lemma {:induction false} LengthBound(v: nat, z: nat)
    requires Power2(z) <= v + 1 < Power2(z + 1)
    ensures v <= 4194302 <==> z <= 21
    ensures z > 22 ==> v + 1 >= 8388608
  {
    Pow2Of22();
    if z >= 22 {
      Pow2Grows(22, z);
    } else {
      Pow2Grows(z + 1, 22);
    }
    if z > 22 {
      Pow2Grows(23, z);
    }
  }

  lemma {:induction false} AllZero(b: Bytes, from: nat, count: nat)
    requires from + count <= 8 * |b| && forall i :: from <= i < from + count ==> Bit(b, i) == 0
    ensures Number(b, from, count) == 0
    decreases count
  {
    if count > 0 {
      AllZero(b, from, count - 1);
      assert Bit(b, from + count - 1) == 0;
    }
  }

  /** The leading bits of one byte. */
  lemma {:induction false} ByteNumber(b: Bytes, k: nat, n: nat)
    requires k < |b| && n <= 8
    ensures Number(b, 8 * k, n) == b[k] / Power2(8 - n)
    decreases n
  {
    hide Bit, Power2;
    if n > 0 {
      ByteNumber(b, k, n - 1);
      BitOfByte(b, k, n - 1);
      Doubling(8 - n);
      Halved(b[k], Power2(8 - n));
    } else {
      SmallPowers();
    }
  }

  lemma {:induction false} BitOfByte(b: Bytes, k: nat, j: nat)
    requires k < |b| && j < 8
    ensures Bit(b, 8 * k + j) == b[k] / Power2(7 - j) % 2
  {
    hide Power2;
    assert (8 * k + j) / 8 == k && (8 * k + j) % 8 == j;
  }

  lemma {:induction false} Doubling(n: nat)
    ensures Power2(n + 1) == 2 * Power2(n)
  {}

  lemma {:induction false} Halved(x: nat, p: nat)
    requires p > 0
    ensures x / (2 * p) * 2 + x / p % 2 == x / p
  {
    var q, r := x / (2 * p), x % (2 * p);
    assert x == q * (2 * p) + r == (2 * q) * p + r;
    DivisionIs(x, p, 2 * q + if r < p then 0 else 1, if r < p then r else r - p);
  }

  /** The first k bytes and the leading n bits of the next, as one number. */
  lemma {:induction false} NumberOfBytes(b: Bytes, k: nat, n: nat)
    requires k < |b| && n <= 8
    ensures Number(b, 0, 8 * k + n) == Number(b, 0, 8 * k) * Power2(n) + b[k] / Power2(8 - n)
  {
    NumberSplits(b, 0, 8 * k, n);
    ByteNumber(b, k, n);
  }

  lemma {:induction false} SmallPowers()
    ensures Power2(0) == 1 && Power2(2) == 4 && Power2(3) == 8 && Power2(5) == 32 && Power2(6) == 64 && Power2(8) == 256
  {
    assert Power2(1) == 2 && Power2(4) == 16 && Power2(7) == 128;
  }

  /** The 45 bits that a code with 22 leading zero bits takes. */
  function Prefix(b: Bytes): nat
    requires |b| >= 6
  {
    ((((b[0] as int * 256 + b[1]) * 256 + b[2]) * 256 + b[3]) * 256 + b[4]) * 32 + b[5] / 8
  }

  lemma {:induction false} PrefixNumber(b: Bytes)
    requires |b| >= 6
    ensures Number(b, 0, 22) == (b[0] as int * 256 + b[1]) * 64 + b[2] / 4
    ensures Number(b, 0, 45) == Prefix(b)
  {
    hide Number, Power2;
    SmallPowers();
    NumberOfBytes(b, 0, 8);
    NumberOfBytes(b, 1, 8);
    NumberOfBytes(b, 2, 6);
    NumberOfBytes(b, 2, 8);
    NumberOfBytes(b, 3, 8);
    NumberOfBytes(b, 4, 8);
    NumberOfBytes(b, 5, 5);
    assert Number(b, 0, 0) == 0 by { AllZero(b, 0, 0); }
  }

  lemma {:induction false} EscapeLonger(rbsp: Bytes, zeros: nat)
    ensures |Escape(rbsp, zeros)| >= |rbsp|
    decreases |rbsp|
  {
    if rbsp != [] {
      EscapeLonger(rbsp[1..], if rbsp[0] == 0 then if zeros >= 2 then 1 else zeros + 1 else 0);
    }
  }

  /** Two zero bytes and a small one: the escape byte is put right there. */
  lemma {:induction false} EscapedFront(rbsp: Bytes)
    requires |rbsp| >= 6 && rbsp[0] == 0 && rbsp[1] == 0 && rbsp[2] <= 3
    ensures var e := Escape(rbsp, 0);
            && |e| >= 6 && e[0] == 0 && e[1] == 0 && e[2] == 3 && e[3] == rbsp[2]
            && (rbsp[2] != 0 ==> e[4] == rbsp[3] && e[5] == rbsp[4])
  {
    var one, two, three, four, five := rbsp[1..], rbsp[2..], rbsp[3..], rbsp[4..], rbsp[5..];
    assert one[1..] == two && two[1..] == three && three[1..] == four && four[1..] == five;
    var e2, e3 := Escape(two, 2), Escape(three, if rbsp[2] == 0 then 1 else 0);
    assert Escape(rbsp, 0) == [0] + Escape(one, 1) && Escape(one, 1) == [0] + e2;
    assert e2 == [3, rbsp[2]] + e3;
    assert Escape(rbsp, 0) == [0, 0, 3, rbsp[2]] + e3;
    EscapeLonger(three, if rbsp[2] == 0 then 1 else 0);
    if rbsp[2] != 0 {
      var zeros := if rbsp[3] == 0 then 1 else 0;
      assert e3 == [rbsp[3]] + Escape(four, zeros) && Escape(four, zeros)[0] == rbsp[4];
    }
  }

  /** A code of 22 zero bits or more begins with two zero bytes and a small one. */
  lemma {:induction false} LongCodeFront(rbsp: Bytes, v: nat, z: nat)
    requires BeginsWith(rbsp, v, z) && z >= 22
    ensures |rbsp| >= 6 && rbsp[0] == 0 && rbsp[1] == 0 && rbsp[2] <= 3
  {
    CodeParts(rbsp, v, z);
    AllZero(rbsp, 0, 22);
    PrefixNumber(rbsp);
  }

  /** What is read once an escape byte stands third: a code of 22 zero bits. */
  lemma {:induction false} EscapedRead(e: Bytes)
    requires |e| >= 6 && e[0] == 0 && e[1] == 0 && e[2] == 3
    ensures ReadCode(e) == Some(Prefix(e) - 1) && Prefix(e) < 8388608
  {
    hide ReadCode;
    PrefixNumber(e);
    Pow2Of22();
    CodeRead(e, Prefix(e) - 1, 22);
  }

  /** The escape byte moves three bytes on; the one number that looks the same afterwards has threes in all places. */
  lemma {:induction false} SameWhenShifted(r: Bytes, e: Bytes)
    requires |r| >= 6 && r[0] == 0 && r[1] == 0 && 2 <= r[2] <= 3
    requires |e| >= 6 && e[0] == 0 && e[1] == 0 && e[2] == 3 && e[3] == r[2] && e[4] == r[3] && e[5] == r[4]
    ensures Prefix(e) == Prefix(r) <==> Prefix(r) == 6316128
  {
    ShiftedDigits(r[2], r[3], r[4], r[5] / 8);
  }

  lemma {:induction false} ShiftedDigits(a: nat, b: nat, c: nat, d: nat)
    requires 2 <= a <= 3 && b < 256 && c < 256 && d < 32
    ensures ((3 * 256 + a) * 256 + b) * 32 + c / 8 == ((a * 256 + b) * 256 + c) * 32 + d <==>
            ((a * 256 + b) * 256 + c) * 32 + d == 6316128
  {}

  lemma {:induction false} LongCodeRead(rbsp: Bytes, v: nat, z: nat)
    requires BeginsWith(rbsp, v, z) && z >= 22
    ensures ReadCode(Escape(rbsp, 0)) == Some(v) <==> v == 6316127
  {
    hide ReadCode, Escape, Number, Prefix;
    var e := Escape(rbsp, 0);
    LongCodeFront(rbsp, v, z);
    EscapedFront(rbsp);
    EscapedRead(e);
    LengthBound(v, z);
    if z == 22 {
      PrefixNumber(rbsp);
      assert 2 <= rbsp[2] by { TwoOrThree(rbsp); }
      SameWhenShifted(rbsp, e);
    }
  }

  lemma {:induction false} TwoOrThree(b: Bytes)
    requires |b| >= 6 && b[0] == 0 && b[1] == 0 && Prefix(b) >= 4194304
    ensures 2 <= b[2]
  {}

  /**
   The number read from the escaped unit is the one that was written, whatever follows it in the slice, for all numbers
   up to 4194302 and for one number above; the largest picture of any level has 139264 macroblocks.
   */
  lemma {:induction false} EscapedCodeRead(header: Byte, rbsp: Bytes, v: nat, z: nat)
    requires BeginsWith(rbsp, v, z)
    ensures FirstMacroblock([header] + Escape(rbsp, 0)) == Some(v) <==> v <= 4194302 || v == 6316127
  {
    hide ReadCode, Escape;
    var e := Escape(rbsp, 0);
    assert ([header] + e)[1..] == e;
    LengthBound(v, z);
    EscapeLonger(rbsp, 0);
    if z <= 21 {
      ShortCodeRead(rbsp, v, z);
    } else {
      LongCodeRead(rbsp, v, z);
    }
  }

  const WRONG: Bytes := [0, 0, 2, 0, 0, 4]

  /** The next number is already read wrongly: its code begins with 22 zero bits and draws an escape byte. */
  lemma {:induction false} FirstWrongNumber()
    ensures BeginsWith(WRONG, 4194303, 22) && FirstMacroblock([0x65] + Escape(WRONG, 0)) != Some(4194303)
  {
    hide FirstMacroblock, Escape, Number;
    Pow2Of22();
    PrefixNumber(WRONG);
    EscapedCodeRead(0x65, WRONG, 4194303, 22);
  }

  // ----- Any unit -----

  lemma {:induction false} ZerosAre(b: Bytes, i: nat)
    requires i <= 8 * |b|
    ensures var z := Zeros(b, i);
            (forall j :: i <= j < i + z ==> Bit(b, j) == 0) && (i + z < 8 * |b| ==> Bit(b, i + z) == 1)
    decreases 8 * |b| - i
  {
    hide Bit;
    if i < 8 * |b| && Bit(b, i) != 1 {
      ZerosAre(b, i + 1);
    }
  }

  lemma {:induction false} LeadingOne(b: Bytes, z: nat)
    requires 2 * z + 1 <= 8 * |b| && Bit(b, z) == 1 && forall j :: 0 <= j < z ==> Bit(b, j) == 0
    ensures Number(b, 0, 2 * z + 1) == Power2(z) + Number(b, z + 1, z)
  {
    hide Bit, Power2;
    AllZero(b, 0, z);
    assert Number(b, 0, z + 1) == 1;
    NumberSplits(b, 0, z + 1, z);
    assert z + 1 + z == 2 * z + 1;
  }

  /** The bits that were read are a code, and that of the number. */
  lemma {:induction false} CodeThere(b: Bytes)
    requires ReadCode(b).Some?
    ensures var z := Zeros(b, 0); z <= 31 && BeginsWith(b, ReadCode(b).value, z)
  {
    hide Bit, Number, Zeros;
    var z := Zeros(b, 0);
    ZerosAre(b, 0);
    CodeValue(b, z);
    LeadingOne(b, z);
  }

  /**
   Of any bytes whatever: a number is read exactly when there is a second byte and the bits from there on begin with a
   whole code of at most 31 zero bits, and it is the number of that code.
   */
  lemma {:induction false} ReadExactly(unit: Bytes, v: nat)
    ensures FirstMacroblock(unit) == Some(v) <==>
            |unit| >= 2 && exists z: nat :: z <= 31 && BeginsWith(unit[1..], v, z)
  {
    hide ReadCode, BeginsWith;
    if FirstMacroblock(unit) == Some(v) {
      CodeThere(unit[1..]);
    }
    if |unit| >= 2 && exists z: nat :: z <= 31 && BeginsWith(unit[1..], v, z) {
      var z: nat :| z <= 31 && BeginsWith(unit[1..], v, z);
      CodeRead(unit[1..], v, z);
    }
  }
}

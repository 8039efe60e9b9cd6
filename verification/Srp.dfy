/**
 The SRP-6a client of pair-setup (section 2.6 of RFC 5054, 3072-bit group, SHA-512). The hash is abstract: any function
 to 64 bytes. The client and an honest server reach the same key, and the aborts on zero values are exactly as rare as
 claimed.
 */
module Srp {
  import opened ByteStrings

  const GENERATOR: nat := 5

  /** The 3072-bit prime of RFC 5054, appendix A, in 512-bit words. That it is prime plays no part here. */
  function PrimeWord(i: nat): (r: nat)
    ensures r < WORD
  {
    if i == 0 then
      0xFFFFFFFFFFFFFFFF_C90FDAA22168C234_C4C6628B80DC1CD1_29024E088A67CC74_020BBEA63B139B22_514A08798E3404DD_EF9519B3CD3A431B_302B0A6DF25F1437
    else if i == 1 then
      0x4FE1356D6D51C245_E485B576625E7EC6_F44C42E9A637ED6B_0BFF5CB6F406B7ED_EE386BFB5A899FA5_AE9F24117C4B1FE6_49286651ECE45B3D_C2007CB8A163BF05
    else if i == 2 then
      0x98DA48361C55D39A_69163FA8FD24CF5F_83655D23DCA3AD96_1C62F356208552BB_9ED529077096966D_670C354E4ABC9804_F1746C08CA18217C_32905E462E36CE3B
    else if i == 3 then
      0xE39E772C180E8603_9B2783A2EC07A28F_B5C55DF06F4C52C9_DE2BCBF695581718_3995497CEA956AE5_15D2261898FA0510_15728E5A8AAAC42D_AD33170D04507A33
    else if i == 4 then
      0xA85521ABDF1CBA64_ECFB850458DBEF0A_8AEA71575D060C7D_B3970F85A6E1E4C7_ABF5AE8CDB0933D7_1E8C94E04A25619D_CEE3D2261AD2EE6B_F12FFA06D98A0864
    else if i == 5 then
      0xD87602733EC86A64_521F2B18177B200C_BBE117577A615D6C_770988C0BAD946E2_08E24FA074E5AB31_43DB5BFCE0FD108E_4B82D120A93AD2CA_FFFFFFFFFFFFFFFF
    else 0
  }

  const PRIME_LENGTH: nat := 6
  const WORD_BYTES: nat := 64
  const WORD: nat := 0x1_0000000000000000_0000000000000000_0000000000000000_0000000000000000_0000000000000000_0000000000000000_0000000000000000_0000000000000000

  /** The number the first `k` words denote, most significant word first. */
  function FromWords(word: nat -> nat, k: nat): nat {
    if k == 0 then 0 else FromWords(word, k - 1) * WORD + word(k - 1)
  }

  /** The hash, the modulus and its width, and the widths of a hash and of the client's secret, in bytes. */
  datatype Suite = Suite(hash: Bytes -> Bytes, n: nat, bytes: nat, hashBytes: nat, secretBytes: nat)

  /** What AirPlay uses: the 3072-bit group, SHA-512 and a secret of 256 bits. */
  function AirPlay(hash: Bytes -> Bytes): Suite {
    Suite(hash, FromWords(PrimeWord, PRIME_LENGTH), WORD_BYTES * PRIME_LENGTH, 64, 32)
  }

  // ----- Powers and remainders -----

  function Pow(base: nat, exponent: nat): nat {
    if exponent == 0 then 1 else base * Pow(base, exponent - 1)
  }

  function ModExp(base: nat, exponent: nat, n: nat): (r: nat)
    requires n > 0
    ensures r < n
  {
    Pow(base, exponent) % n
  }

  lemma {:induction false} PowAdds(b: nat, i: nat, j: nat)
    ensures Pow(b, i + j) == Pow(b, i) * Pow(b, j)
    decreases i
  {
    if i > 0 {
      PowAdds(b, i - 1, j);
      Regroup(b, Pow(b, i - 1), Pow(b, j));
    }
  }

  lemma {:induction false} Regroup(a: nat, b: nat, c: nat)
    ensures a * (b * c) == (a * b) * c
  {}

  lemma {:induction false} PowOfProduct(a: nat, b: nat, e: nat)
    ensures Pow(a * b, e) == Pow(a, e) * Pow(b, e)
    decreases e
  {
    if e > 0 {
      PowOfProduct(a, b, e - 1);
      Interchange(a, b, Pow(a, e - 1), Pow(b, e - 1));
    }
  }

  lemma {:induction false} Interchange(a: nat, b: nat, c: nat, d: nat)
    ensures (a * b) * (c * d) == (a * c) * (b * d)
  {}

  lemma {:induction false} PowOfPow(b: nat, i: nat, j: nat)
    ensures Pow(Pow(b, i), j) == Pow(b, i * j)
    decreases j
  {
    if j > 0 {
      PowOfPow(b, i, j - 1);
      PowAdds(b, i, i * (j - 1));
      assert i + i * (j - 1) == i * j;
    } else {
      assert i * j == 0;
    }
  }

  lemma {:induction false} RemainderOfSum(x: nat, q: nat, n: nat)
    requires n > 0
    ensures (q * n + x) % n == x % n
  {
    var p := x / n;
    assert q * n + x == (q + p) * n + x % n by { assert (q + p) * n == q * n + p * n; }
    DivisionIs(q * n + x, n, q + p, x % n);
  }

  /** A factor may be reduced before multiplying. */
  lemma {:induction false} ReduceFactor(a: nat, b: nat, n: nat)
    requires n > 0
    ensures (a % n * b) % n == (a * b) % n
  {
    var q := a / n;
    assert a == q * n + a % n;
    assert a * b == (q * b) * n + a % n * b by {
      Distribute(q * n, a % n, b);
      assert (q * n) * b == (q * b) * n;
    }
    RemainderOfSum(a % n * b, q * b, n);
  }

  lemma {:induction false} Distribute(a: nat, b: nat, c: nat)
    ensures (a + b) * c == a * c + b * c
  {}

  lemma {:induction false} ReduceBoth(a: nat, b: nat, n: nat)
    requires n > 0
    ensures (a % n * (b % n)) % n == (a * b) % n
  {
    ReduceFactor(a, b % n, n);
    ReduceFactor(b, a, n);
    assert a * (b % n) == b % n * a && a * b == b * a;
  }

  lemma {:induction false} ReduceBase(b: nat, e: nat, n: nat)
    requires n > 0
    ensures ModExp(b % n, e, n) == ModExp(b, e, n)
    decreases e
  {
    if e > 0 {
      ReduceBase(b, e - 1, n);
      var p, p' := Pow(b, e - 1), Pow(b % n, e - 1);
      ReduceBoth(b % n, p', n);
      ReduceBoth(b, p, n);
      SmallRemainder(b % n, n);
    }
  }

  lemma {:induction false} SmallRemainder(x: nat, n: nat)
    requires x < n
    ensures x % n == x
  {
    DivisionIs(x, n, 0, x);
  }

  // ----- Capacities -----

  lemma {:induction false} CapacityProduct(a: nat, b: nat)
    ensures Capacity(a + b) == Capacity(a) * Capacity(b)
    decreases a
  {
    if a > 0 {
      CapacityProduct(a - 1, b);
      Regroup(256, Capacity(a - 1), Capacity(b));
    }
  }

  lemma {:induction false} ProductBound(x: nat, y: nat, a: nat, b: nat)
    requires x < a && y < b
    ensures x * y < a * b
  {
    assert x * y <= x * b by { Distribute(y, b - y, x); assert x * (b - y) >= 0; }
    assert (a - x) * b > 0 by { Multiple(a - x, b); }
    Distribute(x, a - x, b);
  }

  /**
   What the protocol needs: hashes of one length, a modulus longer than two of them, and an inverse of five.
   The hash itself is left open.
   */
  ghost predicate Valid(p: Suite) {
    && Capacity(2 * p.hashBytes + 1) <= p.n < Capacity(p.bytes) && p.n % 5 == 2
    && 0 < p.hashBytes && p.secretBytes <= 2 * p.hashBytes
    && forall b {:trigger p.hash(b)} :: |p.hash(b)| == p.hashBytes
  }

  // ----- The protocol -----

  /** A number as wide as the modulus; nothing when it does not fit. */
  function Padded(p: Suite, value: nat): Bytes {
    if value < Capacity(p.bytes) then BigEndian(value, p.bytes) else []
  }

  const USERNAME: Bytes := [0x50, 0x61, 0x69, 0x72, 0x2d, 0x53, 0x65, 0x74, 0x75, 0x70]
  const PASSWORD: Bytes := [0x33, 0x39, 0x33, 0x39]
  const COLON: Bytes := [0x3a]

  function Xor(a: Byte, b: Byte): Byte { ((a as bv8) ^ (b as bv8)) as int }

  function XorAll(a: Bytes, b: Bytes): Bytes
    requires |a| == |b|
  {
    if a == [] then [] else [Xor(a[0], b[0])] + XorAll(a[1..], b[1..])
  }

  function HashNumber(p: Suite, bytes: Bytes): nat { FromBigEndian(p.hash(bytes)) }

  function Multiplier(p: Suite): nat { HashNumber(p, Padded(p, p.n) + Padded(p, GENERATOR)) }

  /** The number the password stands for. */
  function Secret(p: Suite, salt: Bytes): nat { HashNumber(p, salt + p.hash(USERNAME + COLON + PASSWORD)) }

  function Verifier(p: Suite, salt: Bytes): nat
    requires p.n > 0
  {
    ModExp(GENERATOR, Secret(p, salt), p.n)
  }

  function PublicKey(p: Suite, secret: nat): Bytes
    requires p.n > 0
  {
    Padded(p, ModExp(GENERATOR, secret, p.n))
  }

  function Scramble(p: Suite, clientKey: Bytes, serverKey: Bytes): nat { HashNumber(p, clientKey + serverKey) }

  function ModSub(a: nat, b: nat, n: nat): (r: nat)
    requires n > 0
    ensures r < n
  {
    (a - b) % n
  }

  /** What is left of the server's key when the multiplied verifier is taken off. */
  function Base(p: Suite, salt: Bytes, server: nat): nat
    requires p.n > 0
  {
    ModSub(server, Multiplier(p) * Verifier(p, salt) % p.n, p.n)
  }

  function ClientShared(p: Suite, salt: Bytes, serverKey: Bytes, secret: nat): nat
    requires p.n > 0
  {
    var u := Scramble(p, PublicKey(p, secret), serverKey);
    var exponent := (secret + u * Secret(p, salt) % p.n) % p.n;
    ModExp(Base(p, salt, FromBigEndian(serverKey)), exponent, p.n)
  }

  function Proof(p: Suite, salt: Bytes, clientKey: Bytes, serverKey: Bytes, sessionKey: Bytes): Bytes
    requires Valid(p)
  {
    p.hash(XorAll(p.hash(Padded(p, p.n)), p.hash([GENERATOR])) + p.hash(USERNAME) + salt + clientKey + serverKey +
        sessionKey)
  }

  function ServerProof(p: Suite, clientKey: Bytes, clientProof: Bytes, sessionKey: Bytes): Bytes {
    p.hash(clientKey + clientProof + sessionKey)
  }

  // ----- The client -----

  /** The first checks, before the client has a key of its own. */
  predicate Acceptable(p: Suite, salt: Bytes, serverKey: Bytes) {
    salt != [] && |serverKey| == p.bytes && 0 < FromBigEndian(serverKey) < p.n
  }

  /** The checks that depend on the client's own key. */
  predicate Usable(p: Suite, salt: Bytes, serverKey: Bytes, secret: nat)
    requires p.n > 0
  {
    Scramble(p, PublicKey(p, secret), serverKey) != 0 && Base(p, salt, FromBigEndian(serverKey)) != 0
  }

  datatype Session = Session(publicKey: Bytes, clientProof: Bytes, sessionKey: Bytes)

  /** The client after a challenge. */
  function Challenged(p: Suite, salt: Bytes, serverKey: Bytes, secret: nat): Session
    requires Valid(p)
  {
    if !Acceptable(p, salt, serverKey) then Session([], [], [])
    else
      var clientKey := PublicKey(p, secret);
      if !Usable(p, salt, serverKey, secret) then Session(clientKey, [], [])
      else
        var sessionKey := p.hash(Padded(p, ClientShared(p, salt, serverKey, secret)));
        Session(clientKey, Proof(p, salt, clientKey, serverKey, sessionKey), sessionKey)
  }

  predicate Verifies(p: Suite, s: Session, serverProof: Bytes) {
    && s.publicKey != [] && s.clientProof != [] && s.sessionKey != []
    && serverProof == ServerProof(p, s.publicKey, s.clientProof, s.sessionKey)
  }

  class SrpClient {
    const suite: Suite
    var publicKey: Bytes
    var clientProof: Bytes
    var sessionKey: Bytes

    ghost function State(): Session
      reads this
    {
      Session(publicKey, clientProof, sessionKey)
    }

    constructor (suite: Suite)
      ensures this.suite == suite && State() == Session([], [], [])
    {
      this.suite := suite;
      publicKey, clientProof, sessionKey := [], [], [];
    }

    /** `random` is what the random generator hands out. */
    method ProcessChallenge(salt: Bytes, serverKey: Bytes, random: Bytes) returns (ok: bool)
      requires Valid(suite) && |random| == suite.secretBytes
      modifies this
      ensures State() == Challenged(suite, salt, serverKey, FromBigEndian(random))
      ensures ok <==> clientProof != []
    {
      publicKey, clientProof, sessionKey := [], [], [];
      if salt == [] || |serverKey| != suite.bytes {
        return false;
      }
      var server, prime := FromBigEndian(serverKey), suite.n;
      if server >= prime {
        return false;
      }
      SmallRemainder(server, prime);
      if server % prime == 0 {
        return false;
      }
      var secret := FromBigEndian(random);
      publicKey := Padded(suite, ModExp(GENERATOR, secret, prime));
      var x := FromBigEndian(suite.hash(salt + suite.hash(USERNAME + COLON + PASSWORD)));
      var u := FromBigEndian(suite.hash(publicKey + serverKey));
      if u == 0 {
        return false;
      }
      var base := TakeOff(server, x);
      assert base == Base(suite, salt, server);
      if base == 0 {
        return false;
      }
      var shared := Premaster(base, secret, u, x);
      assert shared == ClientShared(suite, salt, serverKey, secret);
      sessionKey := suite.hash(Padded(suite, shared));
      clientProof := MakeProof(salt, serverKey);
      ok := |clientProof| == suite.hashBytes;
    }

    method TakeOff(server: nat, x: nat) returns (base: nat)
      requires Valid(suite)
      ensures base == ModSub(server, Multiplier(suite) * ModExp(GENERATOR, x, suite.n) % suite.n, suite.n)
    {
      var prime := suite.n;
      var multiplier := FromBigEndian(suite.hash(Padded(suite, prime) + Padded(suite, GENERATOR)));
      var verifier := ModExp(GENERATOR, x, prime);
      base := ModSub(server, multiplier * verifier % prime, prime);
    }

    method Premaster(base: nat, secret: nat, u: nat, x: nat) returns (shared: nat)
      requires Valid(suite)
      ensures shared == ModExp(base, (secret + u * x % suite.n) % suite.n, suite.n)
    {
      var prime := suite.n;
      var ux := u * x % prime;
      var exponent := (secret + ux) % prime;
      shared := ModExp(base, exponent, prime);
    }

    method MakeProof(salt: Bytes, serverKey: Bytes) returns (proof: Bytes)
      requires Valid(suite)
      ensures proof == Proof(suite, salt, publicKey, serverKey, sessionKey)
    {
      var primeHash, generatorHash := suite.hash(Padded(suite, suite.n)), suite.hash([GENERATOR]);
      var mixed := XorHashes(primeHash, generatorHash);
      proof := suite.hash(mixed + suite.hash(USERNAME) + salt + publicKey + serverKey + sessionKey);
    }

    method VerifyServer(serverProof: Bytes) returns (ok: bool)
      ensures ok == Verifies(suite, State(), serverProof)
    {
      if publicKey == [] || clientProof == [] || sessionKey == [] {
        return false;
      }
      ok := serverProof == suite.hash(publicKey + clientProof + sessionKey);
    }
  }

  method XorHashes(a: Bytes, b: Bytes) returns (mixed: Bytes)
    requires |a| == |b|
    ensures mixed == XorAll(a, b)
  {
    mixed := [];
    assert a[0..] == a && b[0..] == b;
    for index := 0 to |a|
      invariant mixed + XorAll(a[index..], b[index..]) == XorAll(a, b)
    {
      assert a[index..][1..] == a[index + 1..] && b[index..][1..] == b[index + 1..];
      Associates(mixed, [Xor(a[index], b[index])], XorAll(a[index + 1..], b[index + 1..]));
      mixed := mixed + [Xor(a[index], b[index])];
    }
    assert mixed + [] == mixed;
  }

  // ----- An honest server -----

  /** What the two sides of one pairing compute. */
  datatype Pairing = Pairing(
    multiplier: nat, x: nat, verifier: nat, scramble: nat, clientKey: Bytes, serverKey: Bytes,
    sessionKey: Bytes, mixed: Bytes, clientProof: Bytes, serverProof: Bytes)

  /**
   The pairing of a client with secret `a` and a server with secret `b`, as sections 2.5 and 2.6 of RFC 5054 and section
   3 of RFC 2945 have it: k = H(N | g), x = H(s | H("Pair-Setup:3939")), v = g^x, A = g^a, B = k v + g^b, u = H(A | B),
   the key is the hash of (A v^u)^b, and the proofs are H(H(N) xor H(g) | H("Pair-Setup") | s | A | B | K) and H(A | M |
   K).
   */
  ghost predicate Honest(p: Suite, salt: Bytes, a: nat, b: nat, e: Pairing)
    requires p.n > 0
  {
    && e.multiplier == FromBigEndian(p.hash(BigEndian(p.n, p.bytes) + BigEndian(5, p.bytes)))
    && e.x == FromBigEndian(p.hash(salt + p.hash([80, 97, 105, 114, 45, 83, 101, 116, 117, 112, 58, 51, 57, 51, 57])))
    && e.verifier == Pow(5, e.x) % p.n
    && e.clientKey == BigEndian(Pow(5, a) % p.n, p.bytes)
    && e.serverKey == BigEndian((e.multiplier * e.verifier + Pow(5, b)) % p.n, p.bytes)
    && e.scramble == FromBigEndian(p.hash(e.clientKey + e.serverKey))
    && e.sessionKey ==
       p.hash(BigEndian(Pow(FromBigEndian(e.clientKey) * Pow(e.verifier, e.scramble), b) % p.n, p.bytes))
    && BitwiseXor(p.hash(BigEndian(p.n, p.bytes)), p.hash([5]), e.mixed)
    && e.clientProof ==
       p.hash(e.mixed + p.hash([80, 97, 105, 114, 45, 83, 101, 116, 117, 112]) + salt + e.clientKey + e.serverKey +
              e.sessionKey)
    && e.serverProof == p.hash(e.clientKey + e.clientProof + e.sessionKey)
  }

  ghost predicate BitwiseXor(a: Bytes, b: Bytes, mixed: Bytes) {
    |mixed| == |a| == |b| && forall i :: 0 <= i < |mixed| ==> mixed[i] == ((a[i] as bv8) ^ (b[i] as bv8)) as int
  }

  lemma {:induction false} XorAllAt(a: Bytes, b: Bytes, i: nat)
    requires i < |a| == |b|
    ensures |XorAll(a, b)| == |a| && XorAll(a, b)[i] == Xor(a[i], b[i])
    decreases |a|
  {
    hide Xor;
    if |a| > 1 {
      XorAllAt(a[1..], b[1..], if i > 0 then i - 1 else 0);
    }
  }

  lemma {:induction false} XorAllBitwise(a: Bytes, b: Bytes)
    requires |a| == |b|
    ensures BitwiseXor(a, b, XorAll(a, b))
  {
    var mixed := XorAll(a, b);
    if |a| > 0 {
      XorAllAt(a, b, 0);
    }
    forall i | 0 <= i < |a|
      ensures mixed[i] == ((a[i] as bv8) ^ (b[i] as bv8)) as int
    {
      XorAllAt(a, b, i);
      assert mixed[i] == Xor(a[i], b[i]);
    }
  }

  lemma {:induction false} BitwiseOnlyOne(a: Bytes, b: Bytes, c: Bytes, d: Bytes)
    requires BitwiseXor(a, b, c) && BitwiseXor(a, b, d)
    ensures c == d
  {}

  lemma {:induction false} PaddedRoundTrip(p: Suite, value: nat)
    requires Valid(p) && value < p.n
    ensures |Padded(p, value)| == p.bytes && FromBigEndian(Padded(p, value)) == value
  {
    BigEndianRoundTrip(value, p.bytes);
  }

  /** Taking off what was added: the base is the server's own power of the generator. */
  lemma {:induction false} BaseOfHonest(kv: nat, power: nat, n: nat)
    requires power < n
    ensures ModSub((kv + power) % n, kv % n, n) == power
  {
    var p, q := kv / n, (kv + power) / n;
    var b, m := (kv + power) % n, kv % n;
    assert kv == p * n + m && kv + power == q * n + b;
    assert b - m == (p - q) * n + power by { assert (p - q) * n == p * n - q * n; }
    DivisionIs(b - m, n, p - q, power);
  }

  /** Five has an inverse modulo n. */
  lemma {:induction false} CancelFive(p: nat, n: nat)
    requires n % 5 == 2 && (5 * p) % n == 0
    ensures p % n == 0
  {
    var inverse, q := (2 * n + 1) / 5, 5 * p / n;
    assert 5 * inverse == 2 * n + 1 && 5 * p == q * n;
    assert inverse * (5 * p) == (5 * inverse) * p;
    assert (5 * inverse) * p == (2 * p) * n + p by { Distribute(2 * n, 1, p); }
    assert inverse * (5 * p) == (inverse * q) * n by { Regroup(inverse, q, n); }
    RemainderOfSum(p, 2 * p, n);
    RemainderOfSum(0, inverse * q, n);
  }

  /** No power of the generator is zero; that the modulus is prime is not needed for this. */
  lemma {:induction false} GeneratorPowerNonZero(e: nat, n: nat)
    requires n % 5 == 2
    ensures ModExp(GENERATOR, e, n) != 0
    decreases e
  {
    if e == 0 {
      SmallRemainder(1, n);
    } else {
      GeneratorPowerNonZero(e - 1, n);
      if (5 * Pow(GENERATOR, e - 1)) % n == 0 {
        CancelFive(Pow(GENERATOR, e - 1), n);
      }
    }
  }

  /** The exponent is small, so reducing it modulo n, which is not the order of the group, changes nothing. */
  lemma {:induction false} CapacityStep(n: nat)
    ensures Capacity(n + 1) == 256 * Capacity(n)
  {}

  lemma {:induction false} ExponentExact(p: Suite, secret: nat, u: nat, x: nat)
    requires Valid(p) && secret < Capacity(p.secretBytes) && u < Capacity(p.hashBytes) && x < Capacity(p.hashBytes)
    ensures (secret + u * x % p.n) % p.n == secret + u * x
  {
    hide Capacity;
    var c := p.hashBytes;
    ProductBound(u, x, Capacity(c), Capacity(c));
    CapacityProduct(c, c);
    CapacityMonotonic(p.secretBytes, 2 * c);
    CapacityStep(2 * c);
    SmallRemainder(u * x, p.n);
    SmallRemainder(secret + u * x, p.n);
  }

  /** (g^b)^(a + u x) and (g^a (g^x)^u)^b are the same power. */
  lemma {:induction false} SamePower(g: nat, a: nat, b: nat, u: nat, x: nat)
    ensures Pow(Pow(g, b), a + u * x) == Pow(Pow(g, a) * Pow(Pow(g, x), u), b)
  {
    PowOfPow(g, b, a + u * x);
    PowOfPow(g, x, u);
    PowAdds(g, a, x * u);
    PowOfPow(g, a + x * u, b);
    Commutes(x, u);
    Commutes(b, a + u * x);
  }

  lemma {:induction false} Commutes(a: nat, b: nat)
    ensures a * b == b * a
  {}

  /** The server's side with all reductions taken out. */
  lemma {:induction false} ServerReduced(v: nat, a: nat, u: nat, b: nat, n: nat)
    requires n > 0
    ensures ModExp(ModExp(GENERATOR, a, n) * ModExp(v % n, u, n) % n, b, n) ==
            ModExp(Pow(GENERATOR, a) * Pow(v, u), b, n)
  {
    ReduceBase(v, u, n);
    ReduceBoth(Pow(GENERATOR, a), Pow(v, u), n);
    ReduceBase(Pow(GENERATOR, a) * Pow(v, u), b, n);
  }

  lemma {:induction false} PowersAgree(a: nat, b: nat, u: nat, x: nat, n: nat)
    requires n > 0
    ensures ModExp(ModExp(GENERATOR, b, n), a + u * x, n) ==
            ModExp(ModExp(GENERATOR, a, n) * ModExp(ModExp(GENERATOR, x, n), u, n) % n, b, n)
  {
    ReduceBase(Pow(GENERATOR, b), a + u * x, n);
    SamePower(GENERATOR, a, b, u, x);
    ServerReduced(Pow(GENERATOR, x), a, u, b, n);
  }

  lemma {:induction false} GeneratorSmall(p: Suite)
    requires Valid(p)
    ensures 5 < Capacity(p.bytes) && p.bytes > 0
  {
    assert Capacity(0) == 1 && Capacity(1) == 256;
    CapacityMonotonic(1, 2 * p.hashBytes + 1);
  }

  /** The names the client uses are the formulas of the pairing. */
  lemma {:induction false} SameFormulas(p: Suite, salt: Bytes, a: nat, b: nat, e: Pairing)
    requires Valid(p) && Honest(p, salt, a, b, e)
    ensures Multiplier(p) == e.multiplier && Secret(p, salt) == e.x && Verifier(p, salt) == e.verifier
    ensures PublicKey(p, a) == e.clientKey && Scramble(p, e.clientKey, e.serverKey) == e.scramble
    ensures Proof(p, salt, e.clientKey, e.serverKey, e.sessionKey) == e.clientProof
    ensures ServerProof(p, e.clientKey, e.clientProof, e.sessionKey) == e.serverProof
  {
    GeneratorSmall(p);
    assert USERNAME + COLON + PASSWORD == [80, 97, 105, 114, 45, 83, 101, 116, 117, 112, 58, 51, 57, 51, 57];
    assert USERNAME == [80, 97, 105, 114, 45, 83, 101, 116, 117, 112];
    var prime, generator := p.hash(BigEndian(p.n, p.bytes)), p.hash([5]);
    XorAllBitwise(prime, generator);
    BitwiseOnlyOne(prime, generator, XorAll(prime, generator), e.mixed);
  }

  lemma {:induction false} ReduceAddend(x: nat, y: nat, n: nat)
    requires n > 0
    ensures (x + y) % n == (x + y % n) % n
  {
    RemainderOfSum(x + y % n, y / n, n);
    assert y == y / n * n + y % n;
  }

  lemma {:induction false} HonestBase(p: Suite, salt: Bytes, a: nat, b: nat, e: Pairing)
    requires Valid(p) && Honest(p, salt, a, b, e)
    ensures |e.serverKey| == p.bytes && FromBigEndian(e.serverKey) < p.n
    ensures Base(p, salt, FromBigEndian(e.serverKey)) == ModExp(GENERATOR, b, p.n)
  {
    hide Honest, Capacity, Pow;
    SameFormulas(p, salt, a, b, e);
    ServerKeyIs(p, salt, a, b, e);
    var kv, power := e.multiplier * e.verifier, ModExp(GENERATOR, b, p.n);
    PaddedRoundTrip(p, (kv + power) % p.n);
    BaseOfHonest(kv, power, p.n);
  }

  lemma {:induction false} ServerKeyIs(p: Suite, salt: Bytes, a: nat, b: nat, e: Pairing)
    requires Valid(p) && Honest(p, salt, a, b, e)
    ensures e.serverKey == Padded(p, (e.multiplier * e.verifier + ModExp(GENERATOR, b, p.n)) % p.n)
  {
    hide Pow, ModExp, BigEndian, Capacity, BitwiseXor;
    ServerNumber(e.multiplier, e.verifier, b, p.n);
  }

  lemma {:induction false} ServerNumber(multiplier: nat, verifier: nat, b: nat, n: nat)
    requires n > 0
    ensures (multiplier * verifier + Pow(5, b)) % n == (multiplier * verifier + ModExp(GENERATOR, b, n)) % n < n
  {
    hide Pow;
    ReduceAddend(multiplier * verifier, Pow(5, b), n);
  }

  /** Client and honest server compute the same number. */
  lemma {:induction false} SharedAgree(p: Suite, salt: Bytes, a: nat, b: nat, e: Pairing)
    requires Valid(p) && a < Capacity(p.secretBytes) && Honest(p, salt, a, b, e)
    ensures ClientShared(p, salt, e.serverKey, a)
         == Pow(FromBigEndian(e.clientKey) * Pow(e.verifier, e.scramble), b) % p.n
  {
    hide Honest, Multiplier, Secret, Capacity, FromBigEndian;
    SameFormulas(p, salt, a, b, e);
    HonestBase(p, salt, a, b, e);
    HashesBound(p, salt, a, b, e);
    ExponentExact(p, a, e.scramble, e.x);
    PaddedRoundTrip(p, ModExp(GENERATOR, a, p.n));
    PowersAgree(a, b, e.scramble, e.x, p.n);
    var key := FromBigEndian(e.clientKey);
    ReduceBoth(key, Pow(e.verifier, e.scramble), p.n);
    SmallRemainder(key, p.n);
    ReduceBase(key * Pow(e.verifier, e.scramble), b, p.n);
  }

  lemma {:induction false} HashesBound(p: Suite, salt: Bytes, a: nat, b: nat, e: Pairing)
    requires Valid(p) && Honest(p, salt, a, b, e)
    ensures e.x < Capacity(p.hashBytes) && e.scramble < Capacity(p.hashBytes)
    ensures e.verifier == ModExp(GENERATOR, e.x, p.n) && e.clientKey == Padded(p, ModExp(GENERATOR, a, p.n))
    ensures e.sessionKey ==
            p.hash(Padded(p, Pow(FromBigEndian(e.clientKey) * Pow(e.verifier, e.scramble), b) % p.n))
    ensures |e.clientProof| == p.hashBytes && |e.sessionKey| == p.hashBytes
  {
    hide Pow, BigEndian, Capacity, BitwiseXor;
    FromBigEndianBound(p.hash(salt + p.hash([80, 97, 105, 114, 45, 83, 101, 116, 117, 112, 58, 51, 57, 51, 57])));
    FromBigEndianBound(p.hash(e.clientKey + e.serverKey));
  }

  /**
   A challenge is refused, without key or proof, exactly for want of a salt, for a server key of the wrong width, of no
   value or of one not below the prime, and when the scrambling number or what is left of the server key is zero.
   */
  lemma {:induction false} RefusedExactly(p: Suite, salt: Bytes, serverKey: Bytes, a: nat)
    requires Valid(p)
    ensures var s, server := Challenged(p, salt, serverKey, a), FromBigEndian(serverKey);
            var k := FromBigEndian(p.hash(BigEndian(p.n, p.bytes) + BigEndian(5, p.bytes)));
            var x := FromBigEndian(
                       p.hash(salt + p.hash([80, 97, 105, 114, 45, 83, 101, 116, 117, 112, 58, 51, 57, 51, 57])));
            var scramble := FromBigEndian(p.hash(BigEndian(Pow(5, a) % p.n, p.bytes) + serverKey));
            var refused := salt == [] || |serverKey| != p.bytes || server == 0 || server >= p.n || scramble == 0 ||
                           (server - k * (Pow(5, x) % p.n) % p.n) % p.n == 0;
            (s.clientProof == [] <==> refused) && (s.sessionKey == [] <==> refused)
  {
    hide Pow, BigEndian, FromBigEndian, Capacity, XorAll;
    GeneratorSmall(p);
    assert USERNAME + COLON + PASSWORD == [80, 97, 105, 114, 45, 83, 101, 116, 117, 112, 58, 51, 57, 51, 57];
  }

  /**
   Against an honest server the client ends with the key and the proof of the pairing, and accepts no proof but the
   server's. It gives up, and accepts no proof at all, exactly when the salt is empty or one of two numbers happens to
   be zero.
   */
  lemma {:induction false} HonestServerAgrees(p: Suite, salt: Bytes, a: nat, b: nat, e: Pairing, proof: Bytes)
    requires Valid(p) && a < Capacity(p.secretBytes) && Honest(p, salt, a, b, e)
    ensures var s := Challenged(p, salt, e.serverKey, a);
            if salt != [] && FromBigEndian(e.serverKey) != 0 && e.scramble != 0 then
              s == Session(e.clientKey, e.clientProof, e.sessionKey) &&
                  (Verifies(p, s, proof) <==> proof == e.serverProof)
            else s.clientProof == [] && s.sessionKey == [] && !Verifies(p, s, proof)
  {
    hide Honest, Multiplier, Secret, Proof, ServerProof, Scramble, Base, ClientShared, Pow, Capacity;
    SameFormulas(p, salt, a, b, e);
    HonestBase(p, salt, a, b, e);
    HashesBound(p, salt, a, b, e);
    PaddedRoundTrip(p, ModExp(GENERATOR, a, p.n));
    GeneratorSmall(p);
    GeneratorPowerNonZero(b, p.n);
    SharedAgree(p, salt, a, b, e);
  }

  /** There is such a pairing for any salt and any two secrets. */
  lemma {:induction false} PairingExists(p: Suite, salt: Bytes, a: nat, b: nat) returns (e: Pairing)
    requires Valid(p)
    ensures Honest(p, salt, a, b, e)
  {
    hide Pow, BigEndian, Capacity, FromBigEndian;
    var name: Bytes := [80, 97, 105, 114, 45, 83, 101, 116, 117, 112];
    var k := FromBigEndian(p.hash(BigEndian(p.n, p.bytes) + BigEndian(5, p.bytes)));
    var x := FromBigEndian(
      p.hash(salt + p.hash([80, 97, 105, 114, 45, 83, 101, 116, 117, 112, 58, 51, 57, 51, 57])));
    var v := Pow(5, x) % p.n;
    var clientKey := BigEndian(Pow(5, a) % p.n, p.bytes);
    var serverKey := BigEndian((k * v + Pow(5, b)) % p.n, p.bytes);
    var u := FromBigEndian(p.hash(clientKey + serverKey));
    var key := p.hash(BigEndian(Pow(FromBigEndian(clientKey) * Pow(v, u), b) % p.n, p.bytes));
    var mixed := XorAll(p.hash(BigEndian(p.n, p.bytes)), p.hash([5]));
    XorAllBitwise(p.hash(BigEndian(p.n, p.bytes)), p.hash([5]));
    var m := p.hash(mixed + p.hash(name) + salt + clientKey + serverKey + key);
    e := Pairing(k, x, v, u, clientKey, serverKey, key, mixed, m, p.hash(clientKey + m + key));
  }

  // ----- The modulus itself -----

  lemma {:induction false} HalfWordCapacity()
    ensures Capacity(32) == 0x1_0000000000000000_0000000000000000_0000000000000000_0000000000000000
  {
    EightByteCapacity();
    CapacityProduct(8, 8);
    CapacityProduct(16, 16);
  }

  lemma {:induction false} WordCapacity()
    ensures Capacity(WORD_BYTES) == WORD
  {
    HalfWordCapacity();
    CapacityProduct(32, 32);
  }

  function WordSum(word: nat -> nat, k: nat): nat {
    if k == 0 then 0 else WordSum(word, k - 1) + word(k - 1)
  }

  lemma {:induction false} WordsBelow(word: nat -> nat, k: nat)
    requires forall i {:trigger word(i)} :: word(i) < WORD
    ensures FromWords(word, k) < Capacity(WORD_BYTES * k)
    decreases k
  {
    if k > 0 {
      WordsBelow(word, k - 1);
      WordCapacity();
      CapacityProduct(WORD_BYTES * (k - 1), WORD_BYTES);
    }
  }

  lemma {:induction false} WordsAbove(word: nat -> nat, k: nat)
    requires k > 0 && word(0) > 0
    ensures Capacity(WORD_BYTES * (k - 1)) <= FromWords(word, k)
    decreases k
  {
    if k > 1 {
      WordsAbove(word, k - 1);
      WordCapacity();
      CapacityProduct(WORD_BYTES * (k - 2), WORD_BYTES);
    } else {
      assert FromWords(word, 1) == FromWords(word, 0) * WORD + word(0);
    }
  }

  lemma {:induction false} CarryModFive(high: nat, sum: nat, word: nat)
    requires high % 5 == sum % 5
    ensures (high * WORD + word) % 5 == (sum + word) % 5
  {}

  /** The remainder by five of a number is that of the sum of its words. */
  lemma {:induction false} WordsModFive(word: nat -> nat, k: nat)
    ensures FromWords(word, k) % 5 == WordSum(word, k) % 5
    decreases k
  {
    if k > 0 {
      WordsModFive(word, k - 1);
      CarryModFive(FromWords(word, k - 1), WordSum(word, k - 1), word(k - 1));
    }
  }

  lemma {:induction false} PrimeWordSum()
    ensures WordSum(PrimeWord, PRIME_LENGTH) % 5 == 2
  {
    assert WordSum(PrimeWord, 3) == WordSum(PrimeWord, 2) + PrimeWord(2);
    assert WordSum(PrimeWord, 6) == WordSum(PrimeWord, 5) + PrimeWord(5);
  }

  /** Any modulus of four words or more will do, if five can be inverted. */
  lemma {:induction false} WordsFit(p: Suite, word: nat -> nat, k: nat)
    requires (forall i {:trigger word(i)} :: word(i) < WORD) && word(0) > 0 && k > 3
    requires p == Suite(p.hash, FromWords(word, k), WORD_BYTES * k, 64, 32)
    requires WordSum(word, k) % 5 == 2
    requires forall b {:trigger p.hash(b)} :: |p.hash(b)| == 64
    ensures Valid(p)
  {
    WordsBelow(word, k);
    WordsAbove(word, k);
    WordsModFive(word, k);
    CapacityMonotonic(2 * p.hashBytes + 1, WORD_BYTES * (k - 1));
  }

  lemma {:induction false} PrimeWordsSmall(word: nat -> nat)
    requires word == PrimeWord
    ensures forall i {:trigger word(i)} :: word(i) < WORD
  {}

  /** The suite of AirPlay is one the results above hold for. */
  lemma {:induction false} AirPlayValid(hash: Bytes -> Bytes)
    requires forall b {:trigger hash(b)} :: |hash(b)| == 64
    ensures Valid(AirPlay(hash))
  {
    PrimeWordsSmall(PrimeWord);
    PrimeWordSum();
    WordsFit(AirPlay(hash), PrimeWord, PRIME_LENGTH);
  }
}

// Goldilocks arithmetic on machine words and the Poseidon2 t=4 permutation of
// core/scalar-crypto/src/poseidon2.rs.
module Poseidon2 {
  import opened ModArith
  import opened NumberTheory
  import opened Goldilocks
  import opened Words

  // ----- Field arithmetic on u64 -----

  /** field_add: one conditional wrapping subtraction after an overflowing addition. */
  function FieldAdd(a: U64, b: U64): U64 {
    var sum := (a + b) % TWO_64;
    var carry := a + b >= TWO_64;
    if carry || sum >= P then (sum - P) % TWO_64 else sum
  }

  /** field_sub. */
  function FieldSub(a: U64, b: U64): U64 {
    if a >= b then a - b else ((a - b) % TWO_64 + P) % TWO_64
  }

  /** field_reduce. */
  function FieldReduce(x: U64): U64 {
    if x >= P then x - P else x
  }

  /** reduce_u128: fold the high word twice with 2^64 = 2^32 - 1, then subtract P at most once. */
  function ReduceU128(x: U128): U64 {
    var lo := x % TWO_64;
    var hi := x / TWO_64;
    var hiLo := hi * 0xFFFF_FFFF;
    var low := hiLo % TWO_64;
    var sum := (lo + low) % TWO_64;
    var carryVal := hiLo / TWO_64 + (if lo + low >= TWO_64 then 1 else 0);
    var folded := (carryVal * 0xFFFF_FFFF) % TWO_64;
    var result := (sum + folded) % TWO_64;
    if sum + folded >= TWO_64 || result >= P then (result - P) % TWO_64 else result
  }

  /** field_add is addition modulo P exactly when the integer sum stays below 2^64 + P. */
  lemma FieldAddExact(a: U64, b: U64)
    ensures Cong(FieldAdd(a, b), a + b, P) <==> a + b < TWO_64 + P
    ensures FieldAdd(a, b) == if a + b < P then a + b else if a + b < TWO_64 + P then a + b - P else a + b - TWO_64 - P
  {
    var n := a + b;
    if n < P {
      ModSmall(n, TWO_64);
    } else if n < TWO_64 {
      ModSmall(n, TWO_64);
      ModSmall(n - P, TWO_64);
      CongIntro(n, n - P, 1, P);
    } else if n < TWO_64 + P {
      DivModUnique(n, 1, n - TWO_64, TWO_64);
      DivModUnique(n - TWO_64 - P, -1, n - P, TWO_64);
      CongIntro(n, n - P, 1, P);
    } else {
      DivModUnique(n, 1, n - TWO_64, TWO_64);
      ModSmall(n - TWO_64 - P, TWO_64);
      LostCarry(n);
    }
  }

  /** For instance the sum of two words of all ones is wrong: the second carry is lost. */
  lemma FieldAddCanFail()
    ensures !Cong(FieldAdd(U64_MAX, U64_MAX), U64_MAX + U64_MAX, P)
  {
    hide FieldAdd;
    FieldAddExact(U64_MAX, U64_MAX);
  }

  /** Dropping 2^64 changes the residue: 2^64 is 2^32 - 1 modulo P. */
  lemma LostCarry(n: int)
    ensures !Cong(n - TWO_64 - P, n, P)
  {
    if Cong(n - TWO_64 - P, n, P) {
      var k := CongWitness(n - TWO_64 - P, n, P);
      assert (k + 2) * P == k * P + 2 * P;
      SmallMultiple(k + 2, P);
    }
  }

  /** On canonical operands field_add and field_sub are exact and canonical. */
  lemma FieldAddCanonical(a: U64, b: U64)
    requires a < P && b < P
    ensures FieldAdd(a, b) == (a + b) % P && FieldSub(a, b) == (a - b) % P
  {
    var n := a + b;
    if n < P {
      ModSmall(n, TWO_64);
      ModSmall(n, P);
    } else {
      DivModUnique(n, 1, n - P, P);
      if n < TWO_64 {
        ModSmall(n, TWO_64);
        ModSmall(n - P, TWO_64);
      } else {
        DivModUnique(n, 1, n - TWO_64, TWO_64);
        DivModUnique(n - TWO_64 - P, -1, n - P, TWO_64);
      }
    }
    if a >= b {
      ModSmall(a - b, P);
    } else {
      DivModUnique(a - b, -1, a - b + P, P);
      DivModUnique(a - b, -1, a - b + TWO_64, TWO_64);
      DivModUnique(a - b + TWO_64 + P, 1, a - b + P, TWO_64);
    }
  }

  /** field_sub is subtraction modulo P exactly when the difference is at least -P. */
  lemma FieldSubExact(a: U64, b: U64)
    ensures Cong(FieldSub(a, b), a - b, P) <==> a - b >= -P
    ensures FieldSub(a, b) == if a >= b then a - b else if a - b >= -P then a - b + P else a - b + P + TWO_64
  {
    if a < b {
      var d := a - b;
      DivModUnique(d, -1, d + TWO_64, TWO_64);
      if d >= -P {
        DivModUnique(d + TWO_64 + P, 1, d + P, TWO_64);
        CongIntro(d + P, d, 1, P);
      } else {
        ModSmall(d + TWO_64 + P, TWO_64);
        ExtraCarry(d);
      }
    }
  }

  lemma ExtraCarry(d: int)
    ensures !Cong(d + TWO_64 + P, d, P)
  {
    if Cong(d + TWO_64 + P, d, P) {
      var k := CongWitness(d + TWO_64 + P, d, P);
      SmallMultiple(k - 2, P);
    }
  }

  lemma FieldReduceExact(x: U64)
    ensures FieldReduce(x) == x % P
  {
    if x >= P {
      DivModUnique(x, 1, x - P, P);
    } else {
      ModSmall(x, P);
    }
  }

  /** The two folds of reduce_u128 leave a number below 2P congruent to x. */
  lemma FoldedWord(x: U128)
    ensures var hi := x / TWO_64;
      var low, high := (hi * 0xFFFF_FFFF) % TWO_64, (hi * 0xFFFF_FFFF) / TWO_64;
      var t := x % TWO_64 + low;
      var carryVal := high + (if t >= TWO_64 then 1 else 0);
      && 0 <= carryVal <= 0xFFFF_FFFF
      && 0 <= t % TWO_64 + carryVal * 0xFFFF_FFFF <= 2 * P - 2
      && Cong(t % TWO_64 + carryVal * 0xFFFF_FFFF, x, P)
  {
    var lo, hi := x % TWO_64, x / TWO_64;
    assert x == hi * TWO_64 + lo && 0 <= hi < TWO_64;
    var hiLo := hi * 0xFFFF_FFFF;
    var low, high := hiLo % TWO_64, hiLo / TWO_64;
    assert hiLo == high * TWO_64 + low;
    var t := lo + low;
    var c := if t >= TWO_64 then 1 else 0;
    assert t % TWO_64 == t - c * TWO_64 by {
      DivModUnique(t, c, t - c * TWO_64, TWO_64);
    }
    var v := t % TWO_64 + (high + c) * 0xFFFF_FFFF;
    assert v == x - (hi + high + c) * P;
    CongIntro(x, v, hi + high + c, P);
  }

  /** reduce_u128 is reduction modulo P, for every 128-bit value. */
  lemma ReduceU128Exact(x: U128)
    ensures ReduceU128(x) == x % P
  {
    FoldedWord(x);
    var hiLo := (x / TWO_64) * 0xFFFF_FFFF;
    var t := x % TWO_64 + hiLo % TWO_64;
    var carryVal := hiLo / TWO_64 + (if t >= TWO_64 then 1 else 0);
    var folded := carryVal * 0xFFFF_FFFF;
    ModSmall(folded, TWO_64);
    FinalSubtraction(t % TWO_64 + folded, x);
  }

  lemma FinalSubtraction(v: int, x: int)
    requires 0 <= v <= 2 * P - 2 && Cong(v, x, P)
    ensures (if v >= TWO_64 || v % TWO_64 >= P then (v % TWO_64 - P) % TWO_64 else v % TWO_64) == x % P
  {
    if v < P {
      ModSmall(v, TWO_64);
      ModSmall(v, P);
    } else {
      DivModUnique(v, 1, v - P, P);
      if v < TWO_64 {
        ModSmall(v, TWO_64);
        ModSmall(v - P, TWO_64);
      } else {
        DivModUnique(v, 1, v - TWO_64, TWO_64);
        DivModUnique(v - TWO_64 - P, -1, v - P, TWO_64);
      }
    }
  }

  lemma ProductFits(a: U64, b: U64)
    ensures 0 <= a * b < TWO_128
  {
    ProductBound(a, b, TWO_64 - 1);
  }

  lemma ProductBound(a: nat, b: nat, m: nat)
    requires a <= m && b <= m
    ensures 0 <= a * b <= m * m
  {
    MulMonotone(a, m, b);
    MulMonotone(b, m, m);
  }

  /** field_mul. */
  function FieldMul(a: U64, b: U64): (r: U64)
    ensures r == (a * b) % P
  {
    ProductFits(a, b);
    ReduceU128Exact(a * b);
    ReduceU128(a * b)
  }

  // ----- Exponentiation -----

  /** field_pow: square-and-multiply equals the mathematical power modulo P, for every exponent. */
  method FieldPow(base: U64, exp: U64) returns (r: U64)
    ensures r == Pow(base, exp) % P
  {
    hide FieldMul, Pow;
    r := 1;
    var b: U64 := FieldReduce(base);
    var e: U64 := exp;
    ghost var target := Pow(base, exp);
    PowStart(base, exp);
    while e > 0
      invariant r < P && Cong(r * Pow(b, e), target, P)
    {
      PowStep(r, b, e, target, P);
      if e % 2 == 1 {
        CongMod(r * b, P);
        r := FieldMul(r, b);
      }
      b := FieldMul(b, b);
      e := e / 2;
    }
    PowEnd(r, b, target);
  }

  lemma PowStart(base: U64, exp: U64)
    ensures Cong(1 * Pow(FieldReduce(base), exp), Pow(base, exp), P)
  {
    FieldReduceExact(base);
    CongMod(base, P);
    PowCong(FieldReduce(base), base, exp, P);
  }

  lemma PowEnd(r: U64, b: U64, target: int)
    requires r < P && Cong(r * Pow(b, 0), target, P)
    ensures r == target % P
  {
    ModSmall(r, P);
  }

  /** One step of square-and-multiply, for any modulus. */
  lemma PowStep(r: int, b: int, e: nat, target: int, m: int)
    requires m > 0 && e > 0 && Cong(r * Pow(b, e), target, m)
    ensures var r' := if e % 2 == 1 then (r * b) % m else r;
      Cong(r' * Pow((b * b) % m, e / 2), target, m)
  {
    hide Pow, Cong;
    var h, s := e / 2, (b * b) % m;
    var x, q := Pow(s, h), Pow(b * b, h);
    PowHalf(b, e);
    CongMod(b * b, m);
    PowCong(s, b * b, h, m);
    if e % 2 == 1 {
      CongMod(r * b, m);
      CongMul((r * b) % m, r * b, x, q, m);
      MulAssoc(r, b, q);
      CongTrans((r * b) % m * x, r * (b * q), target, m);
    } else {
      CongScale(r, x, q, m);
      CongTrans(r * x, r * q, target, m);
    }
  }

  lemma PowHalf(b: int, e: nat)
    requires e > 0
    ensures Pow(b, e) == if e % 2 == 1 then b * Pow(b * b, e / 2) else Pow(b * b, e / 2)
  {
    var h := e / 2;
    PowProduct(b, b, h);
    PowAdd(b, h, h);
    assert e % 2 == 0 ==> e == h + h;
    assert e % 2 == 1 ==> e - 1 == h + h && Pow(b, e) == b * Pow(b, h + h);
  }

  // ----- The permutation -----

  const SBOX_EXPONENT: nat := 7
  const HALF_FULL: nat := 4
  const PARTIAL_ROUNDS: nat := 22
  const TOTAL_ROUNDS: nat := 30

  const ROUND_CONSTANTS: seq<seq<U64>> :=
    [[0x3aaed6e034fef709, 0x2da65cf597408562, 0xa7aace2d982bcb6a, 0xbc121600d772d547],
     [0x1b114ef06f74865a, 0x58ab3321665a38c2, 0xec6e45fef040c842, 0x9dc72efe8eb36d95],
     [0x69309d63ad1865c9, 0x71a7ff71644d8e7e, 0x05a8d7027238a428, 0xe2f309a35adf55a3],
     [0xaab6a20f988e3a49, 0xb2a1e4506874ebf9, 0x31aca8878a23c40d, 0x9a67297d522172c7],
     [0xd63b2a0d592f9779, 0x3a610b62597d4252, 0xc35857316552ee9c, 0xeb7b4b8efcef4b6a],
     [0x1849a3e493848923, 0x6bfaacbb4ff1db98, 0x3eb14cd17d192d03, 0x133e95099396da3c],
     [0xb8735f19f764cf4c, 0x3a15f2bcac9cf32e, 0xb5f0c9217f35cf57, 0x1fd04c544470eafd],
     [0xc8a2058487ac0285, 0x5e0be2f9eac6aad5, 0xee4fc2378b7c35f8, 0xeb8047e6be838132],
     [0x05543806b9d76ce9, 0x7fabcc72309725b2, 0xc7a3868a71fd4d8f, 0xd29015c3c417e4bb],
     [0x56b7c4440cc9e9c8, 0xd8b1c629e71bb164, 0xf4c0847ca9341ac4, 0x1f8546dc97cdba25],
     [0x3c56b447f4137881, 0x59b35f9c795255cf, 0x32e7ca296fe46732, 0x2cc294ad1a52a94d],
     [0x1060b200e2725944, 0x3ee35f5ee6a0f0cd, 0x71ba8842cf6a016f, 0x68060a2ffdce977d],
     [0x2f3e3d3e3b283902, 0x350bf8d978a3670f, 0xd0d9c23db3cbd8c5, 0x16f68724b6900378],
     [0x7c2bf4809b9782dd, 0x052af0b40e08c9d0, 0xd831fb83be48c0af, 0xe8a94bfb9464613e],
     [0x2c96a7d0898dbe1b, 0x38364d93a426bbd5, 0x2912a5153ed0ba7c, 0x0af0925d868358f2],
     [0x362cdcb4d9e7cc6e, 0x194a6b07ff7ae21d, 0x28dd53b3bcd5e851, 0x59fb7afb4bee528c],
     [0x4bd0360314bc46a0, 0x076257530c706d7a, 0x5b790519caf338c1, 0x454cdca868c6610c],
     [0x426ca38cca16970d, 0xc9555fe6efa48f9a, 0x23f18cd0ca651b3a, 0x12f6be2551a9ece4],
     [0x5d19cd85625e6cd4, 0x033f57ecb7f9988b, 0x51dbf1d36da0e24f, 0x3e077397f307b7d4],
     [0x96024145db4a13da, 0x2be4ba6bd810a850, 0xd49cface475c85eb, 0x54b101b103564356],
     [0x51daf7526c6d3721, 0x9e2c63ccadb3e457, 0x7574671c8831bd72, 0x593906603a027573],
     [0xbf978d0d430a1038, 0x16498e417fbda281, 0x3324b0966a2b5c61, 0xb565ea80a19f1465],
     [0xb1f1e0f1dfe67dc4, 0x069ee318d5037863, 0x025015c57735ec6d, 0x83ca2cb6afc9c0b5],
     [0x9aca0c65658045da, 0x32c72b854aa33f6a, 0x1b86c06c65e563e9, 0xd3b2e743605233c7],
     [0xde5453cdb5f6a3c1, 0x160c94d47b36ba4e, 0xc572402fa8c73cc1, 0x59231b2ee92c0409],
     [0x05b087175e09ee36, 0xb2e9c18902a18e06, 0x5846001972ba7da8, 0x6aebcd9abd529048],
     [0x2d3a03adc848eab1, 0x9b779ac00fbb85db, 0x4ebb1bbd83118149, 0x263f74ab9d87da4b],
     [0x8a7fcc51f6fec3c8, 0x879bdb1cb5d7d9a2, 0x812d6a0b9d0363e5, 0xad371d1acf8f155b],
     [0xb250667f5e91f0ba, 0x5c54378b048155dd, 0x0297d13f80000cb3, 0xf2abfe46670b1961],
     [0x4880f5bc96111cde, 0xe89150e848fa6bd6, 0x6e504d15b09e7e2e, 0xd02e8fc81d0b1a92]]

  const MATRIX_FULL: seq<seq<U64>> := [[5, 7, 1, 3], [3, 5, 7, 1], [1, 3, 5, 7], [7, 1, 3, 5]]

  const MAT_DIAG4_M_1: seq<U64> := [0, 1, 2, 3]

  /** Four canonical field elements. */
  datatype State = State(s0: int, s1: int, s2: int, s3: int)

  predicate Canonical(s: State) {
    0 <= s.s0 < P && 0 <= s.s1 < P && 0 <= s.s2 < P && 0 <= s.s3 < P
  }

  /** c0*a + c1*b + c2*c + c3*d. */
  function Dot(c0: int, c1: int, c2: int, c3: int, a: int, b: int, c: int, d: int): int {
    c0 * a + c1 * b + c2 * c + c3 * d
  }

  /** Multiplication by the circulant matrix with first row (c0, c1, c2, c3), modulo P. */
  function Circulant(c0: int, c1: int, c2: int, c3: int, s: State): (r: State)
    ensures Canonical(r)
  {
    var y0 := Dot(c0, c1, c2, c3, s.s0, s.s1, s.s2, s.s3);
    var y1 := Dot(c0, c1, c2, c3, s.s1, s.s2, s.s3, s.s0);
    var y2 := Dot(c0, c1, c2, c3, s.s2, s.s3, s.s0, s.s1);
    var y3 := Dot(c0, c1, c2, c3, s.s3, s.s0, s.s1, s.s2);
    CongMod(y0, P);
    CongMod(y1, P);
    CongMod(y2, P);
    CongMod(y3, P);
    State(y0 % P, y1 % P, y2 % P, y3 % P)
  }

  /** M_E = circ(5, 7, 1, 3). */
  function FullLayer(s: State): State { Circulant(5, 7, 1, 3, s) }

  /** The inverse of M_E modulo P; det M_E = -2^11. */
  function FullLayerInverse(s: State): State {
    Circulant(18158513693329981441, 18158513693329981441, 2017612632592220160, 15852670684653158401, s)
  }

  lemma DotMod(c0: int, c1: int, c2: int, c3: int, a: int, b: int, c: int, d: int, m: int)
    requires m > 0
    ensures Cong(Dot(c0, c1, c2, c3, a % m, b % m, c % m, d % m), Dot(c0, c1, c2, c3, a, b, c, d), m)
  {
    CongMod(a, m);
    CongMod(b, m);
    CongMod(c, m);
    CongMod(d, m);
    CongScale(c0, a % m, a, m);
    CongScale(c1, b % m, b, m);
    CongScale(c2, c % m, c, m);
    CongScale(c3, d % m, d, m);
    CongAdd(c0 * (a % m), c0 * a, c1 * (b % m), c1 * b, m);
    CongAdd(c0 * (a % m) + c1 * (b % m), c0 * a + c1 * b, c2 * (c % m), c2 * c, m);
    CongAdd(c0 * (a % m) + c1 * (b % m) + c2 * (c % m), c0 * a + c1 * b + c2 * c, c3 * (d % m), c3 * d, m);
  }

  /** One row of (inverse of M_E) * M_E, on the rotations of (a, b, c, d). */
  lemma InverseRow(a: int, b: int, c: int, d: int)
    requires 0 <= a < P
    ensures Dot(18158513693329981441, 18158513693329981441, 2017612632592220160, 15852670684653158401,
                Dot(5, 7, 1, 3, a, b, c, d) % P, Dot(5, 7, 1, 3, b, c, d, a) % P,
                Dot(5, 7, 1, 3, c, d, a, b) % P, Dot(5, 7, 1, 3, d, a, b, c) % P) % P == a
  {
    var y0, y1 := Dot(5, 7, 1, 3, a, b, c, d), Dot(5, 7, 1, 3, b, c, d, a);
    var y2, y3 := Dot(5, 7, 1, 3, c, d, a, b), Dot(5, 7, 1, 3, d, a, b, c);
    DotMod(18158513693329981441, 18158513693329981441, 2017612632592220160, 15852670684653158401, y0, y1, y2, y3, P);
    var z := Dot(18158513693329981441, 18158513693329981441, 2017612632592220160, 15852670684653158401, y0, y1, y2, y3);
    CongIntro(z, a, 14 * a + 13 * b + 11 * c + 9 * d, P);
    ModSmall(a, P);
  }

  /** One row of M_E * (inverse of M_E). */
  lemma ForwardRow(a: int, b: int, c: int, d: int)
    requires 0 <= a < P
    ensures var u, v, w := 18158513693329981441, 2017612632592220160, 15852670684653158401;
      Dot(5, 7, 1, 3, Dot(u, u, v, w, a, b, c, d) % P, Dot(u, u, v, w, b, c, d, a) % P,
                      Dot(u, u, v, w, c, d, a, b) % P, Dot(u, u, v, w, d, a, b, c) % P) % P == a
  {
    var u, v, w := 18158513693329981441, 2017612632592220160, 15852670684653158401;
    var y0, y1 := Dot(u, u, v, w, a, b, c, d), Dot(u, u, v, w, b, c, d, a);
    var y2, y3 := Dot(u, u, v, w, c, d, a, b), Dot(u, u, v, w, d, a, b, c);
    DotMod(5, 7, 1, 3, y0, y1, y2, y3, P);
    CongIntro(Dot(5, 7, 1, 3, y0, y1, y2, y3), a, 14 * a + 13 * b + 11 * c + 9 * d, P);
    ModSmall(a, P);
  }

  lemma FullLayerBijective(s: State)
    requires Canonical(s)
    ensures FullLayerInverse(FullLayer(s)) == s && FullLayer(FullLayerInverse(s)) == s
  {
    hide Dot;
    InverseRow(s.s0, s.s1, s.s2, s.s3);
    InverseRow(s.s1, s.s2, s.s3, s.s0);
    InverseRow(s.s2, s.s3, s.s0, s.s1);
    InverseRow(s.s3, s.s0, s.s1, s.s2);
    ForwardRow(s.s0, s.s1, s.s2, s.s3);
    ForwardRow(s.s1, s.s2, s.s3, s.s0);
    ForwardRow(s.s2, s.s3, s.s0, s.s1);
    ForwardRow(s.s3, s.s0, s.s1, s.s2);
  }

  /** M_I: the sum of the state plus diag(0, 1, 2, 3). */
  function PartialLayer(s: State): (r: State)
    ensures Canonical(r)
  {
    var sum := s.s0 + s.s1 + s.s2 + s.s3;
    CongMod(sum, P);
    CongMod(sum + s.s1, P);
    CongMod(sum + 2 * s.s2, P);
    CongMod(sum + 3 * s.s3, P);
    State(sum % P, (sum + s.s1) % P, (sum + 2 * s.s2) % P, (sum + 3 * s.s3) % P)
  }

  const HALF: int := 9223372034707292161
  const THIRD: int := 12297829379609722881

  /** The inverse of M_I modulo P; det M_I = 6. */
  function PartialLayerInverse(s: State): (r: State)
    ensures Canonical(r)
  {
    var t1, t2, t3 := s.s1 - s.s0, HALF * (s.s2 - s.s0), THIRD * (s.s3 - s.s0);
    CongMod(s.s0 - t1 - t2 - t3, P);
    CongMod(t1, P);
    CongMod(t2, P);
    CongMod(t3, P);
    State((s.s0 - t1 - t2 - t3) % P, t1 % P, t2 % P, t3 % P)
  }

  lemma SumCong(a: int, a': int, b: int, b': int, c: int, c': int, d: int, d': int, m: int)
    requires m > 0 && Cong(a, a', m) && Cong(b, b', m) && Cong(c, c', m) && Cong(d, d', m)
    ensures Cong(a + b + c + d, a' + b' + c' + d', m) && Cong(a - b - c - d, a' - b' - c' - d', m)
  {
    CongAdd(a, a', b, b', m);
    CongAdd(a + b, a' + b', c, c', m);
    CongAdd(a + b + c, a' + b' + c', d, d', m);
    CongAdd(a - b, a' - b', c, c', m);
    CongAdd(a - b - c, a' - b' - c', d, d', m);
  }

  lemma DifferenceTimes(k: int, x: int, sum: int, inv: int, m: int)
    requires m > 0 && Cong(k * inv, 1, m)
    ensures Cong(inv * ((sum + k * x) % m - sum % m), x, m)
  {
    CongMod(sum + k * x, m);
    CongMod(sum, m);
    CongAdd((sum + k * x) % m, sum + k * x, sum % m, sum, m);
    CongScale(inv, (sum + k * x) % m - sum % m, k * x, m);
    CongMul(k * inv, 1, x, x, m);
    assert inv * (k * x) == (k * inv) * x;
  }

  lemma TimesInverse(k: int, inv: int, x: int, base: int, sum: int, m: int)
    requires m > 0 && Cong(k * inv, 1, m) && Cong(sum, base, m)
    ensures Cong(sum + k * ((inv * (x - base)) % m), x, m)
  {
    var t := inv * (x - base);
    CongMod(t, m);
    CongScale(k, t % m, t, m);
    CongMul(k * inv, 1, x - base, x - base, m);
    assert k * t == (k * inv) * (x - base);
    CongAdd(sum, base, k * (t % m), x - base, m);
  }

  lemma SumOfParts(a: int, t1: int, t2: int, t3: int, m: int)
    requires m > 0
    ensures Cong((a - t1 - t2 - t3) % m + t1 % m + t2 % m + t3 % m, a, m)
  {
    CongMod(a - t1 - t2 - t3, m);
    CongMod(t1, m);
    CongMod(t2, m);
    CongMod(t3, m);
    SumCong((a - t1 - t2 - t3) % m, a - t1 - t2 - t3, t1 % m, t1, t2 % m, t2, t3 % m, t3, m);
  }

  lemma CanonicalValue(x: int, a: int, m: int)
    requires 0 <= a < m && Cong(x, a, m)
    ensures x % m == a
  {
    ModSmall(a, m);
  }

  lemma Difference(x: int, sum: int, m: int)
    requires m > 0
    ensures Cong((sum + x) % m - sum % m, x, m)
  {
    CongMod(sum + x, m);
    CongMod(sum, m);
    CongAdd((sum + x) % m, sum + x, sum % m, sum, m);
  }

  lemma AddDifference(x: int, base: int, sum: int, m: int)
    requires m > 0 && Cong(sum, base, m)
    ensures Cong(sum + (x - base) % m, x, m)
  {
    CongMod(x - base, m);
    CongAdd(sum, base, (x - base) % m, x - base, m);
  }

  /** The image of (a, b, c, d) under M_I, modulo m. */
  predicate PartialImage(a: int, b: int, c: int, d: int, y0: int, y1: int, y2: int, y3: int, m: int)
    requires m > 0
  {
    var sum := a + b + c + d;
    y0 == sum % m && y1 == (sum + b) % m && y2 == (sum + 2 * c) % m && y3 == (sum + 3 * d) % m
  }

  /** The image of (y0, y1, y2, y3) under the inverse of M_I, h and t being the inverses of 2 and 3. */
  predicate PartialPreimage(y0: int, y1: int, y2: int, y3: int, a: int, b: int, c: int, d: int, h: int, t: int, m: int)
    requires m > 0
  {
    && a == (y0 - (y1 - y0) - h * (y2 - y0) - t * (y3 - y0)) % m
    && b == (y1 - y0) % m && c == (h * (y2 - y0)) % m && d == (t * (y3 - y0)) % m
  }

  lemma PartialUndo(a: int, b: int, c: int, d: int, y0: int, y1: int, y2: int, y3: int, h: int, t: int, m: int)
    requires 0 <= a < m && 0 <= b < m && 0 <= c < m && 0 <= d < m
    requires Cong(2 * h, 1, m) && Cong(3 * t, 1, m)
    requires PartialImage(a, b, c, d, y0, y1, y2, y3, m)
    ensures PartialPreimage(y0, y1, y2, y3, a, b, c, d, h, t, m)
  {
    var sum := a + b + c + d;
    assert Cong(y1 - y0, b, m) by {
      Difference(b, sum, m);
    }
    assert Cong(h * (y2 - y0), c, m) by {
      DifferenceTimes(2, c, sum, h, m);
    }
    assert Cong(t * (y3 - y0), d, m) by {
      DifferenceTimes(3, d, sum, t, m);
    }
    UndoFirst(a, b, c, d, y0, y1 - y0, h * (y2 - y0), t * (y3 - y0), m);
    CanonicalValue(y1 - y0, b, m);
    CanonicalValue(h * (y2 - y0), c, m);
    CanonicalValue(t * (y3 - y0), d, m);
  }

  lemma UndoFirst(a: int, b: int, c: int, d: int, y0: int, u: int, v: int, w: int, m: int)
    requires 0 <= a < m && y0 == (a + b + c + d) % m && Cong(u, b, m) && Cong(v, c, m) && Cong(w, d, m)
    ensures a == (y0 - u - v - w) % m
  {
    CongMod(a + b + c + d, m);
    SumCong(y0, a + b + c + d, u, b, v, c, w, d, m);
    CanonicalValue(y0 - u - v - w, a, m);
  }

  lemma PartialRedo(y0: int, y1: int, y2: int, y3: int, a: int, b: int, c: int, d: int, h: int, t: int, m: int)
    requires 0 <= y0 < m && 0 <= y1 < m && 0 <= y2 < m && 0 <= y3 < m
    requires Cong(2 * h, 1, m) && Cong(3 * t, 1, m)
    requires PartialPreimage(y0, y1, y2, y3, a, b, c, d, h, t, m)
    ensures PartialImage(a, b, c, d, y0, y1, y2, y3, m)
  {
    var sum := a + b + c + d;
    assert Cong(sum, y0, m) by {
      SumOfParts(y0, y1 - y0, h * (y2 - y0), t * (y3 - y0), m);
    }
    CanonicalValue(sum, y0, m);
    assert y1 == (sum + b) % m by {
      AddDifference(y1, y0, sum, m);
      CanonicalValue(sum + b, y1, m);
    }
    assert y2 == (sum + 2 * c) % m by {
      TimesInverse(2, h, y2, y0, sum, m);
      CanonicalValue(sum + 2 * c, y2, m);
    }
    assert y3 == (sum + 3 * d) % m by {
      TimesInverse(3, t, y3, y0, sum, m);
      CanonicalValue(sum + 3 * d, y3, m);
    }
  }

  lemma InverseConstants()
    ensures Cong(2 * HALF, 1, P) && Cong(3 * THIRD, 1, P)
  {
    ModSmall(1, P);
    DivModUnique(2 * HALF, 1, 1, P);
    DivModUnique(3 * THIRD, 2, 1, P);
  }

  lemma PartialLayerImage(s: State)
    ensures var y := PartialLayer(s); PartialImage(s.s0, s.s1, s.s2, s.s3, y.s0, y.s1, y.s2, y.s3, P)
  {
  }

  lemma PartialLayerPreimage(y: State)
    ensures var s := PartialLayerInverse(y);
      PartialPreimage(y.s0, y.s1, y.s2, y.s3, s.s0, s.s1, s.s2, s.s3, HALF, THIRD, P)
  {
  }

  lemma ImageUnique(s: State, y: State)
    requires PartialImage(s.s0, s.s1, s.s2, s.s3, y.s0, y.s1, y.s2, y.s3, P)
    ensures PartialLayer(s) == y
  {
  }

  lemma PreimageUnique(y: State, s: State)
    requires PartialPreimage(y.s0, y.s1, y.s2, y.s3, s.s0, s.s1, s.s2, s.s3, HALF, THIRD, P)
    ensures PartialLayerInverse(y) == s
  {
  }

  lemma PartialLayerBijective(s: State)
    requires Canonical(s)
    ensures PartialLayerInverse(PartialLayer(s)) == s && PartialLayer(PartialLayerInverse(s)) == s
  {
    hide PartialImage, PartialPreimage, PartialLayer, PartialLayerInverse;
    InverseConstants();
    var y, x := PartialLayer(s), PartialLayerInverse(s);
    PartialLayerImage(s);
    PartialUndo(s.s0, s.s1, s.s2, s.s3, y.s0, y.s1, y.s2, y.s3, HALF, THIRD, P);
    PreimageUnique(y, s);
    PartialLayerPreimage(s);
    PartialRedo(s.s0, s.s1, s.s2, s.s3, x.s0, x.s1, x.s2, x.s3, HALF, THIRD, P);
    ImageUnique(x, s);
  }

  // ----- S-box -----

  /** x^7 modulo P. */
  function Sbox(x: int): (r: int)
    ensures 0 <= r < P
  {
    CongMod(Pow(x, SBOX_EXPONENT), P);
    Pow(x, SBOX_EXPONENT) % P
  }

  /** The S-box is the seventh power. */
  lemma SboxIsSeventh(x: int)
    ensures Sbox(x) == (x * x * x * x * x * x * x) % P
  {
    SeventhPower(x, SBOX_EXPONENT);
  }

  lemma SeventhPower(x: int, n: nat)
    requires n == 7
    ensures Pow(x, n) == x * x * x * x * x * x * x
  {
    PowUnfold(x, 0);
    PowUnfold(x, 1);
    PowUnfold(x, 2);
    PowUnfold(x, 3);
    PowUnfold(x, 4);
    PowUnfold(x, 5);
    PowUnfold(x, 6);
  }

  lemma PowUnfold(x: int, n: nat)
    ensures Pow(x, 0) == 1 && Pow(x, n + 1) == Pow(x, n) * x
  {
  }

  /** 1/7 modulo P - 1. */
  const INVERSE_EXPONENT: nat := 10540996611094048183

  function SboxInverse(x: int): (r: int)
    ensures 0 <= r < P
  {
    CongMod(Pow(x, INVERSE_EXPONENT), P);
    Pow(x, INVERSE_EXPONENT) % P
  }

  lemma FermatPower(x: int, k: nat, p: int)
    requires Prime(p) && 0 <= x < p
    ensures (p - 1) * k >= 0 && Cong(x * Pow(x, (p - 1) * k), x, p)
  {
    PowMul(x, p - 1, k);
    if x > 0 {
      ModSmall(x, p);
      Fermat(x, p);
      PowCong(Pow(x, p - 1), 1, k, p);
      PowOne(k);
      CongScale(x, Pow(x, (p - 1) * k), 1, p);
    }
  }

  /** Raising to e and then to f is the identity on [0, p) when e*f = 1 modulo p - 1. */
  lemma PowerRoundTrip(x: int, e: nat, f: nat, k: nat, p: int)
    requires Prime(p) && 0 <= x < p && e * f == 1 + (p - 1) * k
    ensures Pow(Pow(x, e) % p, f) % p == x
  {
    hide Prime;
    CongMod(Pow(x, e), p);
    PowCong(Pow(x, e) % p, Pow(x, e), f, p);
    PowMul(x, e, f);
    FermatPower(x, k, p);
    PowSucc(x, (p - 1) * k);
    ModSmall(x, p);
  }

  lemma PowSucc(x: int, n: nat)
    ensures Pow(x, 1 + n) == x * Pow(x, n)
  {
  }

  lemma SboxBijective(x: int)
    requires 0 <= x < P
    ensures SboxInverse(Sbox(x)) == x && Sbox(SboxInverse(x)) == x
  {
    hide Pow;
    GoldilocksPrime();
    PowerRoundTrip(x, SBOX_EXPONENT, INVERSE_EXPONENT, 4, P);
    PowerRoundTrip(x, INVERSE_EXPONENT, SBOX_EXPONENT, 4, P);
  }

  // ----- Rounds -----

  lemma ConstantsCanonical(r: nat)
    requires r < TOTAL_ROUNDS
    ensures |ROUND_CONSTANTS| == TOTAL_ROUNDS && |ROUND_CONSTANTS[r]| == 4
    ensures ROUND_CONSTANTS[r][0] < P && ROUND_CONSTANTS[r][1] < P
    ensures ROUND_CONSTANTS[r][2] < P && ROUND_CONSTANTS[r][3] < P
  {
  }

  /** Round r's constants as a state. */
  function Constants(r: nat): (c: State)
    requires r < TOTAL_ROUNDS
    ensures Canonical(c)
  {
    ConstantsCanonical(r);
    State(ROUND_CONSTANTS[r][0], ROUND_CONSTANTS[r][1], ROUND_CONSTANTS[r][2], ROUND_CONSTANTS[r][3])
  }

  function Plus(s: State, c: State): (r: State)
    ensures Canonical(r)
  {
    CongMod(s.s0 + c.s0, P);
    CongMod(s.s1 + c.s1, P);
    CongMod(s.s2 + c.s2, P);
    CongMod(s.s3 + c.s3, P);
    State((s.s0 + c.s0) % P, (s.s1 + c.s1) % P, (s.s2 + c.s2) % P, (s.s3 + c.s3) % P)
  }

  function Minus(s: State, c: State): (r: State)
    ensures Canonical(r)
  {
    CongMod(s.s0 - c.s0, P);
    CongMod(s.s1 - c.s1, P);
    CongMod(s.s2 - c.s2, P);
    CongMod(s.s3 - c.s3, P);
    State((s.s0 - c.s0) % P, (s.s1 - c.s1) % P, (s.s2 - c.s2) % P, (s.s3 - c.s3) % P)
  }

  lemma AddSubMod(a: int, c: int, m: int)
    requires 0 <= a < m
    ensures ((a + c) % m - c) % m == a && ((a - c) % m + c) % m == a
  {
    CongMod(a + c, m);
    CongAdd((a + c) % m, a + c, c, c, m);
    CongMod(a - c, m);
    CongAdd((a - c) % m, a - c, c, c, m);
    ModSmall(a, m);
  }

  lemma PlusMinus(s: State, c: State)
    requires Canonical(s)
    ensures Minus(Plus(s, c), c) == s && Plus(Minus(s, c), c) == s
  {
    AddSubMod(s.s0, c.s0, P);
    AddSubMod(s.s1, c.s1, P);
    AddSubMod(s.s2, c.s2, P);
    AddSubMod(s.s3, c.s3, P);
  }

  predicate IsFullRound(r: nat) { r < HALF_FULL || r >= HALF_FULL + PARTIAL_ROUNDS }

  /** The nonlinear layer of round r: every word in a full round, the first word in a partial one. */
  function SboxLayer(r: nat, s: State): State {
    if IsFullRound(r) then State(Sbox(s.s0), Sbox(s.s1), Sbox(s.s2), Sbox(s.s3)) else s.(s0 := Sbox(s.s0))
  }

  function SboxLayerInverse(r: nat, s: State): State {
    if IsFullRound(r) then State(SboxInverse(s.s0), SboxInverse(s.s1), SboxInverse(s.s2), SboxInverse(s.s3))
    else s.(s0 := SboxInverse(s.s0))
  }

  function LinearLayer(r: nat, s: State): (t: State)
    ensures Canonical(t)
  {
    if IsFullRound(r) then FullLayer(s) else PartialLayer(s)
  }

  function LinearLayerInverse(r: nat, s: State): (t: State)
    ensures Canonical(t)
  {
    if IsFullRound(r) then FullLayerInverse(s) else PartialLayerInverse(s)
  }

  function Round(r: nat, s: State): (t: State)
    requires r < TOTAL_ROUNDS
    ensures Canonical(t)
  {
    LinearLayer(r, SboxLayer(r, Plus(s, Constants(r))))
  }

  function RoundInverse(r: nat, s: State): (t: State)
    requires r < TOTAL_ROUNDS
    ensures Canonical(t)
  {
    Minus(SboxLayerInverse(r, LinearLayerInverse(r, s)), Constants(r))
  }

  lemma SboxLayerBijective(r: nat, s: State)
    requires Canonical(s)
    ensures Canonical(SboxLayer(r, s)) && Canonical(SboxLayerInverse(r, s))
    ensures SboxLayerInverse(r, SboxLayer(r, s)) == s && SboxLayer(r, SboxLayerInverse(r, s)) == s
  {
    hide Sbox, SboxInverse;
    SboxBijective(s.s0);
    SboxBijective(s.s1);
    SboxBijective(s.s2);
    SboxBijective(s.s3);
  }

  lemma RoundBijective(r: nat, s: State)
    requires r < TOTAL_ROUNDS && Canonical(s)
    ensures RoundInverse(r, Round(r, s)) == s && Round(r, RoundInverse(r, s)) == s
  {
    hide Sbox, SboxInverse, SboxLayer, SboxLayerInverse, Plus, Minus, Constants, FullLayer, FullLayerInverse,
      PartialLayer, PartialLayerInverse;
    var c := Constants(r);
    var a := Plus(s, c);
    var b := SboxLayer(r, a);
    PlusMinus(s, c);
    SboxLayerBijective(r, a);
    FullLayerBijective(b);
    PartialLayerBijective(b);
    FullLayerBijective(s);
    PartialLayerBijective(s);
    var u := LinearLayerInverse(r, s);
    SboxLayerBijective(r, u);
    PlusMinus(SboxLayerInverse(r, u), c);
  }

  /** The first r rounds. */
  function Rounds(r: nat, s: State): State
    requires r <= TOTAL_ROUNDS
  {
    if r == 0 then s else Round(r - 1, Rounds(r - 1, s))
  }

  /** Undoing rounds r-1 down to 0. */
  function UndoRounds(r: nat, s: State): State
    requires r <= TOTAL_ROUNDS
    decreases r
  {
    if r == 0 then s else UndoRounds(r - 1, RoundInverse(r - 1, s))
  }

  lemma {:induction false} RoundsBijective(r: nat, s: State)
    requires r <= TOTAL_ROUNDS && Canonical(s)
    ensures Canonical(Rounds(r, s)) && Canonical(UndoRounds(r, s))
    ensures UndoRounds(r, Rounds(r, s)) == s && Rounds(r, UndoRounds(r, s)) == s
    decreases r
  {
    hide Round, RoundInverse;
    if r > 0 {
      RoundsBijective(r - 1, s);
      RoundBijective(r - 1, Rounds(r - 1, s));
      RoundBijective(r - 1, s);
      RoundsBijective(r - 1, RoundInverse(r - 1, s));
    }
  }

  /** poseidon2_permutation as a function: M_E, then the thirty rounds. */
  function Permutation(s: State): State {
    Rounds(TOTAL_ROUNDS, FullLayer(s))
  }

  function PermutationInverse(s: State): State {
    FullLayerInverse(UndoRounds(TOTAL_ROUNDS, s))
  }

  /** poseidon2_permutation is a bijection on [0, P)^4, with canonical outputs. */
  lemma PermutationBijective(s: State)
    requires Canonical(s)
    ensures Canonical(Permutation(s)) && Canonical(PermutationInverse(s))
    ensures PermutationInverse(Permutation(s)) == s
    ensures Permutation(PermutationInverse(s)) == s
  {
    hide Rounds, UndoRounds, Circulant;
    FullLayerBijective(s);
    RoundsBijective(TOTAL_ROUNDS, FullLayer(s));
    RoundsBijective(TOTAL_ROUNDS, s);
    FullLayerBijective(UndoRounds(TOTAL_ROUNDS, s));
  }

  // ----- The permutation as it is computed -----

  predicate IsState(a: seq<U64>) { |a| == 4 }

  function FromSeq(a: seq<U64>): State
    requires IsState(a)
  {
    State(a[0], a[1], a[2], a[3])
  }

  function PartialDot(row: seq<U64>, a: seq<U64>, n: nat): int
    requires |row| == 4 && |a| == 4 && n <= 4
  {
    if n == 0 then 0 else PartialDot(row, a, n - 1) + (row[n - 1] as int) * (a[n - 1] as int)
  }

  lemma AccumulateStep(acc: U64, total: int, c: U64, x: U64)
    requires acc < P && acc == total % P
    ensures FieldAdd(acc, FieldMul(c, x)) == (total + c * x) % P < P
  {
    CongMod(c * x, P);
    CongMod(total, P);
    FieldAddCanonical(acc, FieldMul(c, x));
    CongAdd(acc, total, (c * x) % P, c * x, P);
    CongMod(total + c * x, P);
  }

  /** The inner loop of mds_multiply_full for one row. */
  method RowTimes(row: seq<U64>, a: seq<U64>) returns (acc: U64)
    requires |row| == 4 && IsState(a)
    ensures acc == Dot(row[0], row[1], row[2], row[3], a[0], a[1], a[2], a[3]) % P
  {
    hide FieldAdd, FieldMul;
    acc := 0;
    ModSmall(0, P);
    for j := 0 to 4
      invariant acc < P && acc == PartialDot(row, a, j) % P
    {
      AccumulateStep(acc, PartialDot(row, a, j), row[j], a[j]);
      acc := FieldAdd(acc, FieldMul(row[j], a[j]));
    }
    DotUnrolled(row, a);
  }

  lemma DotUnrolled(row: seq<U64>, a: seq<U64>)
    requires |row| == 4 && IsState(a)
    ensures PartialDot(row, a, 4) == Dot(row[0], row[1], row[2], row[3], a[0], a[1], a[2], a[3])
  {
    assert PartialDot(row, a, 0) == 0;
    assert PartialDot(row, a, 1) == PartialDot(row, a, 0) + (row[0] as int) * (a[0] as int);
    assert PartialDot(row, a, 2) == PartialDot(row, a, 1) + (row[1] as int) * (a[1] as int);
    assert PartialDot(row, a, 3) == PartialDot(row, a, 2) + (row[2] as int) * (a[2] as int);
    assert PartialDot(row, a, 4) == PartialDot(row, a, 3) + (row[3] as int) * (a[3] as int);
  }

  /** mds_multiply_full, on any four machine words. */
  method MdsMultiplyFull(a: seq<U64>) returns (result: seq<U64>)
    requires IsState(a)
    ensures IsState(result) && FromSeq(result) == FullLayer(FromSeq(a))
  {
    result := [];
    for i := 0 to 4
      invariant |result| == i
      invariant i > 0 ==> result[0] == Dot(5, 7, 1, 3, a[0], a[1], a[2], a[3]) % P
      invariant i > 1 ==> result[1] == Dot(3, 5, 7, 1, a[0], a[1], a[2], a[3]) % P
      invariant i > 2 ==> result[2] == Dot(1, 3, 5, 7, a[0], a[1], a[2], a[3]) % P
      invariant i > 3 ==> result[3] == Dot(7, 1, 3, 5, a[0], a[1], a[2], a[3]) % P
    {
      var acc := RowTimes(MATRIX_FULL[i], a);
      result := result + [acc];
    }
  }

  /** The running field_add of the first n words. */
  function WordSum(a: seq<U64>, n: nat): U64
    requires n <= |a|
  {
    if n == 0 then 0 else FieldAdd(WordSum(a, n - 1), a[n - 1])
  }

  /** mds_multiply_partial, on any four machine words; on canonical ones it multiplies by M_I. */
  method MdsMultiplyPartial(a: seq<U64>) returns (result: seq<U64>)
    requires IsState(a)
    ensures IsState(result)
    ensures forall i :: 0 <= i < 4 ==> result[i] == FieldAdd(WordSum(a, 4), FieldMul(a[i], MAT_DIAG4_M_1[i]))
    ensures Canonical(FromSeq(a)) ==> FromSeq(result) == PartialLayer(FromSeq(a))
  {
    hide FieldAdd, FieldMul;
    var sum: U64 := 0;
    for j := 0 to 4
      invariant sum == WordSum(a, j)
    {
      sum := FieldAdd(sum, a[j]);
    }
    result := [];
    for i := 0 to 4
      invariant |result| == i
      invariant forall k :: 0 <= k < i ==> result[k] == FieldAdd(sum, FieldMul(a[k], MAT_DIAG4_M_1[k]))
    {
      result := result + [FieldAdd(sum, FieldMul(a[i], MAT_DIAG4_M_1[i]))];
    }
    if Canonical(FromSeq(a)) {
      PartialExact(a, result);
    }
  }

  lemma PartialExact(a: seq<U64>, result: seq<U64>)
    requires IsState(a) && IsState(result) && Canonical(FromSeq(a))
    requires forall i :: 0 <= i < 4 ==> result[i] == FieldAdd(WordSum(a, 4), FieldMul(a[i], MAT_DIAG4_M_1[i]))
    ensures FromSeq(result) == PartialLayer(FromSeq(a))
  {
    hide FieldAdd, FieldMul, WordSum;
    hide PartialLayer;
    var total := (a[0] as int) + (a[1] as int) + (a[2] as int) + (a[3] as int);
    PartialWords(a, total);
    WordSumExact(a, 4);
    SumUnrolled(a);
    AccumulateStep(WordSum(a, 4), total, a[0], 0);
    AccumulateStep(WordSum(a, 4), total, a[1], 1);
    AccumulateStep(WordSum(a, 4), total, a[2], 2);
    AccumulateStep(WordSum(a, 4), total, a[3], 3);
  }

  lemma PartialWords(a: seq<U64>, total: int)
    requires IsState(a) && total == (a[0] as int) + (a[1] as int) + (a[2] as int) + (a[3] as int)
    ensures PartialLayer(FromSeq(a))
         == State((total + (a[0] as int) * 0) % P, (total + (a[1] as int) * 1) % P,
                  (total + (a[2] as int) * 2) % P, (total + (a[3] as int) * 3) % P)
  {
  }

  lemma {:induction false} WordSumExact(a: seq<U64>, n: nat)
    requires IsState(a) && Canonical(FromSeq(a)) && n <= 4
    ensures WordSum(a, n) < P && WordSum(a, n) == SumUpTo(a, n) % P
    decreases n
  {
    hide FieldAdd;
    ModSmall(0, P);
    if n > 0 {
      WordSumExact(a, n - 1);
      SumStep(WordSum(a, n - 1), SumUpTo(a, n - 1), a[n - 1]);
    }
  }

  /** On words that are not canonical it may not: the second carry out of three such words is lost. */
  lemma PartialNeedsCanonical()
    ensures !Cong(WordSum([0xFFFF_FFFF_0000_0000, U64_MAX, U64_MAX, 0], 3), 0xFFFF_FFFF_0000_0000 + U64_MAX + U64_MAX,
                  P)
  {
    var a: seq<U64> := [0xFFFF_FFFF_0000_0000, U64_MAX, U64_MAX, 0];
    assert WordSum(a, 1) == 0xFFFF_FFFF_0000_0000;
    assert WordSum(a, 2) == 0xFFFF_FFFF_FFFF_FFFE;
  }

  function SumUpTo(a: seq<U64>, n: nat): int
    requires n <= |a|
  {
    if n == 0 then 0 else SumUpTo(a, n - 1) + a[n - 1]
  }

  lemma SumUnrolled(a: seq<U64>)
    requires IsState(a)
    ensures SumUpTo(a, 4) == (a[0] as int) + (a[1] as int) + (a[2] as int) + (a[3] as int)
  {
    assert SumUpTo(a, 0) == 0;
    assert SumUpTo(a, 1) == SumUpTo(a, 0) + (a[0] as int);
    assert SumUpTo(a, 2) == SumUpTo(a, 1) + (a[1] as int);
    assert SumUpTo(a, 3) == SumUpTo(a, 2) + (a[2] as int);
  }

  lemma SumStep(sum: U64, total: int, x: U64)
    requires sum < P && x < P && sum == total % P
    ensures FieldAdd(sum, x) == (total + x) % P < P
  {
    CongMod(total, P);
    FieldAddCanonical(sum, x);
    CongAdd(sum, total, x, x, P);
    CongMod(total + x, P);
  }

  /** The first loop of a round: add the round's constants in place. */
  method AddConstants(state: array<U64>, r: nat)
    requires state.Length == 4 && Canonical(FromSeq(state[..])) && r < TOTAL_ROUNDS
    modifies state
    ensures FromSeq(state[..]) == Plus(old(FromSeq(state[..])), Constants(r))
  {
    hide FieldAdd;
    ghost var before := state[..];
    ConstantsCanonical(r);
    for i := 0 to 4
      invariant forall k :: i <= k < 4 ==> state[k] == before[k]
      invariant forall k :: 0 <= k < i ==> state[k] == (before[k] + ROUND_CONSTANTS[r][k]) % P
    {
      FieldAddCanonical(state[i], ROUND_CONSTANTS[r][i]);
      state[i] := FieldAdd(state[i], ROUND_CONSTANTS[r][i]);
    }
  }

  method Store(state: array<U64>, words: seq<U64>)
    requires state.Length == 4 && IsState(words)
    modifies state
    ensures state[..] == words
  {
    for i := 0 to 4
      invariant forall k :: 0 <= k < i ==> state[k] == words[k]
    {
      state[i] := words[i];
    }
  }

  method FullRound(state: array<U64>, r: nat)
    requires state.Length == 4 && Canonical(FromSeq(state[..])) && r < TOTAL_ROUNDS && IsFullRound(r)
    modifies state
    ensures FromSeq(state[..]) == Round(r, old(FromSeq(state[..])))
  {
    hide Pow, FullLayer, Plus;
    AddConstants(state, r);
    ghost var mid := state[..];
    for i := 0 to 4
      invariant forall k :: i <= k < 4 ==> state[k] == mid[k]
      invariant forall k :: 0 <= k < i ==> state[k] == Sbox(mid[k])
    {
      var y := FieldPow(state[i], SBOX_EXPONENT);
      state[i] := y;
    }
    var mixed := MdsMultiplyFull(state[..]);
    Store(state, mixed);
  }

  method PartialRound(state: array<U64>, r: nat)
    requires state.Length == 4 && Canonical(FromSeq(state[..])) && r < TOTAL_ROUNDS && !IsFullRound(r)
    modifies state
    ensures FromSeq(state[..]) == Round(r, old(FromSeq(state[..])))
  {
    hide Pow, PartialLayer, Plus;
    AddConstants(state, r);
    var y := FieldPow(state[0], SBOX_EXPONENT);
    state[0] := y;
    var mixed := MdsMultiplyPartial(state[..]);
    Store(state, mixed);
  }

  /** poseidon2_permutation, in place, on any four machine words. */
  method Permute(state: array<U64>)
    requires state.Length == 4
    modifies state
    ensures FromSeq(state[..]) == Permutation(old(FromSeq(state[..])))
    ensures Canonical(FromSeq(state[..]))
  {
    hide Round, Circulant;
    ghost var start := FullLayer(FromSeq(state[..]));
    var mixed := MdsMultiplyFull(state[..]);
    Store(state, mixed);
    for r := 0 to HALF_FULL
      invariant Canonical(FromSeq(state[..])) && FromSeq(state[..]) == Rounds(r, start)
    {
      FullRound(state, r);
    }
    for r := HALF_FULL to HALF_FULL + PARTIAL_ROUNDS
      invariant Canonical(FromSeq(state[..])) && FromSeq(state[..]) == Rounds(r, start)
    {
      PartialRound(state, r);
    }
    for r := HALF_FULL + PARTIAL_ROUNDS to TOTAL_ROUNDS
      invariant Canonical(FromSeq(state[..])) && FromSeq(state[..]) == Rounds(r, start)
    {
      FullRound(state, r);
    }
  }

  // ----- Sponge padding -----

  const RATE: nat := 3

  /** The words of the input, reduced into the field. */
  function ReducedWords(input: seq<U64>): (r: seq<U64>)
    ensures |r| == |input|
  {
    seq(|input|, i requires 0 <= i < |input| => FieldReduce(input[i]))
  }

  lemma ReducedWordsExact(input: seq<U64>)
    ensures forall i :: 0 <= i < |input| ==> ReducedWords(input)[i] == input[i] % P
  {
    hide FieldReduce;
    forall i | 0 <= i < |input|
      ensures ReducedWords(input)[i] == input[i] % P
    {
      FieldReduceExact(input[i]);
    }
  }

  /** The padded block sequence: a 1, zeros up to a multiple of the rate, and 1 added to the last word. */
  function Padded(input: seq<U64>): (r: seq<U64>)
    ensures |r| % RATE == 0 && |input| < |r| <= |input| + RATE
    ensures forall i :: 0 <= i < |input| ==> r[i] == input[i] % P
  {
    ReducedWordsExact(input);
    var base := ReducedWords(input);
    if |input| % RATE == 0 then base + [1, 0, 1]
    else if |input| % RATE == 1 then base + [1, 1]
    else base + [2]
  }

  /** The padding steps of Poseidon2Hasher::hash. */
  method Pad(input: seq<U64>) returns (padded: seq<U64>)
    ensures padded == Padded(input)
  {
    ghost var base := ReducedWords(input);
    padded := [];
    for i := 0 to |input|
      invariant padded == base[..i]
    {
      padded := padded + [FieldReduce(input[i])];
    }
    assert padded == base;
    padded := padded + [1];
    ghost var zeros: seq<U64> := [];
    while |padded| % RATE != 0
      invariant padded == base + [1] + zeros
      invariant |zeros| <= (2 - |base| % RATE) && forall k :: 0 <= k < |zeros| ==> zeros[k] == 0
      decreases 3 - |zeros|
    {
      padded := padded + [0];
      zeros := zeros + [0];
    }
    assert |zeros| == 2 - |base| % RATE;
    var last := |padded| - 1;
    FieldAddCanonical(padded[last], 1);
    padded := padded[last := FieldAdd(padded[last], 1)];
  }

  /** What follows the message: a 1, zeros to a multiple of three words, and 1 added to the last word. */
  lemma PaddingWords(a: seq<U64>)
    ensures var p, n := Padded(a), |a|;
      && (n % 3 == 0 ==> p[n..] == [1, 0, 1])
      && (n % 3 == 1 ==> p[n..] == [1, 1])
      && (n % 3 == 2 ==> p[n..] == [2])
  {
  }

  /** Equal padded sequences come from inputs of equal length that agree word for word modulo P; and conversely. */
  lemma PaddedInjective(a: seq<U64>, b: seq<U64>)
    ensures Padded(a) == Padded(b) <==> |a| == |b| && forall i :: 0 <= i < |a| ==> a[i] % P == b[i] % P
  {
    hide FieldReduce;
    var p, q := Padded(a), Padded(b);
    LengthFromPadding(a);
    LengthFromPadding(b);
    if |a| == |b| && forall i :: 0 <= i < |a| ==> a[i] % P == b[i] % P {
      PaddingWords(a);
      PaddingWords(b);
      assert p == p[..|a|] + p[|a|..] && q == q[..|a|] + q[|a|..];
      assert p[..|a|] == q[..|a|];
    }
    if p == q {
      forall i | 0 <= i < |a|
        ensures a[i] % P == b[i] % P
      {
        assert p[i] == a[i] % P && q[i] == b[i] % P;
      }
    }
  }

  /** The last two words of the padding reveal how many words precede it. */
  lemma LengthFromPadding(a: seq<U64>)
    ensures var p, n := Padded(a), |Padded(a)|;
      |a| == if p[n - 1] == 2 then n - 1 else if p[n - 2] == 1 then n - 2 else n - 3
  {
  }
}

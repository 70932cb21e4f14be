// Congruence arithmetic over the integers, for an arbitrary positive modulus.
//
// The library avoids reasoning about a particular modulus, so that the proofs
// about the Goldilocks field can be carried out by rewriting congruences.
module ModArith {

  /** a and b leave the same remainder modulo m. */
  predicate Cong(a: int, b: int, m: int)
    requires m > 0
  {
    a % m == b % m
  }

  /** A multiple of m strictly between -m and m is zero. */
  lemma SmallMultiple(d: int, m: int)
    requires m > 0 && -m < d * m < m
    ensures d == 0
  {
    assert d > 0 ==> d * m >= m;
    assert d < 0 ==> d * m <= -m;
  }

  lemma DivModUnique(x: int, q: int, r: int, m: int)
    requires m > 0 && x == q * m + r && 0 <= r < m
    ensures x / m == q && x % m == r
  {
    var d := x / m - q;
    assert d * m == (x / m) * m - q * m;
    assert x == (x / m) * m + x % m;
    assert d * m == r - x % m;
    SmallMultiple(d, m);
  }

  lemma CongIntro(a: int, b: int, k: int, m: int)
    requires m > 0 && a == b + k * m
    ensures Cong(a, b, m)
  {
    assert b == (b / m) * m + b % m;
    assert a == (b / m + k) * m + b % m;
    DivModUnique(a, b / m + k, b % m, m);
  }

  lemma CongWitness(a: int, b: int, m: int) returns (k: int)
    requires m > 0 && Cong(a, b, m)
    ensures a == b + k * m
  {
    k := a / m - b / m;
    assert a == (a / m) * m + a % m;
    assert b == (b / m) * m + b % m;
    assert k * m == (a / m) * m - (b / m) * m;
  }

  lemma CongMod(a: int, m: int)
    requires m > 0
    ensures Cong(a % m, a, m) && 0 <= a % m < m
  {
    assert a == (a / m) * m + a % m;
    CongIntro(a, a % m, a / m, m);
  }

  lemma ModSmall(a: int, m: int)
    requires 0 <= a < m
    ensures a % m == a
  {
    DivModUnique(a, 0, a, m);
  }

  lemma CongAdd(a: int, a': int, b: int, b': int, m: int)
    requires m > 0 && Cong(a, a', m) && Cong(b, b', m)
    ensures Cong(a + b, a' + b', m) && Cong(a - b, a' - b', m)
  {
    var k := CongWitness(a, a', m);
    var l := CongWitness(b, b', m);
    assert (k + l) * m == k * m + l * m && (k - l) * m == k * m - l * m;
    CongIntro(a + b, a' + b', k + l, m);
    CongIntro(a - b, a' - b', k - l, m);
  }

  lemma CongMul(a: int, a': int, b: int, b': int, m: int)
    requires m > 0 && Cong(a, a', m) && Cong(b, b', m)
    ensures Cong(a * b, a' * b', m)
  {
    var k := CongWitness(a, a', m);
    var l := CongWitness(b, b', m);
    MulDistributes(a', k * m, b);
    MulDistributes(b', l * m, a');
    MulAssoc(k, m, b);
    MulAssoc(k, b, m);
    MulAssoc(a', l, m);
    MulDistributes(k * b, a' * l, m);
    CongIntro(a * b, a' * b', k * b + a' * l, m);
  }

  lemma CongScale(s: int, a: int, b: int, m: int)
    requires m > 0 && Cong(a, b, m)
    ensures Cong(s * a, s * b, m)
  {
    CongMul(s, s, a, b, m);
  }

  lemma CongSelf(a: int, m: int)
    requires m > 0
    ensures Cong(a, a, m)
  {
  }

  lemma CongSymmetric(a: int, b: int, m: int)
    requires m > 0 && Cong(a, b, m)
    ensures Cong(b, a, m)
  {
  }

  lemma CongTrans(a: int, b: int, c: int, m: int)
    requires m > 0 && (Cong(a, b, m) || Cong(b, a, m)) && (Cong(b, c, m) || Cong(c, b, m))
    ensures Cong(a, c, m) && Cong(c, a, m)
  {
  }

  lemma MulAssoc(a: int, b: int, c: int)
    ensures (a * b) * c == a * (b * c)
  {
  }

  lemma MulDistributes(a: int, b: int, c: int)
    ensures (a + b) * c == a * c + b * c && c * (a + b) == c * a + c * b
  {
  }

  /** Products of factors of known size. */
  lemma MulMonotone(a: nat, b: nat, c: nat)
    requires a <= b
    ensures 0 <= a * c <= b * c && c * a == a * c
  {
    MulDistributes(a, b - a, c);
  }

  lemma PositiveProduct(a: int, b: int)
    requires a > 0 && b > 0
    ensures a * b > 0
  {
  }

  /** A congruence modulo m restricts to every divisor r of m. */
  lemma CongDivisor(a: int, b: int, s: int, r: int, m: int)
    requires r > 0 && m > 0 && m == s * r && Cong(a, b, m)
    ensures Cong(a, b, r)
  {
    var k := CongWitness(a, b, m);
    assert k * (s * r) == (k * s) * r;
    CongIntro(a, b, k * s, r);
  }

  /** The b^e of the specifications: e factors b, over the unbounded integers. */
  function Pow(b: int, e: nat): int
    decreases e, b
  {
    if e == 0 then 1 else b * Pow(b, e - 1)
  }

  lemma {:induction false} PowAdd(b: int, e: nat, f: nat)
    ensures Pow(b, e + f) == Pow(b, e) * Pow(b, f)
    decreases e
  {
    if e > 0 {
      PowAdd(b, e - 1, f);
      assert e + f - 1 == e - 1 + f;
      assert b * (Pow(b, e - 1) * Pow(b, f)) == (b * Pow(b, e - 1)) * Pow(b, f);
    }
  }

  lemma {:induction false} PowMul(b: int, e: nat, f: nat)
    ensures e * f >= 0 && Pow(Pow(b, e), f) == Pow(b, e * f)
    decreases f
  {
    if f == 0 {
      assert e * f == 0;
    } else {
      PowMul(b, e, f - 1);
      assert e * f == e + e * (f - 1);
      PowAdd(b, e, e * (f - 1));
    }
  }

  lemma {:induction false} PowProduct(a: int, b: int, e: nat)
    ensures Pow(a * b, e) == Pow(a, e) * Pow(b, e)
    decreases e
  {
    if e > 0 {
      PowProduct(a, b, e - 1);
      MulSwap(a, b, Pow(a, e - 1), Pow(b, e - 1));
    }
  }

  lemma MulSwap(a: int, b: int, x: int, y: int)
    ensures (a * b) * (x * y) == (a * x) * (b * y)
  {
    assert b * (x * y) == x * (b * y);
    assert (a * b) * (x * y) == a * (b * (x * y));
  }

  lemma {:induction false} PowOne(e: nat)
    ensures Pow(1, e) == 1
    decreases e
  {
    if e > 0 {
      PowOne(e - 1);
    }
  }

  lemma {:induction false} PowCong(a: int, b: int, e: nat, m: int)
    requires m > 0 && Cong(a, b, m)
    ensures Cong(Pow(a, e), Pow(b, e), m)
    decreases e
  {
    if e > 0 {
      PowCong(a, b, e - 1, m);
      CongMul(a, b, Pow(a, e - 1), Pow(b, e - 1), m);
    }
  }

  /** (-1)^e is 1 or -1 according to the parity of e. */
  lemma {:induction false} PowMinusOne(e: nat)
    ensures Pow(-1, e) == if e % 2 == 0 then 1 else -1
    decreases e
  {
    if e > 0 {
      PowMinusOne(e - 1);
    }
  }
}

// Primes: Euclid's lemma, Fermat's little theorem, and Proth's primality test.
module NumberTheory {
  import opened ModArith
  import opened Sorting

  ghost predicate Prime(p: int) {
    p > 1 && forall d :: 1 < d < p ==> p % d != 0
  }

  function TwoPow(k: nat): (r: nat)
    ensures r > 0
  {
    if k == 0 then 1 else 2 * TwoPow(k - 1)
  }

  lemma {:induction false} TwoPowAdd(i: nat, j: nat)
    ensures TwoPow(i + j) == TwoPow(i) * TwoPow(j)
    decreases i
  {
    if i > 0 {
      TwoPowAdd(i - 1, j);
      var a, b := TwoPow(i - 1), TwoPow(j);
      assert TwoPow(i + j) == 2 * TwoPow(i - 1 + j);
      MulAssoc(2, a, b);
    }
  }

  /** floor(log2(n)): n.bit_length() - 1. */
  function Log2(n: nat): nat
    requires n > 0
  {
    if n == 1 then 0 else 1 + Log2(n / 2)
  }

  lemma {:induction false} Log2TwoPow(k: nat)
    ensures Log2(TwoPow(k)) == k
  {
    if k > 0 {
      Log2TwoPow(k - 1);
      assert TwoPow(k) / 2 == TwoPow(k - 1);
    }
  }

  // ----- Euclid's lemma -----

  lemma {:induction false} EuclidSmall(p: int, a: int, b: int)
    requires Prime(p) && 0 < b < p && (a * b) % p == 0
    ensures a % p == 0
    decreases b
  {
    if b == 1 {
      assert a * b == a;
    } else {
      var q, r := p / b, p % b;
      assert p == q * b + r;
      assert p % b != 0;
      var k := CongWitness(a * b, 0, p);
      assert a * r == a * p - (a * b) * q by {
        assert a * r == a * (p - q * b);
        assert a * (q * b) == (a * b) * q;
        assert a * (p - q * b) == a * p - a * (q * b);
      }
      assert a * r == 0 + (a - k * q) * p by {
        assert (k * p) * q == (k * q) * p;
        assert (a - k * q) * p == a * p - (k * q) * p;
      }
      CongIntro(a * r, 0, a - k * q, p);
      EuclidSmall(p, a, r);
    }
  }

  lemma Euclid(p: int, a: int, b: int)
    requires Prime(p) && (a * b) % p == 0
    ensures a % p == 0 || b % p == 0
  {
    if b % p != 0 {
      CongMod(b, p);
      CongMul(a, a, b, b % p, p);
      EuclidSmall(p, a, b % p);
    }
  }

  /** A factor that is not zero modulo a prime can be cancelled. */
  lemma Cancel(p: int, a: int, b: int, c: int)
    requires Prime(p) && c % p != 0 && Cong(a * c, b * c, p)
    ensures Cong(a, b, p)
  {
    var k := CongWitness(a * c, b * c, p);
    assert (a - b) * c == 0 + k * p;
    CongIntro((a - b) * c, 0, k, p);
    Euclid(p, a - b, c);
    var l := CongWitness(a - b, 0, p);
    CongIntro(a, b, l, p);
  }

  // ----- Products over permuted sequences -----

  function Product(s: seq<int>): int {
    if s == [] then 1 else Product(s[..|s| - 1]) * s[|s| - 1]
  }

  lemma {:induction false} ProductRemove(s: seq<int>, i: nat)
    requires i < |s|
    ensures Product(s) == s[i] * Product(RemoveAt(s, i))
    decreases |s|
  {
    var t := RemoveAt(s, i);
    var n := |s| - 1;
    if i == n {
      assert t == s[..n];
    } else {
      ProductRemove(s[..n], i);
      var u := RemoveAt(s[..n], i);
      assert t[..|t| - 1] == u;
      assert t[|t| - 1] == s[n];
      assert (s[i] * Product(u)) * s[n] == s[i] * (Product(u) * s[n]);
    }
  }

  lemma {:induction false} ProductPermutation(s: seq<int>, t: seq<int>)
    requires multiset(s) == multiset(t)
    ensures Product(s) == Product(t)
    decreases |s|
  {
    hide Product;
    if s == [] {
      assert |multiset(t)| == 0;
    } else {
      var n := |s| - 1;
      var i := LocateLast(s, t);
      ProductPermutation(s[..n], RemoveAt(t, i));
      ProductRemove(t, i);
      ProductLast(s);
    }
  }

  lemma ProductLast(s: seq<int>)
    requires s != []
    ensures Product(s) == s[|s| - 1] * Product(s[..|s| - 1])
  {
  }

  // ----- Counting -----

  predicate Distinct(s: seq<int>) {
    forall i, j :: 0 <= i < j < |s| ==> s[i] != s[j]
  }

  function Elements(s: seq<int>): set<int> {
    set i | 0 <= i < |s| :: s[i]
  }

  /** The list 1, 2, ..., n. */
  function Range(n: nat): seq<int> {
    seq(n, i => i + 1)
  }

  lemma {:induction false} DistinctElements(s: seq<int>)
    requires Distinct(s)
    ensures |Elements(s)| == |s| && multiset(s) == multiset(Elements(s))
    decreases |s|
  {
    if s == [] {
      assert Elements(s) == {};
    } else {
      var n := |s| - 1;
      DistinctElements(s[..n]);
      assert s == s[..n] + [s[n]];
      assert s[n] !in Elements(s[..n]);
      assert Elements(s) == Elements(s[..n]) + {s[n]};
    }
  }

  lemma SubsetSize(s: set<int>, t: set<int>)
    requires s <= t
    ensures |s| <= |t| && (|s| == |t| ==> s == t)
  {
    assert t == s + (t - s);
    if |s| == |t| {
      assert |t - s| == 0;
    }
  }

  /** Pigeonhole: n distinct values among 1..k force n <= k, and are a permutation when n == k. */
  lemma Pigeonhole(s: seq<int>, k: nat)
    requires Distinct(s) && forall i :: 0 <= i < |s| ==> 1 <= s[i] <= k
    ensures |s| <= k
    ensures |s| == k ==> multiset(s) == multiset(Range(k))
  {
    DistinctElements(s);
    DistinctElements(Range(k));
    forall x | x in Elements(s)
      ensures x in Elements(Range(k))
    {
      assert Range(k)[x - 1] == x;
    }
    SubsetSize(Elements(s), Elements(Range(k)));
  }

  // ----- Fermat's little theorem -----

  function Multiples(a: int, n: nat, p: int): seq<int>
    requires p > 0
  {
    seq(n, i => (a * (i + 1)) % p)
  }

  lemma {:induction false} MultiplesProduct(a: int, n: nat, p: int)
    requires p > 0
    ensures Cong(Product(Multiples(a, n, p)), Pow(a, n) * Product(Range(n)), p)
    decreases n
  {
    if n > 0 {
      var s, t := Multiples(a, n, p), Range(n);
      assert s[..n - 1] == Multiples(a, n - 1, p);
      assert t[..n - 1] == Range(n - 1);
      MultiplesProduct(a, n - 1, p);
      CongMod(a * n, p);
      var x, y := Pow(a, n - 1), Product(Range(n - 1));
      CongMul(Product(s[..n - 1]), x * y, s[n - 1], a * n, p);
      MulSwap(x, y, a, n);
      assert Pow(a, n) == x * a;
    }
  }

  lemma MultipleInRange(a: int, i: int, p: int)
    requires Prime(p) && a % p != 0 && 1 <= i < p
    ensures 1 <= (a * i) % p <= p - 1
  {
    CongMod(a * i, p);
    ModSmall(i, p);
    if (a * i) % p == 0 {
      Euclid(p, a, i);
    }
  }

  lemma MultiplesDiffer(a: int, i: int, j: int, p: int)
    requires Prime(p) && a % p != 0 && 1 <= i < j < p
    ensures (a * i) % p != (a * j) % p
  {
    if (a * i) % p == (a * j) % p {
      assert i * a == a * i && j * a == a * j;
      Cancel(p, i, j, a);
      ModSmall(i, p);
      ModSmall(j, p);
    }
  }

  lemma MultiplesPermute(a: int, p: int)
    requires Prime(p) && a % p != 0
    ensures multiset(Multiples(a, p - 1, p)) == multiset(Range(p - 1))
  {
    var s := Multiples(a, p - 1, p);
    forall i | 0 <= i < p - 1
      ensures 1 <= s[i] <= p - 1
    {
      MultipleInRange(a, i + 1, p);
    }
    forall i, j | 0 <= i < j < p - 1
      ensures s[i] != s[j]
    {
      MultiplesDiffer(a, i + 1, j + 1, p);
    }
    Pigeonhole(s, p - 1);
  }

  lemma {:induction false} FactorialNotZero(n: nat, p: int)
    requires Prime(p) && n < p
    ensures Product(Range(n)) % p != 0
    decreases n
  {
    if n == 0 {
      ModSmall(1, p);
    } else {
      FactorialNotZero(n - 1, p);
      assert Range(n)[..n - 1] == Range(n - 1);
      ModSmall(n, p);
      if Product(Range(n)) % p == 0 {
        Euclid(p, Product(Range(n - 1)), n);
      }
    }
  }

  /** a^(p-1) is 1 modulo a prime p that does not divide a. */
  lemma Fermat(a: int, p: int)
    requires Prime(p) && a % p != 0
    ensures Cong(Pow(a, p - 1), 1, p)
  {
    var f := Product(Range(p - 1));
    MultiplesProduct(a, p - 1, p);
    MultiplesPermute(a, p);
    ProductPermutation(Multiples(a, p - 1, p), Range(p - 1));
    FactorialNotZero(p - 1, p);
    Cancel(p, Pow(a, p - 1), 1, f);
  }

  // ----- Proth's test -----

  /** If b^(2^t) is -1 modulo r > 2, no exponent strictly between 0 and 2^(t+1) takes b to 1. */
  lemma {:induction false} NoSmallOrder(b: int, t: nat, d: nat, r: int)
    requires r > 2 && Cong(Pow(b, TwoPow(t)), -1, r)
    requires 0 < d < TwoPow(t + 1)
    ensures !Cong(Pow(b, d), 1, r)
    decreases t
  {
    if Cong(Pow(b, d), 1, r) {
      if d % 2 == 1 {
        var n := TwoPow(t);
        PowMul(b, d, n);
        PowMul(b, n, d);
        assert d * n == n * d;
        PowCong(Pow(b, d), 1, n, r);
        PowOne(n);
        PowCong(Pow(b, n), -1, d, r);
        PowMinusOne(d);
        var k := CongWitness(1, -1, r);
        SmallMultiple(k, r);
      } else {
        var h := d / 2;
        assert d == 2 * h;
        assert t > 0;
        var n := TwoPow(t - 1);
        PowMul(b, 2, n);
        PowMul(b, 2, h);
        NoSmallOrder(Pow(b, 2), t - 1, h, r);
      }
    }
  }

  lemma PowersDiffer(b: int, t: nat, i: nat, j: nat, r: int)
    requires r > 2 && Cong(Pow(b, TwoPow(t)), -1, r)
    requires i < j < TwoPow(t + 1)
    ensures !Cong(Pow(b, i), Pow(b, j), r)
    ensures !Cong(Pow(b, i), 0, r)
  {
    var n := TwoPow(t);
    PowAdd(b, n, n);
    CongMul(Pow(b, n), -1, Pow(b, n), -1, r);
    assert Cong(Pow(b, 2 * n), 1, r);
    var c := Pow(b, 2 * n - i);
    PowAdd(b, i, 2 * n - i);
    if Cong(Pow(b, i), 0, r) {
      CongMul(Pow(b, i), 0, c, c, r);
      ModSmall(1, r);
      ModSmall(0, r);
    }
    if Cong(Pow(b, i), Pow(b, j), r) {
      CongMul(Pow(b, i), Pow(b, j), c, c, r);
      PowAdd(b, j, 2 * n - i);
      PowAdd(b, 2 * n, j - i);
      assert j + (2 * n - i) == 2 * n + (j - i);
      CongMul(Pow(b, 2 * n), 1, Pow(b, j - i), Pow(b, j - i), r);
      NoSmallOrder(b, t, j - i, r);
    }
  }

  lemma OrderBound(b: int, t: nat, r: int)
    requires r > 2 && Cong(Pow(b, TwoPow(t)), -1, r)
    ensures TwoPow(t + 1) < r
  {
    var n := TwoPow(t + 1);
    var s := seq(n, (i: nat) => Pow(b, i) % r);
    forall i | 0 <= i < n
      ensures 1 <= s[i] <= r - 1
    {
      CongMod(Pow(b, i), r);
      ModSmall(0, r);
      if i + 1 < n {
        PowersDiffer(b, t, i, i + 1, r);
      } else {
        LastPowerNotZero(b, t, r);
      }
    }
    forall i, j | 0 <= i < j < n
      ensures s[i] != s[j]
    {
      PowersDiffer(b, t, i, j, r);
    }
    Pigeonhole(s, r - 1);
  }

  lemma LastPowerNotZero(b: int, t: nat, r: int)
    requires r > 2 && Cong(Pow(b, TwoPow(t)), -1, r)
    ensures !Cong(Pow(b, TwoPow(t + 1) - 1), 0, r)
  {
    var n := TwoPow(t);
    if Cong(Pow(b, 2 * n - 1), 0, r) {
      PowAdd(b, n, n - 1);
      PowAdd(b, n, n);
      CongMul(Pow(b, n), -1, Pow(b, n), -1, r);
      assert Pow(b, 2 * n) == b * Pow(b, 2 * n - 1);
      CongMul(b, b, Pow(b, 2 * n - 1), 0, r);
      ModSmall(1, r);
      ModSmall(0, r);
    }
  }

  /** Proth: an odd n below 2^(2t+2) with b^(2^t) = -1 (mod n) is prime. */
  lemma Proth(n: int, b: int, t: nat)
    requires n > 2 && n % 2 == 1
    requires Cong(Pow(b, TwoPow(t)), -1, n)
    requires n < TwoPow(t + 1) * TwoPow(t + 1)
    ensures Prime(n)
  {
    forall d | 1 < d < n
      ensures n % d != 0
    {
      if n % d == 0 {
        var s := n / d;
        assert n == s * d;
        assert s <= 1 ==> s * d <= d;
        OddFactor(n, s, d);
        OddFactor(n, d, s);
        CongDivisor(Pow(b, TwoPow(t)), -1, s, d, n);
        CongDivisor(Pow(b, TwoPow(t)), -1, d, s, n);
        OrderBound(b, t, d);
        OrderBound(b, t, s);
        FactorsTooLarge(s, d, TwoPow(t + 1));
      }
    }
  }

  lemma OddFactor(n: int, s: int, d: int)
    requires n % 2 == 1 && n == s * d && d > 1
    ensures d > 2
  {
    assert d == 2 ==> n == s + s;
  }

  lemma FactorsTooLarge(s: int, d: int, w: nat)
    requires s > w && d > w
    ensures s * d > w * w
  {
    assert (s - w) * d > 0;
    assert w * (d - w) >= 0;
    assert s * d == (s - w) * d + w * (d - w) + w * w;
  }
}

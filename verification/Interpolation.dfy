// Interpolation over the cubic extension: a list of values is recovered from what the polynomial
// with these coefficients takes at as many distinct points, and so are families of such lists.
module Interpolation {
  import opened Results
  import opened Gfp3
  import opened Gfp3Field
  import opened FriPoly

  // ----- Polynomials with coefficients in the extension, unreduced -----

  /** c0 + c1*b + c2*b^2 + ... */
  function ZHorner(cs: seq<EF>, b: EF): EF
    requires cs != []
  {
    if |cs| == 1 then cs[0] else ZAdd(cs[0], ZMul(b, ZHorner(cs[1..], b)))
  }

  /** The coefficients of the quotient of the polynomial by X - b. */
  function Quotient(cs: seq<EF>, b: EF): (r: seq<EF>)
    requires cs != []
    ensures |r| == |cs| - 1
  {
    if |cs| == 1 then [] else [ZHorner(cs[1..], b)] + Quotient(cs[1..], b)
  }

  lemma ZMulSub(a: EF, b: EF, c: EF)
    ensures ZMul(a, ZSub(b, c)) == ZSub(ZMul(a, b), ZMul(a, c))
  {
    hide ZMul;
    ZMulAdd(a, b, ZScale(-1, c));
    ZMulScale(a, c, -1);
    ZScaleMul(-1, a, c);
    assert ZSub(b, c) == ZAdd(b, ZScale(-1, c));
    assert ZSub(ZMul(a, b), ZMul(a, c)) == ZAdd(ZMul(a, b), ZScale(-1, ZMul(a, c)));
  }

  lemma ZMulSubLeft(a: EF, b: EF, c: EF)
    ensures ZMul(ZSub(a, b), c) == ZSub(ZMul(a, c), ZMul(b, c))
  {
    hide ZMul;
    ZMulComm(ZSub(a, b), c);
    ZMulSub(c, a, b);
    ZMulComm(c, a);
    ZMulComm(c, b);
  }

  /** One step of synthetic division: x*f - b*g = (x - b)*(g + x*q) when f - g = (x - b)*q. */
  lemma DivisionStep(x: EF, b: EF, f: EF, g: EF, q: EF)
    requires ZSub(f, g) == ZMul(ZSub(x, b), q)
    ensures ZSub(ZMul(x, f), ZMul(b, g)) == ZMul(ZSub(x, b), ZAdd(g, ZMul(x, q)))
  {
    hide ZMul;
    var d := ZSub(x, b);
    ZMulAdd(d, g, ZMul(x, q));
    ZMulAssoc(d, x, q);
    ZMulComm(d, x);
    ZMulAssoc(x, d, q);
    ZMulSub(x, f, g);
    ZMulSubLeft(x, b, g);
  }

  lemma {:induction false} QuotientIdentity(cs: seq<EF>, b: EF, x: EF)
    requires |cs| >= 2
    ensures ZSub(ZHorner(cs, x), ZHorner(cs, b)) == ZMul(ZSub(x, b), ZHorner(Quotient(cs, b), x))
    decreases |cs|
  {
    hide ZMul;
    var rest := cs[1..];
    var f, g := ZHorner(rest, x), ZHorner(rest, b);
    assert ZSub(ZHorner(cs, x), ZHorner(cs, b)) == ZSub(ZMul(x, f), ZMul(b, g));
    if |cs| == 2 {
      ZMulSubLeft(x, b, rest[0]);
    } else {
      QuotientIdentity(rest, b, x);
      var q := Quotient(cs, b);
      assert q[1..] == Quotient(rest, b);
      DivisionStep(x, b, f, g, ZHorner(q[1..], x));
    }
  }

  // ----- Recovering the coefficients -----

  /** Coefficients from the value r at b and the coefficients q of the quotient by X - b. */
  function Peel(r: Poly, b: EF, q: seq<Poly>, n: nat): (p: seq<Poly>)
    requires HasLength(r, n) && forall i :: 0 <= i < |q| ==> HasLength(q[i], n)
    ensures |p| == |q| + 1 && forall i :: 0 <= i < |p| ==> HasLength(p[i], n)
    decreases |q|
  {
    if q == [] then [r] else [SubPoly(r, TimesEF(b, q[0], n), n)] + Peel(q[0], b, q[1..], n)
  }

  function SubPoly(f: Poly, g: Poly, n: nat): (r: Poly)
    requires HasLength(f, n) && HasLength(g, n)
    ensures HasLength(r, n)
  {
    AddEF(f, TimesEF(EF(-1, 0, 0), g, n), n)
  }

  lemma EvalSub(f: Poly, g: Poly, n: nat, z: int)
    requires HasLength(f, n) && HasLength(g, n)
    ensures EvalEF(SubPoly(f, g, n), z) == ZSub(EvalEF(f, z), EvalEF(g, z))
  {
    hide ZMul, EvalEF, TimesEF, AddEF;
    EvalAdd(f, TimesEF(EF(-1, 0, 0), g, n), n, z);
    EvalTimes(EF(-1, 0, 0), g, n, z);
    ZMulComm(FromBase(-1), EvalEF(g, z));
    ZMulBase(EvalEF(g, z), -1);
  }

  lemma RedSub(a: EF, a': EF, b: EF, b': EF)
    requires Red(a) == Red(a') && Red(b) == Red(b')
    ensures Red(ZSub(a, b)) == Red(ZSub(a', b'))
  {
    RedAddCong(a, a', b, b');
  }

  /** One coefficient peeled off: c0 = f(b) - b*g, where f = c0 + b*g. */
  lemma PeelOne(c0: EF, b: EF, g: EF, r: Poly, q: Poly, n: nat, z: int)
    requires HasLength(r, n) && HasLength(q, n)
    requires Red(ZAdd(c0, ZMul(b, g))) == Red(EvalEF(r, z)) && Red(g) == Red(EvalEF(q, z))
    ensures Red(EvalEF(SubPoly(r, TimesEF(b, q, n), n), z)) == Red(c0)
  {
    hide ZMul, EvalEF, Red, SubPoly, TimesEF;
    EvalSub(r, TimesEF(b, q, n), n, z);
    EvalTimes(b, q, n, z);
    RedMulCong(b, b, g, EvalEF(q, z));
    RedSub(ZAdd(c0, ZMul(b, g)), EvalEF(r, z), ZMul(b, g), ZMul(b, EvalEF(q, z)));
    assert ZSub(ZAdd(c0, ZMul(b, g)), ZMul(b, g)) == c0;
  }

  lemma {:induction false} PeelValues(cs: seq<EF>, r: Poly, b: EF, q: seq<Poly>, n: nat, z: int)
    requires cs != [] && |q| == |cs| - 1
    requires HasLength(r, n) && forall i :: 0 <= i < |q| ==> HasLength(q[i], n)
    requires Red(ZHorner(cs, b)) == Red(EvalEF(r, z))
    requires forall i :: 0 <= i < |q| ==> Red(Quotient(cs, b)[i]) == Red(EvalEF(q[i], z))
    ensures forall i :: 0 <= i < |cs| ==> Red(cs[i]) == Red(EvalEF(Peel(r, b, q, n)[i], z))
    decreases |cs|
  {
    hide ZMul, EvalEF, Red, SubPoly, TimesEF;
    if |cs| > 1 {
      var p, rest := Peel(r, b, q, n), Peel(q[0], b, q[1..], n);
      assert Quotient(cs, b)[1..] == Quotient(cs[1..], b);
      assert Red(Quotient(cs, b)[0]) == Red(EvalEF(q[0], z));
      PeelValues(cs[1..], q[0], b, q[1..], n, z);
      PeelOne(cs[0], b, ZHorner(cs[1..], b), r, q[0], n, z);
      forall i | 0 <= i < |cs|
        ensures Red(cs[i]) == Red(EvalEF(p[i], z))
      {
        assert i > 0 ==> cs[i] == cs[1..][i - 1] && p[i] == rest[i - 1];
      }
    }
  }

  // ----- Interpolation -----

  predicate PairwiseDistinct(bs: seq<EF>) {
    forall i, j :: 0 <= i < j < |bs| ==> Red(bs[i]) != Red(bs[j])
  }

  /** The inverse in the extension; zero for zero. */
  function InverseOf(e: EF): EF {
    match EfInv(e)
    case None => ZERO
    case Some(v) => v
  }

  /** A divided difference: (r - r0) / (x - b). */
  function DividedBy(r: Poly, r0: Poly, x: EF, b: EF, n: nat): (q: Poly)
    requires HasLength(r, n) && HasLength(r0, n)
    ensures HasLength(q, n)
  {
    TimesEF(InverseOf(ZSub(x, b)), SubPoly(r, r0, n), n)
  }

  /** The divided differences of the samples rs at bs with respect to the sample r0 at b. */
  function Divided(rs: seq<Poly>, bs: seq<EF>, r0: Poly, b: EF, n: nat): (r: seq<Poly>)
    requires |rs| == |bs| && HasLength(r0, n) && forall i :: 0 <= i < |rs| ==> HasLength(rs[i], n)
    ensures |r| == |rs| && forall i :: 0 <= i < |r| ==> HasLength(r[i], n)
    ensures forall i :: 0 <= i < |r| ==> r[i] == DividedBy(rs[i], r0, bs[i], b, n)
  {
    if rs == [] then [] else [DividedBy(rs[0], r0, bs[0], b, n)] + Divided(rs[1..], bs[1..], r0, b, n)
  }

  /** The polynomials p_0, p_1, ... for which p_0 + b*p_1 + b^2*p_2 + ... is rs[i] at b = bs[i]. */
  function Interpolate(rs: seq<Poly>, bs: seq<EF>, n: nat): (p: seq<Poly>)
    requires |rs| == |bs| > 0 && forall i :: 0 <= i < |rs| ==> HasLength(rs[i], n)
    ensures |p| == |rs| && forall i :: 0 <= i < |p| ==> HasLength(p[i], n)
    decreases |rs|
  {
    if |rs| == 1 then rs else Peel(rs[0], bs[0], Interpolate(Divided(rs[1..], bs[1..], rs[0], bs[0], n), bs[1..], n), n)
  }

  lemma InverseFacts(a: EF, b: EF)
    requires Red(a) != Red(b)
    ensures Red(ZMul(InverseOf(ZSub(a, b)), ZSub(a, b))) == ONE
  {
    hide EfInv, EfMul, ZMul;
    var d := ZSub(a, b);
    ZeroDifference(a, b);
    RedAdd(a, b);
    EfInvCorrect(d);
    EfMulComm(d, InverseOf(d));
    RedMul(InverseOf(d), d);
  }

  /** A divided difference of values is the value of the quotient. */
  lemma DividedValue(cs: seq<EF>, b: EF, x: EF, r: Poly, r0: Poly, n: nat, z: int)
    requires |cs| >= 2 && Red(x) != Red(b) && HasLength(r, n) && HasLength(r0, n)
    requires Red(ZHorner(cs, x)) == Red(EvalEF(r, z)) && Red(ZHorner(cs, b)) == Red(EvalEF(r0, z))
    ensures Red(EvalEF(DividedBy(r, r0, x, b, n), z)) == Red(ZHorner(Quotient(cs, b), x))
  {
    hide ZMul, EvalEF, Red, SubPoly, TimesEF, InverseOf, ZHorner, Quotient;
    var d, inv, q := ZSub(x, b), InverseOf(ZSub(x, b)), ZHorner(Quotient(cs, b), x);
    EvalTimes(inv, SubPoly(r, r0, n), n, z);
    EvalSub(r, r0, n, z);
    RedSub(ZHorner(cs, x), EvalEF(r, z), ZHorner(cs, b), EvalEF(r0, z));
    QuotientIdentity(cs, b, x);
    RedMulCong(inv, inv, ZSub(EvalEF(r, z), EvalEF(r0, z)), ZMul(d, q));
    ZMulAssoc(inv, d, q);
    InverseFacts(x, b);
    OneTimes(ZMul(inv, d), q);
  }

  lemma OneTimes(u: EF, q: EF)
    requires Red(u) == ONE
    ensures Red(ZMul(u, q)) == Red(q)
  {
    hide ZMul, Red;
    RedIdempotent(u);
    RedMulLeft(u, ONE, q);
    ZMulComm(ONE, q);
    TimesOne(q);
  }

  /** Interpolation is pointwise right: samples of a family of polynomials determine its coefficients. */
  lemma {:induction false} InterpolateValues(cs: seq<EF>, rs: seq<Poly>, bs: seq<EF>, n: nat, z: int)
    requires |cs| == |rs| == |bs| > 0 && PairwiseDistinct(bs)
    requires forall i :: 0 <= i < |rs| ==> HasLength(rs[i], n)
    requires forall i :: 0 <= i < |rs| ==> Red(ZHorner(cs, bs[i])) == Red(EvalEF(rs[i], z))
    ensures forall i :: 0 <= i < |cs| ==> Red(cs[i]) == Red(EvalEF(Interpolate(rs, bs, n)[i], z))
    decreases |cs|
  {
    hide ZMul, EvalEF, Red, DividedBy, Divided, Peel;
    assert Red(ZHorner(cs, bs[0])) == Red(EvalEF(rs[0], z));
    if |cs| > 1 {
      var qs, rest := Quotient(cs, bs[0]), Divided(rs[1..], bs[1..], rs[0], bs[0], n);
      forall i | 0 <= i < |rest|
        ensures Red(ZHorner(qs, bs[1..][i])) == Red(EvalEF(rest[i], z))
      {
        assert bs[1..][i] == bs[i + 1] && rs[1..][i] == rs[i + 1];
        DividedValue(cs, bs[0], bs[i + 1], rs[i + 1], rs[0], n, z);
      }
      InterpolateValues(qs, rest, bs[1..], n, z);
      PeelValues(cs, rs[0], bs[0], Interpolate(rest, bs[1..], n), n, z);
    }
  }
}

// The Goldilocks prime and its group of two-power roots of unity.
module Goldilocks {
  import opened ModArith
  import opened NumberTheory
  import opened Words

  /** The Goldilocks modulus 2^64 - 2^32 + 1. */
  const P: int := 0xFFFF_FFFF_0000_0001

  /** field_reduce of the Python verifier, on unbounded integers. */
  function PyFieldReduce(x: int): U64 {
    CongMod(x, TWO_64);
    CongMod(x % TWO_64, P);
    (x % TWO_64) % P
  }

  /** It truncates to 64 bits and then reduces: the residue of any 64-bit value, and periodic beyond. */
  lemma PyFieldReduceExact(x: int, k: int)
    ensures 0 <= x < TWO_64 ==> PyFieldReduce(x) == x % P
    ensures PyFieldReduce(x + k * TWO_64) == PyFieldReduce(x)
  {
    CongIntro(x + k * TWO_64, x, k, TWO_64);
    if 0 <= x < TWO_64 {
      ModSmall(x, TWO_64);
    }
  }

  // ----- A certificate for 7^((P-1)/2) = -1 -----

  /** w^(2^k) modulo P, by repeated squaring. */
  function Squares(w: int, k: nat): int
    decreases k, w
  {
    if k == 0 then w % P else (Squares(w, k - 1) * Squares(w, k - 1)) % P
  }

  lemma {:induction false} SquaresCorrect(w: int, k: nat)
    ensures Cong(Pow(w, TwoPow(k)), Squares(w, k), P)
    decreases k
  {
    if k == 0 {
      assert Pow(w, 1) == w * Pow(w, 0);
      CongMod(w, P);
    } else {
      var n := TwoPow(k - 1);
      var a := Squares(w, k - 1);
      SquaresCorrect(w, k - 1);
      PowAdd(w, n, n);
      CongMul(Pow(w, n), a, Pow(w, n), a, P);
      CongMod(a * a, P);
    }
  }

  lemma SquareStep(w: int, k: nat, a: int, b: int)
    requires Squares(w, k) == a && (a * a) % P == b
    ensures Squares(w, k + 1) == b
  {
  }

  lemma SquaresTo16(w: int)
    requires w % P == 7
    ensures Squares(w, 16) == 11156834669773791359
  {
    SquareStep(w, 0, 7, 49);
    SquareStep(w, 1, 49, 2401);
    SquareStep(w, 2, 2401, 5764801);
    SquareStep(w, 3, 5764801, 33232930569601);
    SquareStep(w, 4, 33232930569601, 3732854072722565977);
    SquareStep(w, 5, 3732854072722565977, 11250886851934520606);
    SquareStep(w, 6, 11250886851934520606, 12159723539389677939);
    SquareStep(w, 7, 12159723539389677939, 1536671775522476176);
    SquareStep(w, 8, 1536671775522476176, 18371408314118145657);
    SquareStep(w, 9, 18371408314118145657, 2431605942540367610);
    SquareStep(w, 10, 2431605942540367610, 6358221588783459004);
    SquareStep(w, 11, 6358221588783459004, 10083885515493449909);
    SquareStep(w, 12, 10083885515493449909, 15094611910849701842);
    SquareStep(w, 13, 15094611910849701842, 18060412910171584788);
    SquareStep(w, 14, 18060412910171584788, 10529651373896570371);
    SquareStep(w, 15, 10529651373896570371, 11156834669773791359);
  }

  lemma SquaresTo31(w: int)
    requires Squares(w, 16) == 11156834669773791359
    ensures Squares(w, 31) == 17380019310548783236
  {
    SquareStep(w, 16, 11156834669773791359, 11840798296997857860);
    SquareStep(w, 17, 11840798296997857860, 1447330804268045396);
    SquareStep(w, 18, 1447330804268045396, 15265864706138236984);
    SquareStep(w, 19, 15265864706138236984, 12990112920302977158);
    SquareStep(w, 20, 12990112920302977158, 16491641580159807679);
    SquareStep(w, 21, 16491641580159807679, 17642952523097762870);
    SquareStep(w, 22, 17642952523097762870, 4419967652436713981);
    SquareStep(w, 23, 4419967652436713981, 7206579306846404579);
    SquareStep(w, 24, 7206579306846404579, 17869454728573311546);
    SquareStep(w, 25, 17869454728573311546, 4919185416341570378);
    SquareStep(w, 26, 4919185416341570378, 14445320067108370181);
    SquareStep(w, 27, 14445320067108370181, 17666966662873528270);
    SquareStep(w, 28, 17666966662873528270, 5473358340599679662);
    SquareStep(w, 29, 5473358340599679662, 4120449531758749877);
    SquareStep(w, 30, 4120449531758749877, 17380019310548783236);
  }

  lemma SquaresTo48(w: int)
    requires Squares(w, 31) == 17380019310548783236
    ensures Squares(w, 48) == 5647278486080789199
  {
    SquareStep(w, 31, 17380019310548783236, 12275445934081160404);
    SquareStep(w, 32, 12275445934081160404, 4756475762779100925);
    SquareStep(w, 33, 4756475762779100925, 8312008622371998338);
    SquareStep(w, 34, 8312008622371998338, 3688660304411827445);
    SquareStep(w, 35, 3688660304411827445, 6534114114080170934);
    SquareStep(w, 36, 6534114114080170934, 12241777603010464820);
    SquareStep(w, 37, 12241777603010464820, 6822456961749002749);
    SquareStep(w, 38, 6822456961749002749, 14740284407083446365);
    SquareStep(w, 39, 14740284407083446365, 14198376421529404772);
    SquareStep(w, 40, 14198376421529404772, 16372603252271478917);
    SquareStep(w, 41, 16372603252271478917, 6094962593300533783);
    SquareStep(w, 42, 6094962593300533783, 12855798221536971597);
    SquareStep(w, 43, 12855798221536971597, 4570035464479216815);
    SquareStep(w, 44, 4570035464479216815, 13312966101283008305);
    SquareStep(w, 45, 13312966101283008305, 17717521521350689785);
    SquareStep(w, 46, 17717521521350689785, 2579852125121816621);
    SquareStep(w, 47, 2579852125121816621, 5647278486080789199);
  }

  lemma SquaresTo63(w: int)
    requires Squares(w, 48) == 5647278486080789199
    ensures Squares(w, 63) == 1066724758865801085
  {
    SquareStep(w, 48, 5647278486080789199, 10087368686013698258);
    SquareStep(w, 49, 10087368686013698258, 13705325519725492466);
    SquareStep(w, 50, 13705325519725492466, 16094056529116650251);
    SquareStep(w, 51, 16094056529116650251, 839801632116640137);
    SquareStep(w, 52, 839801632116640137, 809314592928515922);
    SquareStep(w, 53, 809314592928515922, 17285123329644556226);
    SquareStep(w, 54, 17285123329644556226, 13607546115301327129);
    SquareStep(w, 55, 13607546115301327129, 8495382904317313497);
    SquareStep(w, 56, 8495382904317313497, 7711545778172399998);
    SquareStep(w, 57, 7711545778172399998, 14653638268244293248);
    SquareStep(w, 58, 14653638268244293248, 4449853170003902284);
    SquareStep(w, 59, 4449853170003902284, 16684733269283358279);
    SquareStep(w, 60, 16684733269283358279, 10831206780798498119);
    SquareStep(w, 61, 10831206780798498119, 8050641074587903850);
    SquareStep(w, 62, 8050641074587903850, 1066724758865801085);
  }

  lemma CancelInverse(w: int, c: int, d: int, m: int)
    requires m > 0 && Cong(w * c, -c, m) && Cong(c * d, 1, m)
    ensures Cong(w, -1, m)
  {
    CongMul(w * c, -c, d, d, m);
    assert (w * c) * d == w * (c * d) && (-c) * d == -(c * d);
    CongMul(w, w, c * d, 1, m);
    CongMul(-1, -1, c * d, 1, m);
  }

  lemma HalfOrderExponent(n: nat)
    requires n > 0
    ensures (2 * n - 1) * n >= 0 && (2 * n - 1) * n + n == (2 * n) * n
  {
  }

  /** If g^(2^t) = c, g^(2^(2t+1)) = -c and c has inverse d, then g^(2^(t+1) - 1) has 2^t-th power -1. */
  lemma HalfOrder(g: int, t: nat, c: int, d: int, m: int)
    requires m > 0 && Cong(Pow(g, TwoPow(t)), c, m)
    requires Cong(Pow(g, TwoPow(2 * t + 1)), -c, m)
    requires Cong(c * d, 1, m)
    ensures Cong(Pow(Pow(g, TwoPow(t + 1) - 1), TwoPow(t)), -1, m)
  {
    var n := TwoPow(t);
    HalfOrderExponent(n);
    var e := (2 * n - 1) * n;
    TwoPowAdd(t + 1, t);
    assert t + 1 + t == 2 * t + 1;
    PowMul(g, 2 * n - 1, n);
    PowAdd(g, e, n);
    CongMul(Pow(g, e), Pow(g, e), Pow(g, n), c, m);
    CancelInverse(Pow(g, e), c, d, m);
  }

  /** 7^(2^(t+1) - 1), for t = 31, is a root of unity of order exactly 2^32: its 2^31-st power is -1. */
  lemma GeneratorPower(g: int, t: nat)
    requires g % P == 7 && t == 31
    ensures Cong(Pow(Pow(g, TwoPow(t + 1) - 1), TwoPow(t)), -1, P)
  {
    SquaresTo16(g);
    SquaresTo31(g);
    SquaresTo48(g);
    SquaresTo63(g);
    SquaresCorrect(g, t);
    SquaresCorrect(g, 2 * t + 1);
    CongIntro(1066724758865801085, -17380019310548783236, 1, P);
    HalfOrder(g, t, 17380019310548783236, 10995985114279347947, P);
  }

  /** The Goldilocks modulus is prime. */
  lemma GoldilocksPrime()
    ensures Prime(P)
  {
    var g := P + 7;
    DivModUnique(g, 1, 7, P);
    ProthGoldilocks(g, 31);
  }

  lemma TwoPow32()
    ensures TwoPow(32) == 0x1_0000_0000
  {
    assert TwoPow(8) == 256;
    TwoPowAdd(8, 8);
    TwoPowAdd(16, 16);
  }

  lemma SquareBound(t: nat)
    requires t == 31
    ensures P < TwoPow(t + 1) * TwoPow(t + 1)
  {
    TwoPow32();
  }

  lemma ProthGoldilocks(g: int, t: nat)
    requires g % P == 7 && t == 31
    ensures Prime(P)
  {
    GeneratorPower(g, t);
    SquareBound(t);
    Proth(P, Pow(g, TwoPow(t + 1) - 1), t);
  }
}

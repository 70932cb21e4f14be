// The emission curve and the supply cap of core/scalar-emission/src/accumulator.rs.
module Accumulator {
  import opened Results
  import opened Words

  const S_E_SSCL: int := 1_890_000_000_000_000
  const E0_SSCL: int := 12_600_000_000_000
  const BASIS: int := 1_000_000_000

  datatype EmissionError = Overflow | SupplyCapExceeded(minted: U64, reward: U64, cap: int)

  // ----- The fixed-point curve -----

  /** rho_fp: minted over S_E in units of 10^-9, rounded down. The product fits a u128. */
  function RhoFp(minted: U64): nat { minted * BASIS / S_E_SSCL }

  /** 1 - rho, saturating at zero. */
  function Remaining(minted: U64): nat { if RhoFp(minted) <= BASIS then BASIS - RhoFp(minted) else 0 }

  lemma CancelFactor(q: int, x: int, b: int)
    requires b > 0 && q * b <= x * b
    ensures q <= x
  {
    assert (q - x) * b == q * b - x * b;
    assert q > x ==> (q - x) * b > 0;
  }

  lemma SquareQuotient(x: nat, b: nat)
    requires x <= b && b > 0
    ensures 0 <= x * x / b <= x
  {
    var s := x * x;
    assert s == x * b - x * (b - x);
    assert x * (b - x) >= 0;
    QuotientBelow(s, x, b);
  }

  lemma QuotientBelow(s: nat, x: nat, b: nat)
    requires b > 0 && s <= x * b
    ensures 0 <= s / b <= x
  {
    var q := s / b;
    assert s == q * b + s % b;
    CancelFactor(q, x, b);
  }

  /** emission_this_epoch: E0 * (1 - rho)^2 in integer arithmetic. */
  function Emission(minted: U64): (e: U64)
    ensures e <= E0_SSCL
  {
    var omr := Remaining(minted);
    SquareQuotient(omr, BASIS);
    var omrSq := omr * omr / BASIS;
    E0_SSCL * omrSq / BASIS
  }

  /** E0 is a multiple of the basis, so the outer rounding is exact. */
  lemma EmissionSteps(minted: U64)
    ensures Emission(minted) == 12_600 * (Remaining(minted) * Remaining(minted) / BASIS)
  {
    var q := Remaining(minted) * Remaining(minted) / BASIS;
    assert E0_SSCL * q == (12_600 * q) * BASIS;
  }

  /** The fixed-point remainder is the remaining supply in units of 1,890,000, rounded up. */
  lemma RemainingCeil(minted: U64)
    requires minted <= S_E_SSCL
    ensures 0 <= Remaining(minted) <= BASIS
    ensures (Remaining(minted) - 1) * 1_890_000 < S_E_SSCL - minted <= Remaining(minted) * 1_890_000
  {
    assert RhoFp(minted) == minted / 1_890_000;
  }

  lemma SquareMonotone(x: nat, y: nat)
    requires x <= y
    ensures x * x <= y * y
  {
    assert x * x <= x * y <= y * y;
  }

  /** Emission never increases as more is minted. */
  lemma EmissionMonotone(a: U64, b: U64)
    requires a <= b
    ensures Emission(b) <= Emission(a)
  {
    assert RhoFp(a) <= RhoFp(b);
    SquareMonotone(Remaining(b), Remaining(a));
    EmissionSteps(a);
    EmissionSteps(b);
  }

  // ----- Accuracy -----

  /** The curve the specification names: E0 * (1 - M/S_E)^2. */
  ghost function ExactEmission(minted: U64): real {
    var f := 1.0 - minted as real / S_E_SSCL as real;
    E0_SSCL as real * (f * f)
  }

  lemma ExactForm(minted: U64)
    ensures var y := (S_E_SSCL - minted) as real / 1_890_000.0;
      ExactEmission(minted) == 0.0000126 * (y * y)
  {
    var f := 1.0 - minted as real / S_E_SSCL as real;
    var y := (S_E_SSCL - minted) as real / 1_890_000.0;
    assert y == 1_000_000_000.0 * f;
    assert y * y == 1_000_000_000_000_000_000.0 * (f * f);
  }

  lemma PositiveRealProduct(a: real, b: real)
    requires a > 0.0 && b > 0.0
    ensures a * b > 0.0
  {
  }

  lemma RealSquare(a: real, b: real)
    requires 0.0 <= a <= b
    ensures a * a <= b * b && (a < b ==> a * a < b * b)
  {
    assert b * b - a * a == (b - a) * (b + a);
    if a < b {
      PositiveRealProduct(b - a, b + a);
    }
  }

  lemma SquareGap(y: real, n: real)
    requires n >= 1.0 && n - 1.0 < y <= n
    ensures n * n - 2.0 * n + 1.0 < y * y <= n * n
  {
    RealSquare(n - 1.0, y);
    RealSquare(y, n);
    assert (n - 1.0) * (n - 1.0) == n * n - 2.0 * n + 1.0;
  }

  /** The two roundings, in units of the basis: n rounds y up, q rounds n^2 / 10^9 down. */
  lemma RoundingError(n: real, y: real, q: real)
    requires 0.0 <= n <= 1_000_000_000.0 && (n == 0.0 ==> y == 0.0) && (n > 0.0 ==> n >= 1.0 && n - 1.0 < y <= n)
    requires q * 1_000_000_000.0 <= n * n < (q + 1.0) * 1_000_000_000.0
    ensures -1_000_000_000.0 < q * 1_000_000_000.0 - y * y < 2_000_000_000.0
  {
    if n > 0.0 {
      SquareGap(y, n);
    }
  }

  /** The integer emission is less than 12,600 below and less than 25,200 above the exact curve. */
  lemma EmissionAccuracy(minted: U64)
    requires minted <= S_E_SSCL
    ensures -12_600.0 < Emission(minted) as real - ExactEmission(minted) < 25_200.0
  {
    hide Emission, ExactEmission, Remaining;
    var n := Remaining(minted);
    var q := n * n / BASIS;
    var y := (S_E_SSCL - minted) as real / 1_890_000.0;
    RemainingCeil(minted);
    EmissionSteps(minted);
    ExactForm(minted);
    assert q * BASIS <= n * n < (q + 1) * BASIS;
    SquareAsReal(n);
    RoundingError(n as real, y, q as real);
  }

  lemma SquareAsReal(n: int)
    ensures (n * n) as real == (n as real) * (n as real)
  {
  }

  /** Below 31,623 units of 10^-9 of remaining supply the emission is exactly zero, and only there. */
  lemma EmissionZero(minted: U64)
    ensures Emission(minted) == 0 <==> Remaining(minted) <= 31_622
  {
    EmissionSteps(minted);
    var n := Remaining(minted);
    if n <= 31_622 {
      SquareMonotone(n, 31_622);
    } else {
      SquareMonotone(31_623, n);
    }
  }

  // ----- Self-limitation -----

  /** One emission never reaches the cap: it is smaller than what remains. */
  lemma EmissionBelowRemaining(minted: U64)
    requires minted < S_E_SSCL
    ensures minted + Emission(minted) < S_E_SSCL
  {
    var n := Remaining(minted);
    RemainingCeil(minted);
    EmissionSteps(minted);
    EmissionZero(minted);
    if n > 31_622 {
      SquareQuotient(n, BASIS);
    }
  }

  /** total_minted after k epochs of commit_epoch(emission_this_epoch()) from genesis. */
  function Minted(k: nat): U64 {
    if k == 0 then 0 else SupplyStep(Minted(k - 1))
  }

  /** One committed epoch, or the unchanged total when the cap would be passed. */
  function SupplyStep(minted: U64): U64 {
    if minted + Emission(minted) <= S_E_SSCL then minted + Emission(minted) else minted
  }

  /** The schedule limits itself: total_minted stays strictly below S_E and no epoch is ever refused. */
  lemma {:induction false} MintedBelowCap(k: nat)
    ensures Minted(k) < S_E_SSCL
    ensures Minted(k) + Emission(Minted(k)) < S_E_SSCL && Minted(k + 1) == Minted(k) + Emission(Minted(k))
  {
    hide Emission;
    if k > 0 {
      MintedBelowCap(k - 1);
    }
    EmissionBelowRemaining(Minted(k));
  }

  lemma {:induction false} MintedGrows(k: nat)
    requires forall j :: 0 <= j < k ==> Emission(Minted(j)) != 0
    ensures Minted(k) >= 12_600 * k
  {
    hide Emission;
    if k > 0 {
      MintedGrows(k - 1);
      MintedBelowCap(k - 1);
      EmissionSteps(Minted(k - 1));
    }
  }

  /** Emission does stop, after at most S_E / 12,600 epochs, with a positive dust of supply left for good. */
  lemma EmissionStops() returns (k: nat)
    ensures k <= 150_000_000_000 && Emission(Minted(k)) == 0
    ensures 0 < S_E_SSCL - Minted(k) <= 59_765_580_000
    ensures forall j :: j >= k ==> Minted(j) == Minted(k)
  {
    hide Emission;
    if forall j :: 0 <= j < 150_000_000_000 ==> Emission(Minted(j)) != 0 {
      k := 150_000_000_000;
      MintedGrows(k);
      MintedBelowCap(k);
    } else {
      k :| 0 <= k < 150_000_000_000 && Emission(Minted(k)) == 0;
    }
    MintedBelowCap(k);
    EmissionZero(Minted(k));
    RemainingCeil(Minted(k));
    forall j | j >= k
      ensures Minted(j) == Minted(k)
    {
      StaysStopped(k, j);
    }
  }

  lemma {:induction false} StaysStopped(k: nat, j: nat)
    requires j >= k && Emission(Minted(k)) == 0
    ensures Minted(j) == Minted(k)
    decreases j
  {
    hide Emission;
    if j > k {
      StaysStopped(k, j - 1);
      MintedBelowCap(j - 1);
    }
  }

  // ----- The accumulator -----

  class EmissionAccumulator {
    var totalMinted: U64

    constructor ()
      ensures totalMinted == Minted(0)
    {
      totalMinted := 0;
    }

    /** check_supply_cap. */
    method CheckSupplyCap(reward: U64) returns (r: Result<(), EmissionError>)
      ensures r == Ok(()) <==> totalMinted + reward <= S_E_SSCL
      ensures r == Err(Overflow) <==> totalMinted + reward > U64_MAX
      ensures S_E_SSCL < totalMinted + reward <= U64_MAX ==> r == Err(SupplyCapExceeded(totalMinted, reward, S_E_SSCL))
    {
      if totalMinted + reward > U64_MAX {
        return Err(Overflow);
      }
      var newTotal := totalMinted + reward;
      if newTotal > S_E_SSCL {
        return Err(SupplyCapExceeded(totalMinted, reward, S_E_SSCL));
      }
      r := Ok(());
    }

    /** commit_epoch: refused without effect, or added in full and within the cap. */
    method CommitEpoch(amount: U64) returns (r: Result<(), EmissionError>)
      modifies this
      ensures r == Ok(()) <==> old(totalMinted) + amount <= S_E_SSCL
      ensures totalMinted == if r == Ok(()) then old(totalMinted) + amount else old(totalMinted)
    {
      r := CheckSupplyCap(amount);
      if r.Err? {
        return;
      }
      totalMinted := totalMinted + amount;
    }

    /** An epoch of the schedule always succeeds. */
    method MintEpoch(ghost k: nat) returns (r: Result<(), EmissionError>)
      requires totalMinted == Minted(k)
      modifies this
      ensures r == Ok(()) && totalMinted == Minted(k + 1)
    {
      MintedBelowCap(k);
      var e := Emission(totalMinted);
      r := CommitEpoch(e);
    }
  }
}

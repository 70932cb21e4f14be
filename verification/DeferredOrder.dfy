// When releasing oldest first is the best the deferred pool of core/scalar-emission/src/accounting.rs
// can do: exactly when no deposit that can expire comes after a deposit of a later epoch.
module DeferredOrder {
  import opened Words
  import opened Accumulator
  import opened DeferredPool

  /** The epochs of the deposits of a run, in order of arrival. */
  function DepositEpochs(events: seq<Event>): seq<U64> {
    if events == [] then []
    else
      var n := |events| - 1;
      DepositEpochs(events[..n]) + (if events[n].Deposit? then [events[n].epoch] else [])
  }

  /** Entries of epoch U64_MAX - 12 and later are never older than 12 epochs. */
  const NEVER_EXPIRES: U64 := 0xFFFF_FFFF_FFFF_FFFF - 12

  /** No deposit that can expire comes after one of a later epoch. */
  predicate Orderly(epochs: seq<U64>) {
    forall i, j :: 0 <= i < j < |epochs| ==> epochs[i] <= epochs[j] || epochs[j] >= NEVER_EXPIRES
  }

  /** At no point of the run has any policy paid out more than this pool. */
  ghost predicate Unbeaten(events: seq<Event>) {
    forall states: seq<Pool>, k: nat :: PolicyRun(events, states) && k <= |events| ==>
      FifoRun(events[..k]).released >= states[k].released
  }

  // ----- Epochs that never expire are all alike -----

  function Clamp(e: U64): U64 { if e <= NEVER_EXPIRES then e else NEVER_EXPIRES }

  function ClampEntry(x: Entry): Entry { Entry(Clamp(x.epoch), x.amount) }

  function ClampAll(es: seq<Entry>): (r: seq<Entry>)
    ensures |r| == |es|
  {
    seq(|es|, i requires 0 <= i < |es| => ClampEntry(es[i]))
  }

  function ClampPool(p: Pool): Pool { Pool(ClampAll(p.entries), p.released) }

  function ClampEvent(ev: Event): Event {
    match ev
    case Deposit(amount, epoch) => Deposit(amount, Clamp(epoch))
    case Release(now) => ev
  }

  function ClampEvents(events: seq<Event>): (r: seq<Event>)
    ensures |r| == |events|
  {
    seq(|events|, i requires 0 <= i < |events| => ClampEvent(events[i]))
  }

  lemma ClampLive(x: Entry, now: U64)
    ensures Live(ClampEntry(x), now) == Live(x, now)
  {
  }

  lemma ClampConcat(a: seq<Entry>, b: seq<Entry>)
    ensures ClampAll(a + b) == ClampAll(a) + ClampAll(b)
  {
  }

  lemma {:induction false} ClampTotal(es: seq<Entry>)
    ensures Total(ClampAll(es)) == Total(es)
    decreases |es|
  {
    if es != [] {
      ClampTotal(es[1..]);
      assert ClampAll(es)[1..] == ClampAll(es[1..]);
    }
  }

  lemma {:induction false} ClampFresh(es: seq<Entry>, now: U64)
    ensures Fresh(ClampAll(es), now) == ClampAll(Fresh(es, now))
    decreases |es|
  {
    hide Live;
    if es != [] {
      ClampFresh(es[1..], now);
      assert ClampAll(es)[1..] == ClampAll(es[1..]);
      ClampLive(es[0], now);
      ClampConcat(if Live(es[0], now) then [es[0]] else [], Fresh(es[1..], now));
    }
  }

  lemma {:induction false} ClampDrain(es: seq<Entry>, r: nat)
    ensures Drain(ClampAll(es), r) == ClampAll(Drain(es, r))
    decreases |es|
  {
    if es != [] && r > 0 {
      assert ClampAll(es)[1..] == ClampAll(es[1..]);
      if es[0].amount <= r {
        ClampDrain(es[1..], r - es[0].amount);
      } else {
        ClampConcat([Entry(es[0].epoch, es[0].amount - r)], es[1..]);
      }
    }
  }

  lemma ClampStep(p: Pool, ev: Event)
    requires Total(p.entries) <= S_E_SSCL
    ensures Total(ClampPool(p).entries) <= S_E_SSCL
    ensures FifoStep(ClampPool(p), ClampEvent(ev)) == ClampPool(FifoStep(p, ev))
  {
    hide Total, Fresh, Drain;
    ClampTotal(p.entries);
    match ev
    case Deposit(amount, epoch) =>
      ClampConcat(p.entries, [Entry(epoch, Accepted(p.entries, amount))]);
    case Release(now) =>
      ClampFresh(p.entries, now);
      ClampTotal(Fresh(p.entries, now));
      ClampDrain(Fresh(p.entries, now), ReleaseAmount(p.entries, now));
  }

  lemma {:induction false} ClampRun(events: seq<Event>)
    ensures FifoRun(ClampEvents(events)) == ClampPool(FifoRun(events))
    decreases |events|
  {
    hide FifoStep;
    if events != [] {
      var n := |events| - 1;
      ClampRun(events[..n]);
      assert ClampEvents(events)[..n] == ClampEvents(events[..n]);
      ClampStep(FifoRun(events[..n]), events[n]);
    }
  }

  lemma ClampPolicyStep(p: Pool, ev: Event, q: Pool)
    requires PolicyStep(p, ev, q)
    ensures PolicyStep(ClampPool(p), ClampEvent(ev), ClampPool(q))
  {
    hide Total, Fresh;
    match ev
    case Deposit(amount, epoch) =>
      if q.entries != p.entries {
        var a: U64 :| a <= amount && q.entries == p.entries + [Entry(epoch, a)];
        ClampConcat(p.entries, [Entry(epoch, a)]);
        assert ClampAll(q.entries) == ClampAll(p.entries) + [Entry(Clamp(epoch), a)];
      }
    case Release(now) =>
      ClampFresh(p.entries, now);
      ClampTotal(Fresh(p.entries, now));
      ClampTotal(q.entries);
  }

  lemma ClampOffered(events: seq<Event>, i: nat)
    requires i < |events|
    ensures Offered(ClampEvents(events), i) == ClampEvent(Offered(events, i))
  {
    hide FifoRun, Total;
    assert ClampEvents(events)[..i] == ClampEvents(events[..i]);
    ClampRun(events[..i]);
    ClampTotal(FifoRun(events[..i]).entries);
  }

  /** A policy on the run is a policy on the run with clamped epochs, with the same payments. */
  lemma ClampPolicyRun(events: seq<Event>, states: seq<Pool>) returns (clamped: seq<Pool>)
    requires PolicyRun(events, states)
    ensures PolicyRun(ClampEvents(events), clamped)
    ensures |clamped| == |states| && forall i :: 0 <= i < |states| ==> clamped[i] == ClampPool(states[i])
  {
    hide PolicyStep, Offered;
    clamped := seq(|states|, i requires 0 <= i < |states| => ClampPool(states[i]));
    forall i | 0 <= i < |events|
      ensures PolicyStep(clamped[i], Offered(ClampEvents(events), i), clamped[i + 1])
    {
      ClampOffered(events, i);
      ClampPolicyStep(states[i], Offered(events, i), states[i + 1]);
    }
  }

  // ----- Where the deposits of a run are -----

  lemma {:induction false} EpochPosition(events: seq<Event>, i: nat)
    requires i < |events| && events[i].Deposit?
    ensures |DepositEpochs(events[..i])| < |DepositEpochs(events)|
    ensures DepositEpochs(events)[|DepositEpochs(events[..i])|] == events[i].epoch
    decreases |events|
  {
    var n := |events| - 1;
    if i < n {
      EpochPosition(events[..n], i);
      assert events[..n][..i] == events[..i];
    }
  }

  /** Orderly deposits are in epoch order once epochs that never expire are identified. */
  lemma OrderlyClamped(events: seq<Event>)
    requires Orderly(DepositEpochs(events))
    ensures EpochOrder(ClampEvents(events))
  {
    hide DepositEpochs;
    forall i, j | 0 <= i < j < |events| && events[i].Deposit? && events[j].Deposit?
      ensures ClampEvents(events)[i].epoch <= ClampEvents(events)[j].epoch
    {
      EpochPosition(events, i);
      EpochPosition(events, j);
      EpochPosition(events[..j], i);
      assert events[..j][..i] == events[..i];
    }
  }

  /** Enough: with orderly deposits no policy pays out more. */
  lemma OrderlyUnbeaten(events: seq<Event>)
    requires Orderly(DepositEpochs(events))
    ensures Unbeaten(events)
  {
    hide PolicyRun, FifoRun, Orderly, EpochOrder;
    forall states: seq<Pool>, k: nat | PolicyRun(events, states) && k <= |events|
      ensures |states| == |events| + 1 && FifoRun(events[..k]).released >= states[k].released
    {
      PolicyLength(events, states);
      var clamped := ClampPolicyRun(events, states);
      OrderlyClamped(events);
      FifoReleasesMost(ClampEvents(events), clamped, k);
      assert ClampEvents(events)[..k] == ClampEvents(events[..k]);
      ClampRun(events[..k]);
    }
  }

  lemma PolicyLength(events: seq<Event>, states: seq<Pool>)
    requires PolicyRun(events, states)
    ensures |states| == |events| + 1
  {
  }

  // ----- An inversion loses -----

  /** Two deposits of one full release each, at i and j, and deposits of nothing for the other epochs. */
  function Offers(epochs: seq<U64>, i: nat, j: nat, k: nat): (r: seq<Event>)
    requires k <= |epochs|
    ensures |r| == k
  {
    seq(k, t requires 0 <= t < k => Deposit(if t == i || t == j then MAX_RELEASE else 0, epochs[t]))
  }

  /** What is then held after k deposits. */
  function Holding(x: U64, y: U64, i: nat, j: nat, k: nat): seq<Entry> {
    (if k > i then [Entry(x, MAX_RELEASE)] else []) + (if k > j then [Entry(y, MAX_RELEASE)] else [])
  }

  lemma HoldingTotal(x: U64, y: U64, i: nat, j: nat, k: nat)
    ensures Total(Holding(x, y, i, j, k)) == (if k > i then MAX_RELEASE else 0) + (if k > j then MAX_RELEASE else 0)
  {
    hide Total;
    TotalOne(Entry(x, MAX_RELEASE));
    TotalOne(Entry(y, MAX_RELEASE));
    EmptyTotal();
    TotalAppend(if k > i then [Entry(x, MAX_RELEASE)] else [], if k > j then [Entry(y, MAX_RELEASE)] else []);
  }

  lemma HoldingStep(epochs: seq<U64>, i: nat, j: nat, k: nat)
    requires i < j < |epochs| && k < |epochs|
    ensures var es := Holding(epochs[i], epochs[j], i, j, k);
      var ev := Offers(epochs, i, j, k + 1)[k];
      && Total(es) + ev.amount <= S_E_SSCL
      && Holding(epochs[i], epochs[j], i, j, k + 1) == if ev.amount == 0 then es else es + [Entry(ev.epoch, ev.amount)]
  {
    HoldingTotal(epochs[i], epochs[j], i, j, k);
  }

  lemma {:induction false} OffersRun(epochs: seq<U64>, i: nat, j: nat, k: nat)
    requires i < j < |epochs| && k <= |epochs|
    ensures FifoRun(Offers(epochs, i, j, k)) == Pool(Holding(epochs[i], epochs[j], i, j, k), 0)
    decreases k
  {
    hide FifoRun, Total;
    if k == 0 {
      EmptyRun();
    } else {
      OffersRun(epochs, i, j, k - 1);
      HoldingStep(epochs, i, j, k - 1);
      var events := Offers(epochs, i, j, k);
      assert Offers(epochs, i, j, k - 1) + [events[k - 1]] == events;
      FifoRunPush(Offers(epochs, i, j, k - 1), events[k - 1]);
    }
  }

  lemma {:induction false} OffersEpochs(epochs: seq<U64>, i: nat, j: nat, k: nat)
    requires k <= |epochs|
    ensures DepositEpochs(Offers(epochs, i, j, k)) == epochs[..k]
    decreases k
  {
    if k > 0 {
      OffersEpochs(epochs, i, j, k - 1);
      assert Offers(epochs, i, j, k)[..k - 1] == Offers(epochs, i, j, k - 1);
    }
  }

  /** The later epoch first: the pool pays the entry of epoch x, and the one of epoch y expires. */
  lemma TwoReleases(events: seq<Event>, x: U64, y: U64)
    requires y < x && y < NEVER_EXPIRES
    requires FifoRun(events) == Pool([Entry(x, MAX_RELEASE), Entry(y, MAX_RELEASE)], 0)
    ensures FifoRun(events + [Release(y + 12)]) == Pool([Entry(y, MAX_RELEASE)], MAX_RELEASE)
    ensures FifoRun(events + [Release(y + 12)] + [Release(y + 13)]) == Pool([], MAX_RELEASE)
  {
    hide FifoRun;
    var a, b := Entry(x, MAX_RELEASE), Entry(y, MAX_RELEASE);
    FifoRunRelease(events, y + 12);
    FreshTwo(a, b, y + 12);
    assert Fresh([a, b], y + 12) == [a, b];
    TotalTwo(a, b);
    DrainFirst(a, b);
    FifoRunRelease(events + [Release(y + 12)], y + 13);
    assert Fresh([b], y + 13) == [];
  }

  lemma TotalTwo(a: Entry, b: Entry)
    ensures Total([a, b]) == a.amount + b.amount
  {
    TotalAppend([a], [b]);
    assert [a] + [b] == [a, b];
    TotalOne(a);
    TotalOne(b);
  }

  lemma DrainFirst(a: Entry, b: Entry)
    ensures Drain([a, b], a.amount) == if a.amount == 0 then [a, b] else [b]
  {
    assert [a, b][1..] == [b];
    DrainZero([b]);
  }

  /** The policy that pays the entry of epoch y first, and the other one afterwards. */
  lemma YoungerLast(x: U64, y: U64)
    requires y < x && y < NEVER_EXPIRES
    ensures var m := MAX_RELEASE;
      var s := Pool([Entry(x, m), Entry(y, 0)], m);
      && PolicyStep(Pool([Entry(x, m), Entry(y, m)], 0), Release(y + 12), s)
      && PolicyStep(s, Release(y + 13), Pool([Entry(x, 0)], 2 * m))
  {
    hide Total, Fresh;
    var m: U64 := MAX_RELEASE;
    var a, b, c := Entry(x, m), Entry(y, m), Entry(y, 0);
    FreshTwo(a, b, y + 12);
    FreshTwo(a, c, y + 13);
    assert Fresh([a, b], y + 12) == [a, b] && Fresh([a, c], y + 13) == [a];
    TotalTwo(a, b);
    TotalTwo(a, c);
    TotalOne(a);
    TotalOne(Entry(x, 0));
  }

  /** While the deposits come in, a policy may hold what this pool holds. */
  lemma SameDeposits(epochs: seq<U64>, i: nat, j: nat, events: seq<Event>, k: nat)
    requires i < j < |epochs| && k < |epochs| <= |events| && events[..|epochs|] == Offers(epochs, i, j, |epochs|)
    ensures PolicyStep(Pool(Holding(epochs[i], epochs[j], i, j, k), 0), Offered(events, k),
                       Pool(Holding(epochs[i], epochs[j], i, j, k + 1), 0))
  {
    hide FifoRun, Total;
    var es, es' := Holding(epochs[i], epochs[j], i, j, k), Holding(epochs[i], epochs[j], i, j, k + 1);
    var ev := Offers(epochs, i, j, k + 1)[k];
    assert events[..k] == events[..|epochs|][..k] == Offers(epochs, i, j, k);
    assert events[k] == events[..|epochs|][k] == ev;
    OffersRun(epochs, i, j, k);
    HoldingStep(epochs, i, j, k);
    assert Offered(events, k) == ev;
  }

  /** The run: the deposits, then a release before and one after the entry of the earlier epoch expires. */
  function InversionRun(epochs: seq<U64>, i: nat, j: nat): seq<Event>
    requires i < j < |epochs| && epochs[j] < NEVER_EXPIRES
  {
    Offers(epochs, i, j, |epochs|) + [Release(epochs[j] + 12)] + [Release(epochs[j] + 13)]
  }

  /** The states of the other policy on that run. */
  function InversionStates(epochs: seq<U64>, i: nat, j: nat): seq<Pool>
    requires i < j < |epochs|
  {
    var x, y, m := epochs[i], epochs[j], MAX_RELEASE;
    seq(|epochs| + 1, (k: nat) => Pool(Holding(x, y, i, j, k), 0))
    + [Pool([Entry(x, m), Entry(y, 0)], m), Pool([Entry(x, 0)], 2 * m)]
  }

  lemma InversionPolicy(epochs: seq<U64>, i: nat, j: nat)
    requires i < j < |epochs| && epochs[j] < epochs[i] && epochs[j] < NEVER_EXPIRES
    ensures PolicyRun(InversionRun(epochs, i, j), InversionStates(epochs, i, j))
  {
    hide FifoRun, PolicyStep, Offers;
    var n, events, states := |epochs|, InversionRun(epochs, i, j), InversionStates(epochs, i, j);
    assert events[..n] == Offers(epochs, i, j, n);
    YoungerLast(epochs[i], epochs[j]);
    assert Holding(epochs[i], epochs[j], i, j, n) == [Entry(epochs[i], MAX_RELEASE), Entry(epochs[j], MAX_RELEASE)];
    assert events[n] == Release(epochs[j] + 12) && events[n + 1] == Release(epochs[j] + 13);
    forall k | 0 <= k < |events|
      ensures PolicyStep(states[k], Offered(events, k), states[k + 1])
    {
      if k < n {
        SameDeposits(epochs, i, j, events, k);
      }
    }
  }

  /** For every inversion there is a run with these deposit epochs on which another policy pays twice as much. */
  lemma InversionLoses(epochs: seq<U64>, i: nat, j: nat) returns (events: seq<Event>, states: seq<Pool>)
    requires i < j < |epochs| && epochs[j] < epochs[i] && epochs[j] < NEVER_EXPIRES
    ensures DepositEpochs(events) == epochs && PolicyRun(events, states)
    ensures FifoRun(events).released == MAX_RELEASE && states[|events|].released == 2 * MAX_RELEASE
  {
    hide FifoRun, PolicyRun, DepositEpochs, Offers;
    var n, offers := |epochs|, Offers(epochs, i, j, |epochs|);
    events, states := InversionRun(epochs, i, j), InversionStates(epochs, i, j);
    InversionPolicy(epochs, i, j);
    OffersRun(epochs, i, j, n);
    TwoReleases(offers, epochs[i], epochs[j]);
    OffersEpochs(epochs, i, j, n);
    ReleasesHaveNoEpoch(offers, epochs[j] + 12);
    ReleasesHaveNoEpoch(offers + [Release(epochs[j] + 12)], epochs[j] + 13);
  }

  lemma ReleasesHaveNoEpoch(events: seq<Event>, now: U64)
    ensures DepositEpochs(events + [Release(now)]) == DepositEpochs(events)
  {
    assert (events + [Release(now)])[..|events|] == events;
  }

  /**
   * Exactly when oldest-first release is optimal: for a list of deposit epochs, no policy beats this pool
   * on any run with these deposits if and only if no deposit that can expire comes after one of a later epoch.
   */
  lemma UnbeatenIffOrderly(epochs: seq<U64>)
    ensures (forall events: seq<Event> :: DepositEpochs(events) == epochs ==> Unbeaten(events)) <==> Orderly(epochs)
  {
    hide DepositEpochs, FifoRun, PolicyRun;
    if Orderly(epochs) {
      forall events: seq<Event> | DepositEpochs(events) == epochs
        ensures Unbeaten(events)
      {
        OrderlyUnbeaten(events);
      }
    } else {
      var i, j :| 0 <= i < j < |epochs| && !(epochs[i] <= epochs[j] || epochs[j] >= NEVER_EXPIRES);
      var events, states := InversionLoses(epochs, i, j);
      assert events[..|events|] == events;
      assert !Unbeaten(events);
    }
  }

  // ----- Oldest first, on one list of entries -----

  /** Draining any amount takes it from the oldest epochs. */
  ghost predicate TakesOldest(es: seq<Entry>) {
    forall r: nat, e: int :: r <= Total(es) ==> HeldUpTo(Drain(es, r), e) == Max(0, HeldUpTo(es, e) - r)
  }

  lemma {:induction false} DrainPrefix(es: seq<Entry>, i: nat)
    requires i <= |es| && Positive(es)
    ensures Total(es[..i]) <= Total(es) && Drain(es, Total(es[..i])) == es[i..]
    decreases i
  {
    if i > 0 {
      assert es[..i][0] == es[0] && es[..i][1..] == es[1..][..i - 1] && es[1..][i - 1..] == es[i..];
      DrainPrefix(es[1..], i - 1);
    } else {
      DrainZero(es);
    }
  }

  lemma {:induction false} HeldStrictly(es: seq<Entry>, e: int, k: nat)
    requires k < |es| && Positive(es)
    ensures es[k].epoch > e ==> HeldUpTo(es, e) < Total(es)
    ensures es[k].epoch <= e ==> HeldUpTo(es, e) > 0
    decreases |es|
  {
    HeldFromBounds(es[1..], e + 1);
    if k > 0 {
      HeldStrictly(es[1..], e, k - 1);
    }
  }

  lemma HeldSplit(es: seq<Entry>, i: nat, e: int)
    requires i <= |es|
    ensures HeldUpTo(es, e) == HeldUpTo(es[..i], e) + HeldUpTo(es[i..], e)
  {
    assert es[..i] + es[i..] == es;
    TotalAppend(es[..i], es[i..]);
    HeldFromAppend(es[..i], es[i..], e + 1);
  }

  /** The FIFO loop takes the oldest entries first if and only if the list is in epoch order. */
  lemma TakesOldestIffSorted(es: seq<Entry>)
    requires Positive(es)
    ensures TakesOldest(es) <==> SortedByEpoch(es)
  {
    hide Total, HeldUpTo, Drain;
    if SortedByEpoch(es) {
      forall r: nat, e: int | r <= Total(es)
        ensures HeldUpTo(Drain(es, r), e) == Max(0, HeldUpTo(es, e) - r)
      {
        DrainHeldUpTo(es, r, e);
      }
    } else {
      var i, j :| 0 <= i < j < |es| && es[i].epoch > es[j].epoch;
      var r, e := Total(es[..i + 1]), es[j].epoch;
      DrainPrefix(es, i + 1);
      HeldSplit(es, i + 1, e);
      HeldStrictly(es[..i + 1], e, i);
      HeldStrictly(es[i + 1..], e, j - i - 1);
      assert HeldUpTo(Drain(es, r), e) != Max(0, HeldUpTo(es, e) - r);
    }
  }
}

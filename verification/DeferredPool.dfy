// The deferred emission pool of core/scalar-emission/src/accounting.rs.
module DeferredPool {
  import opened Words
  import opened Accumulator

  const MAX_RELEASE: int := E0_SSCL / 10
  const MAX_EPOCHS: int := 12

  datatype Entry = Entry(epoch: U64, amount: U64)

  function Min(a: int, b: int): int { if a <= b then a else b }
  function Max(a: int, b: int): int { if a >= b then a else b }

  // ----- Amounts held -----

  function Total(es: seq<Entry>): nat {
    if es == [] then 0 else es[0].amount + Total(es[1..])
  }

  /** The amount held from epoch e on. */
  function HeldFrom(es: seq<Entry>, e: int): nat {
    if es == [] then 0 else (if es[0].epoch >= e then es[0].amount else 0) + HeldFrom(es[1..], e)
  }

  lemma {:induction false} TotalAppend(a: seq<Entry>, b: seq<Entry>)
    ensures Total(a + b) == Total(a) + Total(b)
    decreases |a|
  {
    if a == [] {
      assert a + b == b;
    } else {
      TotalAppend(a[1..], b);
      assert (a + b)[1..] == a[1..] + b;
    }
  }

  lemma {:induction false} HeldFromAppend(a: seq<Entry>, b: seq<Entry>, e: int)
    ensures HeldFrom(a + b, e) == HeldFrom(a, e) + HeldFrom(b, e)
    decreases |a|
  {
    if a == [] {
      assert a + b == b;
    } else {
      HeldFromAppend(a[1..], b, e);
      assert (a + b)[1..] == a[1..] + b;
    }
  }

  lemma {:induction false} HeldFromBounds(es: seq<Entry>, e: int)
    ensures HeldFrom(es, e) <= Total(es)
    ensures e <= 0 ==> HeldFrom(es, e) == Total(es)
    decreases |es|
  {
    if es != [] {
      HeldFromBounds(es[1..], e);
    }
  }

  // ----- Expiry -----

  /** current_epoch.saturating_sub(deferred_epoch) <= 12. */
  predicate Live(x: Entry, now: U64) { SatSub(now, x.epoch) <= MAX_EPOCHS }

  /** retain: the entries that are not older than 12 epochs. */
  function Fresh(es: seq<Entry>, now: U64): seq<Entry> {
    if es == [] then [] else (if Live(es[0], now) then [es[0]] else []) + Fresh(es[1..], now)
  }

  /** Expiry is a cut by age: what remains from epoch e on is what was held from max(e, now - 12) on. */
  lemma {:induction false} FreshHeldFrom(es: seq<Entry>, now: U64, e: int)
    ensures HeldFrom(Fresh(es, now), e) == HeldFrom(es, Max(e, now - MAX_EPOCHS))
    decreases |es|
  {
    if es != [] {
      FreshHeldFrom(es[1..], now, e);
      HeldFromAppend(if Live(es[0], now) then [es[0]] else [], Fresh(es[1..], now), e);
      assert HeldFrom([es[0]], e) == (if es[0].epoch >= e then es[0].amount else 0) + HeldFrom([], e);
    }
  }

  lemma FreshTotal(es: seq<Entry>, now: U64)
    ensures Total(Fresh(es, now)) == HeldFrom(es, now - MAX_EPOCHS) <= Total(es)
  {
    HeldFromBounds(Fresh(es, now), Min(0, now - MAX_EPOCHS));
    FreshHeldFrom(es, now, Min(0, now - MAX_EPOCHS));
    HeldFromBounds(es, now - MAX_EPOCHS);
  }

  // ----- FIFO draining -----

  /** Take r from the front: whole entries while they fit, then part of one. */
  function Drain(es: seq<Entry>, r: nat): seq<Entry>
    decreases |es|
  {
    if es == [] || r == 0 then es
    else if es[0].amount <= r then Drain(es[1..], r - es[0].amount)
    else [Entry(es[0].epoch, es[0].amount - r)] + es[1..]
  }

  predicate SortedByEpoch(es: seq<Entry>) {
    forall i, j :: 0 <= i < j < |es| ==> es[i].epoch <= es[j].epoch
  }

  predicate Positive(es: seq<Entry>) {
    forall i :: 0 <= i < |es| ==> es[i].amount > 0
  }

  lemma DrainZero(es: seq<Entry>)
    ensures Drain(es, 0) == es
  {
  }

  lemma {:induction false} DrainTotal(es: seq<Entry>, r: nat)
    requires r <= Total(es)
    ensures Total(Drain(es, r)) == Total(es) - r
    decreases |es|
  {
    if es != [] && r > 0 && es[0].amount <= r {
      DrainTotal(es[1..], r - es[0].amount);
    }
  }

  lemma {:induction false} HeldFromAll(es: seq<Entry>, e: int)
    requires forall i :: 0 <= i < |es| ==> es[i].epoch >= e
    ensures HeldFrom(es, e) == Total(es)
    decreases |es|
  {
    if es != [] {
      HeldFromAll(es[1..], e);
    }
  }

  /**
   * Oldest first: on entries in epoch order, draining r keeps, from every epoch e on, as much as
   * any way of removing r could keep: everything, or whatever is left in total.
   */
  lemma {:induction false} DrainHeldFrom(es: seq<Entry>, r: nat, e: int)
    requires SortedByEpoch(es) && r <= Total(es)
    ensures HeldFrom(Drain(es, r), e) == Min(HeldFrom(es, e), Total(es) - r)
    decreases |es|
  {
    HeldFromBounds(es, e);
    if es == [] || r == 0 {
    } else if es[0].epoch >= e {
      assert forall i :: 0 <= i < |es| ==> es[i].epoch >= es[0].epoch;
      HeldFromAll(es, e);
      DrainTotal(es, r);
      DrainEpochs(es, r, e);
      HeldFromAll(Drain(es, r), e);
    } else if es[0].amount <= r {
      DrainHeldFrom(es[1..], r - es[0].amount, e);
    } else {
      HeldFromBounds(es[1..], e);
    }
  }

  lemma {:induction false} DrainEpochs(es: seq<Entry>, r: nat, e: int)
    requires forall i :: 0 <= i < |es| ==> es[i].epoch >= e
    ensures forall i :: 0 <= i < |Drain(es, r)| ==> Drain(es, r)[i].epoch >= e
    decreases |es|
  {
    if es != [] && r > 0 && es[0].amount <= r {
      DrainEpochs(es[1..], r - es[0].amount, e);
    }
  }

  /** The amount held up to epoch e. */
  function HeldUpTo(es: seq<Entry>, e: int): int { Total(es) - HeldFrom(es, e + 1) }

  /** A release takes from the oldest epochs only what they hold: the rest is max(0, before - r). */
  lemma DrainHeldUpTo(es: seq<Entry>, r: nat, e: int)
    requires SortedByEpoch(es) && r <= Total(es)
    ensures HeldUpTo(Drain(es, r), e) == Max(0, HeldUpTo(es, e) - r)
  {
    DrainHeldFrom(es, r, e + 1);
    DrainTotal(es, r);
    HeldFromBounds(es, e + 1);
  }

  // ----- One operation, as a function on entries -----

  /** What a deposit adds: the amount, capped so that the pool never holds more than S_E. */
  function Accepted(es: seq<Entry>, amount: U64): int { Min(amount, S_E_SSCL - Total(es)) }

  function Deposited(es: seq<Entry>, amount: U64, epoch: U64): seq<Entry>
    requires Total(es) <= S_E_SSCL
  {
    if Accepted(es, amount) == 0 then es else es + [Entry(epoch, Accepted(es, amount))]
  }

  /** What a release pays: everything that has not expired, up to a tenth of E0. */
  function ReleaseAmount(es: seq<Entry>, now: U64): nat { Min(Total(Fresh(es, now)), MAX_RELEASE) }

  function AfterRelease(es: seq<Entry>, now: U64): seq<Entry> { Drain(Fresh(es, now), ReleaseAmount(es, now)) }

  lemma {:induction false} FreshKeeps(es: seq<Entry>, now: U64)
    ensures forall i :: 0 <= i < |Fresh(es, now)| ==> Live(Fresh(es, now)[i], now)
    ensures Positive(es) ==> Positive(Fresh(es, now))
    decreases |es|
  {
    if es != [] {
      FreshKeeps(es[1..], now);
    }
  }

  lemma {:induction false} FreshSorted(es: seq<Entry>, now: U64, low: int)
    requires SortedByEpoch(es) && forall i :: 0 <= i < |es| ==> es[i].epoch >= low
    ensures SortedByEpoch(Fresh(es, now)) && forall i :: 0 <= i < |Fresh(es, now)| ==> Fresh(es, now)[i].epoch >= low
    decreases |es|
  {
    if es != [] {
      assert forall i :: 0 <= i < |es[1..]| ==> es[1..][i].epoch >= es[0].epoch;
      FreshSorted(es[1..], now, es[0].epoch);
    }
  }

  lemma {:induction false} DrainKeeps(es: seq<Entry>, r: nat, now: U64)
    requires Positive(es) && forall i :: 0 <= i < |es| ==> Live(es[i], now)
    ensures Positive(Drain(es, r)) && forall i :: 0 <= i < |Drain(es, r)| ==> Live(Drain(es, r)[i], now)
    decreases |es|
  {
    if es != [] && r > 0 && es[0].amount <= r {
      DrainKeeps(es[1..], r - es[0].amount, now);
    }
  }

  /** What a release does to the entries, put together. */
  lemma ReleaseFacts(es: seq<Entry>, now: U64)
    requires Positive(es)
    ensures var alive, after, r := Fresh(es, now), AfterRelease(es, now), ReleaseAmount(es, now);
      && r == Min(Total(alive), MAX_RELEASE) && Total(alive) <= Total(es) && Positive(alive)
      && Total(after) == Total(alive) - r && Positive(after)
      && (forall i :: 0 <= i < |after| ==> Live(after[i], now))
      && after == Drain(alive, r) && (r == 0 ==> after == alive)
  {
    hide Total, Live, Fresh, Drain;
    var alive, r := Fresh(es, now), ReleaseAmount(es, now);
    FreshTotal(es, now);
    FreshKeeps(es, now);
    DrainTotal(alive, r);
    DrainKeeps(alive, r, now);
    DrainZero(alive);
  }

  lemma {:induction false} DrainSorted(es: seq<Entry>, r: nat, high: int)
    requires SortedByEpoch(es) && forall i :: 0 <= i < |es| ==> es[i].epoch <= high
    ensures SortedByEpoch(Drain(es, r)) && forall i :: 0 <= i < |Drain(es, r)| ==> Drain(es, r)[i].epoch <= high
    decreases |es|
  {
    if es != [] && r > 0 && es[0].amount <= r {
      DrainSorted(es[1..], r - es[0].amount, high);
    }
  }

  // ----- The pool -----

  function KeepPositive(es: seq<Entry>): seq<Entry> {
    if es == [] then [] else (if es[0].amount > 0 then [es[0]] else []) + KeepPositive(es[1..])
  }

  lemma {:induction false} KeepPositiveSuffix(es: seq<Entry>, i: nat)
    requires i <= |es| && (forall k :: 0 <= k < i ==> es[k].amount == 0) && Positive(es[i..])
    ensures KeepPositive(es) == es[i..]
    decreases |es|
  {
    if es != [] {
      if i == 0 {
        assert es[0] == es[0..][0];
        assert forall k :: 0 <= k < |es[1..]| ==> es[1..][0..][k] == es[0..][k + 1];
        KeepPositiveSuffix(es[1..], 0);
      } else {
        assert es[1..][i - 1..] == es[i..];
        KeepPositiveSuffix(es[1..], i - 1);
      }
    }
  }

  class DeferredEmissionPool {
    var entries: seq<Entry>
    var total: U64
    var totalReleased: U64
    var totalDeposited: U64
    // exact histories of the saturating counters, and the expired amount the source does not record
    ghost var deposited: nat
    ghost var released: nat
    ghost var expired: nat
    ghost var history: seq<Event>  // every operation since creation

    /** The pool is bounded, nothing accepted is lost except by expiry, and the state is that of the run so far. */
    ghost predicate Valid()
      reads this
    {
      && Positive(entries)
      && total == Total(entries) <= S_E_SSCL
      && deposited == released + expired + total
      && totalDeposited == Min(deposited, U64_MAX)
      && totalReleased == Min(released, U64_MAX)
      && Pool(entries, released) == FifoRun(history)
    }

    constructor ()
      ensures Valid() && history == [] && entries == [] && deposited == released == expired == 0
    {
      history := [];
      entries := [];
      total, totalReleased, totalDeposited := 0, 0, 0;
      deposited, released, expired := 0, 0, 0;
    }

    /** deposit. */
    method Deposit(amount: U64, epoch: U64)
      requires Valid()
      modifies this
      ensures Valid() && history == old(history) + [Event.Deposit(amount, epoch)]
      ensures entries == Deposited(old(entries), amount, epoch)
      ensures deposited == old(deposited) + Accepted(old(entries), amount)
      ensures total == Min(old(total) + amount, 1_890_000_000_000_000)
      ensures released == old(released) && expired == old(expired)
    {
      hide FifoRun, Total;
      FifoRunPush(history, Event.Deposit(amount, epoch));
      history := history + [Event.Deposit(amount, epoch)];
      if amount == 0 {
        return;
      }
      var newTotal := SatAdd(total, amount);
      var capped := if newTotal <= S_E_SSCL then newTotal else S_E_SSCL;
      var actual := SatSub(capped, total);
      if actual == 0 {
        return;
      }
      TotalAppend(entries, [Entry(epoch, actual)]);
      TotalOne(Entry(epoch, actual));
      entries := entries + [Entry(epoch, actual)];
      total := SatAdd(total, actual);
      totalDeposited := SatAdd(totalDeposited, actual);
      deposited := deposited + actual;
    }

    /** release: expire, pay at most a tenth of E0, oldest entries first. */
    method Release(now: U64) returns (amount: U64)
      requires Valid()
      modifies this
      ensures Valid() && history == old(history) + [Event.Release(now)]
      ensures amount == ReleaseAmount(old(entries), now) == Min(Total(Fresh(old(entries), now)), 1_260_000_000_000)
      ensures entries == AfterRelease(old(entries), now)
      ensures released == old(released) + amount && deposited == old(deposited)
      ensures expired == old(expired) + (Total(old(entries)) - Total(Fresh(old(entries), now)))
      ensures forall i :: 0 <= i < |entries| ==> Live(entries[i], now)
    {
      hide Total, Live, FifoRun, FifoStep, Fresh, Drain, Positive, AfterRelease, ReleaseAmount;
      FifoRunRelease(history, now);
      history := history + [Event.Release(now)];
      ReleaseFacts(entries, now);
      ghost var before := entries;
      RetainLive(now);
      expired := expired + (Total(before) - Total(entries));
      total := Total(entries);
      amount := if total <= MAX_RELEASE then total else MAX_RELEASE;
      if amount > 0 {
        TakeFromFront(amount);
        total := SatSub(total, amount);
        totalReleased := SatAdd(totalReleased, amount);
        released := released + amount;
      }
    }

    method RetainLive(now: U64)
      modifies this`entries
      ensures entries == Fresh(old(entries), now)
    {
      var kept, k := [], |entries|;
      while k > 0
        invariant 0 <= k <= |entries| && entries == old(entries)
        invariant kept == Fresh(entries[k..], now)
      {
        k := k - 1;
        assert entries[k..][1..] == entries[k + 1..];
        if Live(entries[k], now) {
          kept := [entries[k]] + kept;
        }
      }
      assert entries[0..] == entries;
      entries := kept;
    }

    /** The FIFO loop and the final retain: amounts are reduced in place, empty entries dropped. */
    method TakeFromFront(amount: U64)
      requires Positive(entries)
      modifies this`entries
      ensures entries == Drain(old(entries), amount)
    {
      ghost var goal := Drain(entries, amount);
      var remaining, i := amount, 0;
      assert entries[0..] == entries;
      while i < |entries| && remaining > 0
        invariant 0 <= i <= |entries| && remaining >= 0
        invariant forall k :: 0 <= k < i ==> entries[k].amount == 0
        invariant Positive(entries[i..])
        invariant goal == Drain(entries[i..], remaining)
        decreases remaining, |entries| - i
      {
        var head := entries[i];
        assert entries[i..][0] == head && entries[i..][1..] == entries[i + 1..];
        if head.amount <= remaining {
          remaining := SatSub(remaining, head.amount);
          entries := entries[i := Entry(head.epoch, 0)];
          i := i + 1;
        } else {
          entries := entries[i := Entry(head.epoch, SatSub(head.amount, remaining))];
          assert entries[i..] == [entries[i]] + entries[i + 1..];
          remaining := 0;
        }
      }
      assert goal == entries[i..];
      KeepPositiveSuffix(entries, i);
      entries := KeepPositive(entries);
    }

    /** verify_invariant: always true of a reachable pool and its last release. */
    method VerifyInvariant(releaseThisEpoch: U64) returns (ok: bool)
      requires Valid()
      ensures ok <==> releaseThisEpoch <= 1_260_000_000_000
    {
      ok := total <= S_E_SSCL && releaseThisEpoch <= MAX_RELEASE;
    }
  }

  // ----- Runs -----

  datatype Event = Deposit(amount: U64, epoch: U64) | Release(now: U64)

  datatype Pool = Pool(entries: seq<Entry>, released: nat)

  /** The effect of one operation of the class. */
  function FifoStep(p: Pool, ev: Event): Pool
    requires Total(p.entries) <= S_E_SSCL
  {
    match ev
    case Deposit(amount, epoch) => Pool(Deposited(p.entries, amount, epoch), p.released)
    case Release(now) => Pool(AfterRelease(p.entries, now), p.released + ReleaseAmount(p.entries, now))
  }

  lemma FifoStepBounded(p: Pool, ev: Event)
    requires Total(p.entries) <= S_E_SSCL
    ensures Total(FifoStep(p, ev).entries) <= S_E_SSCL
  {
    match ev
    case Deposit(amount, epoch) =>
      TotalAppend(p.entries, [Entry(epoch, Accepted(p.entries, amount))]);
    case Release(now) =>
      FreshTotal(p.entries, now);
      DrainTotal(Fresh(p.entries, now), ReleaseAmount(p.entries, now));
  }

  /** The pool after a run of operations from the empty pool. */
  function FifoRun(events: seq<Event>): (p: Pool)
    ensures Total(p.entries) <= S_E_SSCL
  {
    if events == [] then Pool([], 0)
    else
      var p := FifoRun(events[..|events| - 1]);
      FifoStepBounded(p, events[|events| - 1]);
      FifoStep(p, events[|events| - 1])
  }

  lemma FifoRunPush(events: seq<Event>, ev: Event)
    ensures FifoRun(events + [ev]) == FifoStep(FifoRun(events), ev)
  {
    hide FifoStep;
    assert (events + [ev])[..|events|] == events;
  }

  lemma FifoRunRelease(events: seq<Event>, now: U64)
    ensures var p := FifoRun(events);
      FifoRun(events + [Release(now)]) == Pool(AfterRelease(p.entries, now), p.released + ReleaseAmount(p.entries, now))
  {
    hide FifoRun, AfterRelease, ReleaseAmount;
    FifoRunPush(events, Release(now));
  }

  /** What is offered at step i of a run: the event, with a deposit cut to what this pool accepts of it. */
  function Offered(events: seq<Event>, i: nat): Event
    requires i < |events|
  {
    match events[i]
    case Deposit(amount, epoch) => Deposit(Accepted(FifoRun(events[..i]).entries, amount), epoch)
    case Release(now) => Release(now)
  }

  /**
   * Any other way to run the pool: a deposit adds at most what is offered; a release drops the expired
   * entries and pays at most a tenth of E0, out of whichever entries it likes.
   */
  ghost predicate PolicyStep(p: Pool, ev: Event, q: Pool) {
    match ev
    case Deposit(amount, epoch) =>
      && q.released == p.released
      && (q.entries == p.entries || exists a: U64 :: a <= amount && q.entries == p.entries + [Entry(epoch, a)])
    case Release(now) =>
      var alive := Fresh(p.entries, now);
      && |q.entries| == |alive|
      && (forall i :: 0 <= i < |alive| ==>
            q.entries[i].epoch == alive[i].epoch && q.entries[i].amount <= alive[i].amount)
      && q.released - p.released == Total(alive) - Total(q.entries) <= MAX_RELEASE
  }

  /** A run of another policy: the states before the first event, between events, and after the last. */
  ghost predicate PolicyRun(events: seq<Event>, states: seq<Pool>) {
    && |states| == |events| + 1
    && states[0] == Pool([], 0)
    && forall i :: 0 <= i < |events| ==> PolicyStep(states[i], Offered(events, i), states[i + 1])
  }

  /** Deposits arrive in epoch order. */
  ghost predicate EpochOrder(events: seq<Event>) {
    forall i, j :: 0 <= i < j < |events| && events[i].Deposit? && events[j].Deposit? ==>
      events[i].epoch <= events[j].epoch
  }

  /** FIFO is ahead: from every epoch on, what it has released plus what it still holds is at least as much. */
  ghost predicate Ahead(f: Pool, q: Pool) {
    forall e: int :: f.released + HeldFrom(f.entries, e) >= q.released + HeldFrom(q.entries, e)
  }

  lemma {:induction false} ReducedHeldFrom(a: seq<Entry>, b: seq<Entry>, e: int)
    requires |a| == |b| && forall i :: 0 <= i < |a| ==> b[i].epoch == a[i].epoch && b[i].amount <= a[i].amount
    ensures HeldFrom(b, e) <= HeldFrom(a, e)
    decreases |a|
  {
    if a != [] {
      ReducedHeldFrom(a[1..], b[1..], e);
    }
  }

  lemma HeldFromPush(es: seq<Entry>, x: Entry, e: int)
    ensures HeldFrom(es + [x], e) == HeldFrom(es, e) + if x.epoch >= e then x.amount else 0
  {
    HeldFromAppend(es, [x], e);
    assert [x][1..] == [];
  }

  lemma AheadDeposit(f: Pool, q: Pool, q': Pool, amount: U64, epoch: U64)
    requires Ahead(f, q) && Total(f.entries) <= S_E_SSCL
    requires PolicyStep(q, Deposit(Accepted(f.entries, amount), epoch), q')
    ensures Ahead(FifoStep(f, Deposit(amount, epoch)), q')
  {
    hide Total;
    var f', actual := FifoStep(f, Deposit(amount, epoch)), Accepted(f.entries, amount);
    forall e: int
      ensures f'.released + HeldFrom(f'.entries, e) >= q'.released + HeldFrom(q'.entries, e)
    {
      HeldFromPush(f.entries, Entry(epoch, actual), e);
      if q'.entries != q.entries {
        var a: U64 :| a <= actual && q'.entries == q.entries + [Entry(epoch, a)];
        HeldFromPush(q.entries, Entry(epoch, a), e);
      }
    }
  }

  lemma AheadRelease(f: Pool, q: Pool, q': Pool, now: U64)
    requires Ahead(f, q) && Total(f.entries) <= S_E_SSCL && SortedByEpoch(f.entries) && PolicyStep(q, Release(now), q')
    ensures Ahead(FifoStep(f, Release(now)), q')
  {
    hide Total, HeldFrom, Fresh, Drain;
    var f' := FifoStep(f, Release(now));
    var ff, qf, r := Fresh(f.entries, now), Fresh(q.entries, now), ReleaseAmount(f.entries, now);
    FreshSorted(f.entries, now, 0);
    forall e: int
      ensures f'.released + HeldFrom(f'.entries, e) >= q'.released + HeldFrom(q'.entries, e)
    {
      DrainHeldFrom(ff, r, e);
      FreshHeldFrom(f.entries, now, e);
      FreshHeldFrom(q.entries, now, e);
      FreshTotal(f.entries, now);
      FreshTotal(q.entries, now);
      ReducedHeldFrom(qf, q'.entries, e);
      HeldFromBounds(q'.entries, e);
    }
  }

  /** The FIFO pool keeps its entries in epoch order, none later than the last deposit. */
  lemma {:induction false} FifoSorted(events: seq<Event>, high: int)
    requires EpochOrder(events)
    requires forall i :: 0 <= i < |events| && events[i].Deposit? ==> events[i].epoch <= high
    ensures var es := FifoRun(events).entries;
      SortedByEpoch(es) && forall i :: 0 <= i < |es| ==> es[i].epoch <= high
    decreases |events|
  {
    hide Total, Fresh, Drain;
    if events != [] {
      var n := |events| - 1;
      var ev := events[n];
      var p := FifoRun(events[..n]);
      match ev
      case Deposit(amount, epoch) =>
        FifoSorted(events[..n], epoch);
      case Release(now) =>
        FifoSorted(events[..n], high);
        FreshSorted(p.entries, now, 0);
        FreshBelow(p.entries, now, high);
        DrainSorted(Fresh(p.entries, now), ReleaseAmount(p.entries, now), high);
    }
  }

  lemma {:induction false} FreshBelow(es: seq<Entry>, now: U64, high: int)
    requires forall i :: 0 <= i < |es| ==> es[i].epoch <= high
    ensures forall i :: 0 <= i < |Fresh(es, now)| ==> Fresh(es, now)[i].epoch <= high
    decreases |es|
  {
    if es != [] {
      FreshBelow(es[1..], now, high);
    }
  }

  /**
   * A release takes the oldest first: over every run with deposits in epoch order, what is held up to
   * epoch e after a release is what had not expired, less the release, but not below zero.
   */
  lemma ReleaseTakesOldest(events: seq<Event>, now: U64, e: int)
    requires EpochOrder(events)
    ensures var es := FifoRun(events).entries;
      HeldUpTo(FifoRun(events + [Release(now)]).entries, e)
        == Max(0, HeldUpTo(Fresh(es, now), e) - ReleaseAmount(es, now))
  {
    hide FifoRun, Fresh, Drain, Total;
    var es := FifoRun(events).entries;
    FifoRunPush(events, Release(now));
    FifoSorted(events, U64_MAX);
    FreshSorted(es, now, 0);
    DrainHeldUpTo(Fresh(es, now), ReleaseAmount(es, now), e);
  }

  lemma PolicyPrefix(events: seq<Event>, states: seq<Pool>, k: nat)
    requires PolicyRun(events, states) && k <= |events|
    ensures PolicyRun(events[..k], states[..k + 1])
  {
    hide PolicyStep, FifoRun;
    forall i | 0 <= i < k
      ensures PolicyStep(states[i], Offered(events[..k], i), states[i + 1])
    {
      assert events[..k][..i] == events[..i];
      assert Offered(events[..k], i) == Offered(events, i);
    }
  }

  lemma {:induction false} FifoStaysAhead(events: seq<Event>, states: seq<Pool>)
    requires EpochOrder(events) && PolicyRun(events, states)
    ensures Ahead(FifoRun(events), states[|events|])
    decreases |events|
  {
    hide Total;
    if events != [] {
      var n := |events| - 1;
      PolicyPrefix(events, states, n);
      FifoStaysAhead(events[..n], states[..n + 1]);
      var f := FifoRun(events[..n]);
      assert PolicyStep(states[n], Offered(events, n), states[n + 1]);
      match events[n]
      case Deposit(amount, epoch) =>
        AheadDeposit(f, states[n], states[n + 1], amount, epoch);
      case Release(now) =>
        FifoSorted(events[..n], U64_MAX);
        AheadRelease(f, states[n], states[n + 1], now);
    }
  }

  /**
   * Oldest-first releasing is optimal. On every run whose deposits come in epoch order, no way of
   * releasing what this pool accepts (which entries, how much, held back or not) has paid out more at
   * any point than this pool.
   */
  lemma FifoReleasesMost(events: seq<Event>, states: seq<Pool>, k: nat)
    requires EpochOrder(events) && PolicyRun(events, states) && k <= |events|
    ensures FifoRun(events[..k]).released >= states[k].released
  {
    hide PolicyStep;
    PolicyPrefix(events, states, k);
    FifoStaysAhead(events[..k], states[..k + 1]);
    var f, q := FifoRun(events[..k]), states[k];
    NothingFrom(f.entries);
    assert f.released + HeldFrom(f.entries, U64_MAX + 1) >= q.released + HeldFrom(q.entries, U64_MAX + 1);
  }

  lemma {:induction false} NothingFrom(es: seq<Entry>)
    ensures HeldFrom(es, U64_MAX + 1) == 0
  {
    if es != [] {
      NothingFrom(es[1..]);
    }
  }

  lemma FreshTwo(x: Entry, y: Entry, now: U64)
    ensures Fresh([x, y], now) == (if Live(x, now) then [x] else []) + (if Live(y, now) then [y] else [])
  {
    assert [x, y][1..] == [y] && [y][1..] == [];
    assert Fresh([y], now) == (if Live(y, now) then [y] else []) + Fresh([], now);
  }

  lemma EmptyRun()
    ensures FifoRun([]) == Pool([], 0)
  {
  }

  lemma TotalOne(x: Entry)
    ensures Total([x]) == x.amount
  {
    assert [x][1..] == [];
  }

  // ----- "Sum release = Sum residual" -----

  /** A release forfeits nothing exactly when no entry is older than 12 epochs. */
  lemma {:induction false} NothingExpires(es: seq<Entry>, now: U64)
    requires Positive(es)
    ensures Total(Fresh(es, now)) == Total(es) <==> forall i :: 0 <= i < |es| ==> Live(es[i], now)
    decreases |es|
  {
    if es != [] {
      NothingExpires(es[1..], now);
      FreshTotal(es[1..], now);
      assert forall i :: 1 <= i < |es| ==> es[i] == es[1..][i - 1];
      TotalAppend(if Live(es[0], now) then [es[0]] else [], Fresh(es[1..], now));
      assert Total([es[0]]) == es[0].amount + Total([]);
    }
  }

  /** Everything passed to deposit in a run. */
  function Residuals(events: seq<Event>): nat {
    if events == [] then 0
    else Residuals(events[..|events| - 1]) + match events[|events| - 1] case Deposit(a, _) => a case Release(_) => 0
  }

  /** The operation loses nothing: the deposit fits below the cap, or no entry is older than 12 epochs. */
  predicate KeepsAll(es: seq<Entry>, ev: Event) {
    match ev
    case Deposit(amount, _) => Total(es) + amount <= S_E_SSCL
    case Release(now) => forall i :: 0 <= i < |es| ==> Live(es[i], now)
  }

  predicate Lossless(events: seq<Event>) {
    forall i :: 0 <= i < |events| ==> KeepsAll(FifoRun(events[..i]).entries, events[i])
  }

  lemma {:induction false} FifoPositive(events: seq<Event>)
    ensures Positive(FifoRun(events).entries)
    decreases |events|
  {
    hide Total, Fresh, Drain, Live;
    if events != [] {
      var n := |events| - 1;
      FifoPositive(events[..n]);
      var es := FifoRun(events[..n]).entries;
      match events[n]
      case Deposit(amount, epoch) =>
      case Release(now) =>
        FreshKeeps(es, now);
        DrainKeeps(Fresh(es, now), ReleaseAmount(es, now), now);
    }
  }

  /** One operation adds at most its residual to what is released or held, and all of it exactly if it loses nothing. */
  lemma StepConserves(p: Pool, ev: Event)
    requires Positive(p.entries) && Total(p.entries) <= S_E_SSCL
    ensures var q := FifoStep(p, ev);
      var gain := q.released + Total(q.entries) - (p.released + Total(p.entries));
      var residual := match ev case Deposit(a, _) => a case Release(_) => 0;
      gain <= residual && (gain == residual <==> KeepsAll(p.entries, ev))
  {
    hide Fresh, Drain, Live;
    match ev
    case Deposit(amount, epoch) =>
      var x := Entry(epoch, Accepted(p.entries, amount));
      TotalAppend(p.entries, [x]);
      assert Total([x]) == x.amount + Total([]);
    case Release(now) =>
      FreshTotal(p.entries, now);
      NothingExpires(p.entries, now);
      DrainTotal(Fresh(p.entries, now), ReleaseAmount(p.entries, now));
  }

  lemma LosslessPrefix(events: seq<Event>)
    requires events != []
    ensures var n := |events| - 1;
      Lossless(events) <==> Lossless(events[..n]) && KeepsAll(FifoRun(events[..n]).entries, events[n])
  {
    hide KeepsAll, FifoRun;
    var n := |events| - 1;
    assert forall i :: 0 <= i < n ==> events[..n][..i] == events[..i];
  }

  /**
   * Conservation over every run: what has been released or is still held never exceeds the residuals
   * deposited, and is all of them if and only if no deposit was cut by the cap and no release met an
   * entry older than 12 epochs.
   */
  lemma {:induction false} ReleasedAndHeld(events: seq<Event>)
    ensures var p := FifoRun(events);
      && p.released + Total(p.entries) <= Residuals(events)
      && (p.released + Total(p.entries) == Residuals(events) <==> Lossless(events))
    decreases |events|
  {
    hide Total, KeepsAll, Lossless, FifoStep;
    if events == [] {
      assert Lossless(events) by { EmptyLossless(); }
      EmptyTotal();
    } else {
      var n := |events| - 1;
      ReleasedAndHeld(events[..n]);
      FifoPositive(events[..n]);
      StepConserves(FifoRun(events[..n]), events[n]);
      LosslessPrefix(events);
    }
  }

  lemma EmptyLossless()
    ensures Lossless([])
  {
  }

  lemma EmptyTotal()
    ensures Total([]) == 0
  {
  }

  /** Sum of releases = sum of residuals, exactly for the runs that lose nothing and end with an empty pool. */
  lemma ReleasesEqualResiduals(events: seq<Event>)
    ensures FifoRun(events).released == Residuals(events) <==> Lossless(events) && FifoRun(events).entries == []
  {
    hide FifoRun, Lossless, Residuals;
    ReleasedAndHeld(events);
    FifoPositive(events);
    var es := FifoRun(events).entries;
    assert es != [] ==> Total(es) >= es[0].amount > 0;
  }

  /** First way to lose: 5 units deposited at epoch 0 are gone at epoch 13. */
  lemma ResidualCanBeLost()
    ensures FifoRun([Deposit(5, 0), Release(13)]) == Pool([], 0)
  {
    var events := [Deposit(5, 0), Release(13)];
    assert events[..1] == [Deposit(5, 0)] && events[..1][..0] == [];
    assert FifoRun([Deposit(5, 0)]) == Pool([Entry(0, 5)], 0);
    assert Fresh([Entry(0, 5)], 13) == [];
  }

  /** Second way: of a deposit into a full pool nothing is kept, whatever its epoch. */
  lemma ResidualCanBeCut(epoch: U64)
    ensures FifoRun([Deposit(S_E_SSCL, 0), Deposit(1, epoch)]) == Pool([Entry(0, S_E_SSCL)], 0)
  {
    var full: seq<Event> := [Deposit(S_E_SSCL, 0)];
    FifoRunPush([], Deposit(S_E_SSCL, 0));
    FifoRunPush(full, Deposit(1, epoch));
    assert [] + [Event.Deposit(S_E_SSCL, 0)] == full;
    assert full + [Deposit(1, epoch)] == [Deposit(S_E_SSCL, 0), Deposit(1, epoch)];
    assert Total([Entry(0, S_E_SSCL)]) == S_E_SSCL + Total([]);
  }
}

/**
 The steps of a ledger and what every run of them keeps.

 The central result: once a period is sealed its closing balance is never restated. In
 every later state the seal still commits to the balances a fresh fold through the
 period's last day gives, and every row of them can be proven and checked.
 */
module LedgerRuns {
  import opened Wrappers
  import opened Hashing
  import opened Entries
  import opened MerkleTree
  import opened MerkleProofs
  import opened Periods
  import opened Accounts
  import opened Books
  import opened Validation
  import opened Seals
  import opened Clearings
  import opened Ledgers

  /** What a period closes at: everything booked on or before its last day. */
  function ClosingBalances(es: seq<Entry>, end: Date): TrialBalance
  {
    TrialOf(FlatThrough(es, end))
  }

  predicate Within(e: Entry, start: Date, end: Date)
  {
    start <= e.bookingDate <= end
  }

  function CountWithin(es: seq<Entry>, start: Date, end: Date): nat
  {
    if es == [] then 0
    else CountWithin(es[..|es| - 1], start, end) + if Within(es[|es| - 1], start, end) then 1 else 0
  }

  /** The least and greatest positions booked in a range, and how many there are. */
  ghost predicate CoverageExact(c: PeriodCoverage, es: seq<Entry>, start: Date, end: Date)
  {
    && c.entryCount == CountWithin(es, start, end)
    && (match c.firstIndex
        case None => forall i :: 0 <= i < |es| ==> !Within(es[i], start, end)
        case Some(f) => f < |es| && Within(es[f], start, end) && forall i :: 0 <= i < f ==> !Within(es[i], start, end))
    && (match c.lastIndex
        case None => forall i :: 0 <= i < |es| ==> !Within(es[i], start, end)
        case Some(l) => l < |es| && Within(es[l], start, end) && forall i :: l < i < |es| ==> !Within(es[i], start, end))
  }

  /** The positions of the entries booked on the days of a period. */
  ghost function BookedIn(es: seq<Entry>, p: Period): set<nat>
  {
    set i: nat | i < |es| && p.Contains(es[i].bookingDate)
  }

  lemma {:induction false} CountIsBooked(es: seq<Entry>, p: Period)
    ensures CountWithin(es, p.start, p.end) == |BookedIn(es, p)|
  {
    if es != [] {
      var front, n := es[..|es| - 1], |es| - 1;
      CountIsBooked(front, p);
      if p.Contains(es[n].bookingDate) {
        assert BookedIn(es, p) == BookedIn(front, p) + {n};
      } else {
        assert BookedIn(es, p) == BookedIn(front, p);
      }
    }
  }

  /** A coverage is exact when it counts a period's entries and names the first and the last of them. */
  lemma CoverageIs(c: PeriodCoverage, es: seq<Entry>, p: Period)
    ensures CoverageExact(c, es, p.start, p.end) <==>
      var booked := BookedIn(es, p);
      && c.entryCount == |booked|
      && (match c.firstIndex case None => booked == {} case Some(f) => f in booked && forall i :: i in booked ==> f <= i)
      && (match c.lastIndex case None => booked == {} case Some(l) => l in booked && forall i :: i in booked ==> i <= l)
  {
    CountIsBooked(es, p);
    assert forall i: nat :: i < |es| ==> (Within(es[i], p.start, p.end) <==> i in BookedIn(es, p));
  }

  // ----------------------------------------------------------------- invariant

  /** A seal still says what the books say. */
  ghost predicate SealHolds(l: Ledger, s: Seal)
  {
    && s.period in l.calendar.periods
    && l.calendar.FrozenOn(l.calendar.periods[s.period].end)
    && s.treeHead.size <= |l.entries|
    && s.treeHead == HeadOf(Hashes(l.scale, l.entries)[..s.treeHead.size])
    && s.accounts.size <= |l.accounts|
    && s.accounts == Commitment(l.accounts[..s.accounts.size])
    && CommitsTo(l.scale, s, ClosingBalances(l.entries, l.calendar.periods[s.period].end))
  }

  /** The seal commits to these balances, and they name only accounts it can name. */
  ghost predicate CommitsTo(scale: byte, s: Seal, closing: TrialBalance)
  {
    s.trialBalance == TrialBalanceHead(scale, closing) && forall k :: k in closing ==> k.account < s.accounts.size
  }

  ghost predicate SealsSound(l: Ledger)
  {
    Linked(l.id, l.seals) && forall s :: s in l.seals ==> SealHolds(l, s)
  }

  ghost predicate ClearingsSound(l: Ledger)
  {
    AllSound(l.events, LookupOf(l.entries)) && WithinAmounts(l.events, l.resets, LookupOf(l.entries))
  }

  ghost predicate Inv(l: Ledger)
  {
    && |l.entries| <= U64_MAX
    && l.calendar.WellFormed()
    && EntriesSound(l.entries)
    && Known(l.entries, |l.accounts|)
    && SealsSound(l)
    && ClearingsSound(l)
  }

  lemma InvParts(l: Ledger)
    requires Inv(l)
    ensures EntriesSound(l.entries) && l.calendar.WellFormed() && |l.entries| <= U64_MAX
    ensures Known(l.entries, |l.accounts|) && SealsSound(l) && ClearingsSound(l)
  {
  }

  function NewLedger(id: LedgerId, scale: byte): Ledger
  {
    Ledger(id, scale, [], Calendar(map[], None), LedgerPolicy(None, [], None), [], [], [], {})
  }

  lemma NewLedgerIsSound(id: LedgerId, scale: byte)
    ensures Inv(NewLedger(id, scale))
  {
  }

  // --------------------------------------------------------------------- steps

  ghost predicate RecordStep(a: Ledger, b: Ledger, e: Entry)
  {
    && |a.entries| < U64_MAX
    && Passes(e, a.Ctx())
    && Recordable(a.accounts, a.entries, e)
    && b == a.(entries := a.entries + [e])
  }

  /** Defining, re-filing or moving periods: no boundary moves and the watermark only advances. */
  ghost predicate CalendarStep(a: Ledger, b: Ledger)
  {
    b == a.(calendar := b.calendar) && b.calendar.WellFormed() && a.calendar.AdvancesTo(b.calendar)
  }

  /** Registering accounts, or changing what is not their path. */
  ghost predicate RegistryStep(a: Ledger, b: Ledger)
  {
    b == a.(accounts := b.accounts) && Extends(a.accounts, b.accounts)
  }

  ghost predicate PolicyStep(a: Ledger, b: Ledger)
  {
    b == a.(policy := b.policy)
  }

  function PrevHash(seals: seq<Seal>): Option<Hash>
  {
    if seals == [] then None else Some(seals[|seals| - 1].sealHash)
  }

  /** The seal of a period as the books stand. */
  ghost function SealOf(a: Ledger, period: PeriodId, coverage: PeriodCoverage): Seal
    requires period in a.calendar.periods && |a.entries| <= U64_MAX
  {
    BuildSeal(a.id, period, coverage, HeadOf(Hashes(a.scale, a.entries)),
      TrialBalanceHead(a.scale, ClosingBalances(a.entries, a.calendar.periods[period].end)),
      Commitment(a.accounts), PrevHash(a.seals))
  }

  ghost predicate SealStep(a: Ledger, b: Ledger, period: PeriodId, coverage: PeriodCoverage)
  {
    && a.calendar.Sealable(period) && |a.entries| <= U64_MAX
    && CoverageExact(coverage, a.entries, a.calendar.periods[period].start, a.calendar.periods[period].end)
    && b == a.(seals := a.seals + [SealOf(a, period, coverage)],
               calendar := a.calendar.Filed(a.calendar.periods[period].(state := Sealed)))
  }

  /** Clearing or resetting, whatever keeps the register sound. */
  ghost predicate ClearingStep(a: Ledger, b: Ledger)
  {
    b == a.(events := b.events, resets := b.resets) && a.events <= b.events && ClearingsSound(b)
  }

  ghost predicate Step(a: Ledger, b: Ledger)
  {
    || a == b
    || (exists e :: RecordStep(a, b, e))
    || CalendarStep(a, b)
    || RegistryStep(a, b)
    || PolicyStep(a, b)
    || (exists period, coverage :: SealStep(a, b, period, coverage))
    || ClearingStep(a, b)
  }

  /** Every state follows from the one before it. */
  ghost predicate IsRun(run: seq<Ledger>)
  {
    run != [] && forall i :: 0 < i < |run| ==> Step(run[i - 1], run[i])
  }

  // -------------------------------------------------------------- preservation

  /** Recording cannot reach behind the watermark, so a sealed closing balance stays put. */
  lemma RecordKeepsSeal(a: Ledger, b: Ledger, e: Entry, s: Seal)
    requires RecordStep(a, b, e) && SealHolds(a, s)
    ensures SealHolds(b, s)
    ensures ClosingBalances(b.entries, b.calendar.periods[s.period].end) == ClosingBalances(a.entries, a.calendar.periods[s.period].end)
  {
    hide HeadOf, Commitment, TrialBalanceHead, TrialOf;
    PassingIsInContext(e, a.Ctx());
    var end := a.calendar.periods[s.period].end;
    ThroughAppend(a.entries, e, end);
    assert FlatThrough(b.entries, end) == FlatThrough(a.entries, end);
    assert Hashes(b.scale, b.entries)[..s.treeHead.size] == Hashes(a.scale, a.entries)[..s.treeHead.size];
  }

  lemma RegistryKeepsSeal(a: Ledger, b: Ledger, s: Seal)
    requires RegistryStep(a, b) && SealHolds(a, s)
    ensures SealHolds(b, s)
  {
    hide HeadOf, TrialBalanceHead, TrialOf, Hashes;
    var n := s.accounts.size;
    assert BindingLeaves(b.accounts[..n]) == BindingLeaves(a.accounts[..n]);
  }

  lemma RecordKeepsInv(a: Ledger, b: Ledger, e: Entry)
    requires Inv(a) && RecordStep(a, b, e)
    ensures Inv(b)
  {
    hide SealHolds, Passes, Linked, Recordable, AllSound, WithinAmounts, LookupExtends;
    PassingIsBalanced(e, a.Ctx());
    PassingIsInContext(e, a.Ctx());
    RecordKeepsEntries(a.accounts, a.entries, e);
    forall s | s in b.seals
      ensures SealHolds(b, s)
    {
      RecordKeepsSeal(a, b, e, s);
    }
    LookupGrows(a.entries, e);
    LookupPositive(b.entries);
    GrowthKeepsClearings(a.events, a.resets, LookupOf(a.entries), LookupOf(b.entries));
  }

  /** Balances through a date fit whenever all balances do. */
  lemma ClosingFits(es: seq<Entry>, end: Date)
    requires EntriesSound(es)
    ensures AllFit(ClosingBalances(es, end))
  {
    FlatAllPositive(es);
    ThroughTouched(es, end);
    forall k | k in ClosingBalances(es, end)
      ensures ClosingBalances(es, end)[k].Fits()
    {
      ThroughBounded(es, end, k);
      assert k in TrialOf(Flat(es));
    }
  }

  lemma {:induction false} ClosingKnown(es: seq<Entry>, end: Date, accounts: nat)
    requires Known(es, accounts)
    ensures forall k :: k in ClosingBalances(es, end) ==> k.account < accounts
  {
    forall k | k in ClosingBalances(es, end)
      ensures k.account < accounts
    {
      ThroughTouched(es, end);
      FlatKnown(es, accounts);
    }
  }

  lemma {:induction false} FlatKnown(es: seq<Entry>, accounts: nat)
    requires Known(es, accounts)
    ensures forall p :: p in Flat(es) ==> p.account < accounts
  {
    if es != [] {
      assert es[|es| - 1] in es;
      FlatKnown(es[..|es| - 1], accounts);
    }
  }

  /** The seal of a sealable period always links: only the calendar can refuse a sealing. */
  lemma SealLinks(a: Ledger, period: PeriodId, coverage: PeriodCoverage)
    requires Inv(a) && a.calendar.Sealable(period)
    ensures CheckLink(a.id, PeriodsOf(a.seals), LastOf(a.seals), SealOf(a, period, coverage)) == Ok(())
  {
    hide Linked, ClosingBalances, TreeHash, Seal.ComputeHash, TrialBalanceHead;
    var s := SealOf(a, period, coverage);
    if a.seals != [] {
      var last := a.seals[|a.seals| - 1];
      assert last in a.seals && SealHolds(a, last);
      assert last.treeHead.size <= s.treeHead.size && last.accounts.size <= s.accounts.size;
    }
  }

  lemma SealingKeepsOthers(a: Ledger, b: Ledger, period: PeriodId, coverage: PeriodCoverage, s: Seal)
    requires Inv(a) && SealStep(a, b, period, coverage) && SealHolds(a, s)
    ensures SealHolds(b, s)
  {
    hide HeadOf, Commitment, TrialBalanceHead, ClosingBalances, Hashes;
    SealingSetsWatermark(a.calendar, period);
  }

  lemma SealingHolds(a: Ledger, b: Ledger, period: PeriodId, coverage: PeriodCoverage)
    requires Inv(a) && SealStep(a, b, period, coverage)
    ensures SealHolds(b, SealOf(a, period, coverage))
  {
    hide TreeHash, TrialBalanceHead, ClosingBalances;
    SealingSetsWatermark(a.calendar, period);
    ClosingKnown(a.entries, a.calendar.periods[period].end, |a.accounts|);
    assert Hashes(a.scale, a.entries)[..|a.entries|] == Hashes(a.scale, a.entries);
    assert a.accounts[..|a.accounts|] == a.accounts;
  }

  lemma SealKeepsInv(a: Ledger, b: Ledger, period: PeriodId, coverage: PeriodCoverage)
    requires Inv(a) && SealStep(a, b, period, coverage)
    ensures Inv(b)
  {
    hide SealHolds, CheckLink, EntriesSound, ClearingsSound, SealOf, CoverageExact;
    SealingSetsWatermark(a.calendar, period);
    SealLinks(a, period, coverage);
    SealingHolds(a, b, period, coverage);
    forall s | s in a.seals
      ensures SealHolds(b, s)
    {
      SealingKeepsOthers(a, b, period, coverage, s);
    }
    assert b.seals[..|a.seals|] == a.seals;
    ClearingsSame(a, b);
  }

  lemma ClearingsSame(a: Ledger, b: Ledger)
    requires ClearingsSound(a) && a.entries == b.entries && a.events == b.events && a.resets == b.resets
    ensures ClearingsSound(b)
  {
  }

  lemma CalendarKeepsInv(a: Ledger, b: Ledger)
    requires Inv(a) && (CalendarStep(a, b) || PolicyStep(a, b) || ClearingStep(a, b))
    ensures Inv(b)
  {
    hide EntriesSound, Linked, ClosingBalances, HeadOf, Commitment, TrialBalanceHead;
    if !ClearingStep(a, b) {
      ClearingsSame(a, b);
    }
    forall s | s in b.seals
      ensures SealHolds(b, s)
    {
      assert SealHolds(a, s);
    }
  }

  lemma RegistryKeepsInv(a: Ledger, b: Ledger)
    requires Inv(a) && RegistryStep(a, b)
    ensures Inv(b)
  {
    hide SealHolds, EntriesSound, Linked;
    ClearingsSame(a, b);
    forall s | s in b.seals
      ensures SealHolds(b, s)
    {
      RegistryKeepsSeal(a, b, s);
    }
  }

  /** Every step keeps the invariant, every seal, and every entry. */
  lemma StepKeeps(a: Ledger, b: Ledger)
    requires Inv(a) && Step(a, b)
    ensures Inv(b) && a.seals <= b.seals && a.entries <= b.entries
    ensures a.id == b.id && a.scale == b.scale && Extends(a.accounts, b.accounts)
    ensures a.calendar.AdvancesTo(b.calendar)
  {
    hide Inv, Recordable, Passes, SealOf;
    if e :| RecordStep(a, b, e) {
      RecordKeepsInv(a, b, e);
    } else if period, coverage :| SealStep(a, b, period, coverage) {
      SealKeepsInv(a, b, period, coverage);
      SealAdvances(a, period);
    } else if RegistryStep(a, b) {
      RegistryKeepsInv(a, b);
    } else if a != b {
      CalendarKeepsInv(a, b);
    }
  }

  lemma SealAdvances(a: Ledger, period: PeriodId)
    requires Inv(a) && a.calendar.Sealable(period)
    ensures a.calendar.AdvancesTo(a.calendar.Filed(a.calendar.periods[period].(state := Sealed)))
  {
    SealingSetsWatermark(a.calendar, period);
  }

  // ------------------------------------------------------------ whole-run laws

  lemma {:induction false} RunKeeps(run: seq<Ledger>)
    requires IsRun(run) && Inv(run[0])
    ensures var last := run[|run| - 1];
      && Inv(last) && run[0].seals <= last.seals && run[0].entries <= last.entries
      && run[0].id == last.id && run[0].scale == last.scale && Extends(run[0].accounts, last.accounts)
      && run[0].calendar.AdvancesTo(last.calendar)
    decreases |run|
  {
    hide Inv, Step;
    if |run| > 1 {
      var front := run[..|run| - 1];
      RunKeeps(front);
      assert Step(run[|run| - 2], run[|run| - 1]);
      StepKeeps(run[|run| - 2], run[|run| - 1]);
    }
  }

  /** A period behind the watermark is never sealed again, over any run, and holds up every later one. */
  lemma StuckForever(run: seq<Ledger>, stuck: PeriodId)
    requires IsRun(run) && Inv(run[0])
    requires stuck in run[0].calendar.periods && run[0].calendar.FrozenOn(run[0].calendar.periods[stuck].end)
    ensures var last := run[|run| - 1].calendar;
      && stuck in last.periods && !last.Sealable(stuck)
      && (last.periods[stuck].state != Sealed ==>
            forall id :: id in last.periods && last.periods[stuck].start <= last.periods[id].start ==> !last.Sealable(id))
  {
    hide Inv, Step, Calendar.AdvancesTo, Calendar.Sealable;
    RunKeeps(run);
    InvParts(run[|run| - 1]);
    StuckBehindWatermark(run[0].calendar, run[|run| - 1].calendar, stuck);
  }

  /**
   A sealed closing balance is never restated: over any run, every seal stays in the
   chain, its period keeps its last day, and the fold of the books through that day is
   the same trial balance as when the run began.
   */
  lemma SealedNeverRestated(run: seq<Ledger>, s: Seal)
    requires IsRun(run) && Inv(run[0]) && s in run[0].seals
    ensures var first, last := run[0], run[|run| - 1];
      && s in last.seals && SealHolds(last, s)
      && s.period in first.calendar.periods && s.period in last.calendar.periods
      && last.calendar.periods[s.period].end == first.calendar.periods[s.period].end
      && ClosingBalances(last.entries, last.calendar.periods[s.period].end)
         == ClosingBalances(first.entries, first.calendar.periods[s.period].end)
  {
    RunKeeps(run);
    var first, last := run[0], run[|run| - 1];
    assert SealHolds(first, s) && SealHolds(last, s);
    var end := first.calendar.periods[s.period].end;
    ClosingFits(first.entries, end);
    ClosingFits(last.entries, end);
    TrialBalanceHeadInjective(first.scale, ClosingBalances(first.entries, end), ClosingBalances(last.entries, end));
  }

  // --------------------------------------------------------- balance limits

  /** Every balance of an account is on the side its limit allows. */
  ghost predicate Respects(l: Ledger, id: u32)
  {
    forall k: BalanceKey :: k.account == id ==> LimitOf(l.accounts, id).Permits(Sum(Flat(l.entries), k))
  }

  lemma {:induction false} RecordRespects(a: Ledger, b: Ledger, e: Entry, id: u32)
    requires RecordStep(a, b, e) && Respects(a, id)
    ensures Respects(b, id)
  {
    FlatAppend(a.entries, e);
    forall k: BalanceKey | k.account == id
      ensures LimitOf(b.accounts, id).Permits(Sum(Flat(b.entries), k))
    {
      if k in Touched(e.postings) {
        var p :| p in e.postings && p.Key() == k;
        assert LimitOf(a.accounts, p.account).Permits(Sum(Flat(a.entries) + e.postings, p.Key()));
      } else {
        SumConcat(Flat(a.entries), e.postings, k);
        SumUntouched(e.postings, k);
      }
    }
  }

  lemma SameEntriesRespect(a: Ledger, b: Ledger, id: u32)
    requires a.entries == b.entries && LimitOf(a.accounts, id) == LimitOf(b.accounts, id) && Respects(a, id)
    ensures Respects(b, id)
  {
  }

  /** An account within its limit stays within it for as long as the limit is not changed. */
  lemma {:induction false} LimitKept(run: seq<Ledger>, id: u32)
    requires IsRun(run) && Respects(run[0], id)
    requires forall i :: 0 <= i < |run| ==> LimitOf(run[i].accounts, id) == LimitOf(run[0].accounts, id)
    ensures Respects(run[|run| - 1], id)
    decreases |run|
  {
    hide Respects, Passes, Recordable, SealOf, CoverageExact, ClearingsSound;
    if |run| > 1 {
      var a, b := run[|run| - 2], run[|run| - 1];
      LimitKept(run[..|run| - 1], id);
      assert Step(a, b);
      if e :| RecordStep(a, b, e) {
        RecordRespects(a, b, e, id);
      } else {
        SameEntriesRespect(a, b, id);
      }
    }
  }

  /**
   In net terms: over any run that leaves its limit alone, an account that may not go into credit
   stays at zero or above on every key, and one that may not go into debit at zero or below.
   */
  lemma NetKept(run: seq<Ledger>, id: u32)
    requires IsRun(run) && id < |run[0].accounts|
    requires forall i :: 0 <= i < |run| ==>
      id < |run[i].accounts| && run[i].accounts[id].limit == run[0].accounts[id].limit
    ensures var limit, first, last := run[0].accounts[id].limit, Flat(run[0].entries), Flat(run[|run| - 1].entries);
      && (limit == NoCreditBalance && (forall k: BalanceKey :: k.account == id ==> Sum(first, k).SignedNet() >= 0) ==>
            forall k: BalanceKey :: k.account == id ==> Sum(last, k).SignedNet() >= 0)
      && (limit == NoDebitBalance && (forall k: BalanceKey :: k.account == id ==> Sum(first, k).SignedNet() <= 0) ==>
            forall k: BalanceKey :: k.account == id ==> Sum(last, k).SignedNet() <= 0)
  {
    hide Step, Respects, BalanceLimit.Permits, Balance.SignedNet, Flat;
    RespectsIs(run[0], id);
    RespectsIs(run[|run| - 1], id);
    if Respects(run[0], id) {
      LimitKept(run, id);
    }
  }

  /** Respecting a limit is keeping every net on its side of zero. */
  lemma RespectsIs(l: Ledger, id: u32)
    ensures var limit, ps := LimitOf(l.accounts, id), Flat(l.entries);
      && (limit == NoCreditBalance ==>
            (Respects(l, id) <==> forall k: BalanceKey :: k.account == id ==> Sum(ps, k).SignedNet() >= 0))
      && (limit == NoDebitBalance ==>
            (Respects(l, id) <==> forall k: BalanceKey :: k.account == id ==> Sum(ps, k).SignedNet() <= 0))
  {
    hide BalanceLimit.Permits, Balance.SignedNet, Flat;
    forall k: BalanceKey | k.account == id
      ensures NoCreditBalance.Permits(Sum(Flat(l.entries), k)) <==> Sum(Flat(l.entries), k).SignedNet() >= 0
      ensures NoDebitBalance.Permits(Sum(Flat(l.entries), k)) <==> Sum(Flat(l.entries), k).SignedNet() <= 0
    {
      LimitIsSide(Sum(Flat(l.entries), k));
    }
  }

  // ------------------------------------------------------------- idempotency

  lemma RunDistinct(l: Ledger)
    requires Inv(l)
    ensures DistinctEntries(l.entries)
  {
  }

  /** An entry once recorded answers for its key, at its position, in every later state. */
  lemma ReplayForever(run: seq<Ledger>, i: nat, e: Entry)
    requires IsRun(run) && Inv(run[0]) && i < |run[0].entries|
    requires ContentHash(run[0].scale, e) == ContentHash(run[0].scale, run[0].entries[i])
    ensures var last := run[|run| - 1];
      && KeyIndex(last.entries, e.key) == Some(i) && i < |last.entries|
      && last.entries[i] == run[0].entries[i]
      && ContentHash(last.scale, e) == ContentHash(last.scale, last.entries[i])
  {
    hide Inv, Step, ContentHash;
    RunKeeps(run);
    var first, last := run[0], run[|run| - 1];
    RunDistinct(last);
    ContentHashExact(first.scale, first.scale, e, first.entries[i]);
    KeyIndexFacts(last.entries, e.key);
    assert last.entries[i] == first.entries[i];
  }
}

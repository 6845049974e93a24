/**
 The journal's readers: loops over entries and posting sites, and the folds they agree with.

 Every reader may report an overflow; none does over entries a journal accepted.
 */
module JournalReads {
  import opened Wrappers
  import opened Entries
  import opened Books
  import opened Validation
  import opened Seals
  import opened Clearings
  import opened Ledgers
  import opened LedgerRuns
  import opened JournalIndexes

  // ------------------------------------------------------------ trial balances

  lemma FlatStep(es: seq<Entry>, i: nat)
    requires i < |es|
    ensures Flat(es[..i + 1]) == Flat(es[..i]) + es[i].postings
  {
    assert es[..i + 1][..i] == es[..i];
  }

  lemma ThroughStep(es: seq<Entry>, i: nat, end: Date)
    requires i < |es|
    ensures FlatThrough(es[..i + 1], end)
      == if es[i].bookingDate <= end then FlatThrough(es[..i], end) + es[i].postings else FlatThrough(es[..i], end)
  {
    assert es[..i + 1][..i] == es[..i];
  }

  lemma PrefixAddsUp(es: seq<Entry>, n: nat)
    requires EntriesSound(es) && n <= |es|
    ensures AllFit(TrialOf(Flat(es[..n]))) && AllPositive(Flat(es[..n]))
  {
    PrefixFits(es, n);
    FlatAllPositive(es[..n]);
  }

  /** The trial balance of the first `n` entries, posting by posting. */
  method FoldEntries(es: seq<Entry>, n: nat) returns (r: Option<TrialBalance>)
    requires EntriesSound(es) && n <= |es|
    ensures r == Some(TrialOf(Flat(es[..n])))
  {
    hide EntriesSound, TrialOf, Flat;
    var tb: TrialBalance := map[];
    PrefixAddsUp(es, 0);
    NothingDerived(0);
    assert es[..0] == [];
    for i := 0 to n
      invariant tb == TrialOf(Flat(es[..i])) && AllFit(tb)
    {
      FlatStep(es, i);
      PrefixAddsUp(es, i + 1);
      var next := ApplyAll(tb, Flat(es[..i]), es[i].postings);
      if next.None? {
        return None;
      }
      tb := next.value;
    }
    return Some(tb);
  }

  lemma ThroughAddsUp(es: seq<Entry>, n: nat, end: Date)
    requires EntriesSound(es) && n <= |es|
    ensures AllFit(TrialOf(FlatThrough(es[..n], end))) && AllPositive(FlatThrough(es[..n], end))
  {
    hide EntriesSound, TrialOf, AllFit;
    PrefixSound(es, n);
    ClosingFits(es[..n], end);
    PrefixAddsUp(es, n);
    var k: BalanceKey :| true;
    ThroughBounded(es[..n], end, k);
  }

  /** The trial balance of the entries booked on or before a date. */
  method FoldThrough(es: seq<Entry>, end: Date) returns (r: Option<TrialBalance>)
    requires EntriesSound(es)
    ensures r == Some(ClosingBalances(es, end))
  {
    hide EntriesSound, TrialOf, FlatThrough;
    var tb: TrialBalance := map[];
    assert FlatThrough([], end) == [] && TrialOf([]) == map[] by {
      NothingThrough(end);
    }
    assert es[..0] == [];
    for i := 0 to |es|
      invariant tb == TrialOf(FlatThrough(es[..i], end)) && AllFit(tb)
    {
      ThroughStep(es, i, end);
      if es[i].bookingDate <= end {
        ThroughAddsUp(es, i + 1, end);
        var next := ApplyAll(tb, FlatThrough(es[..i], end), es[i].postings);
        if next.None? {
          return None;
        }
        tb := next.value;
      }
    }
    assert es[..|es|] == es;
    return Some(tb);
  }

  lemma NothingThrough(end: Date)
    ensures FlatThrough([], end) == [] && TrialOf([]) == map[]
  {
  }

  // ------------------------------------------------- one key through a date

  /** The postings at some sites, leaving out those booked after a date. */
  function DatedSum(es: seq<Entry>, sites: seq<Site>, end: Date): Balance
    requires forall s :: s in sites ==> Resolves(es, s)
  {
    if sites == [] then ZERO
    else
      var last := sites[|sites| - 1];
      var before := DatedSum(es, sites[..|sites| - 1], end);
      var p := PostingAt(es, last);
      if es[last.index].bookingDate <= end then before.Added(p.direction, p.amount) else before
  }

  lemma {:induction false} DatedLocal(es: seq<Entry>, fs: seq<Entry>, sites: seq<Site>, end: Date)
    requires forall s :: s in sites ==> Resolves(es, s) && Resolves(fs, s) && es[s.index] == fs[s.index]
    ensures DatedSum(es, sites, end) == DatedSum(fs, sites, end)
  {
    if sites != [] {
      assert sites[|sites| - 1] in sites;
      DatedLocal(es, fs, sites[..|sites| - 1], end);
    }
  }

  /** Appending the sites of one entry adds them all, or none of them. */
  lemma {:induction false} DatedConcat(es: seq<Entry>, a: seq<Site>, b: seq<Site>, index: nat, end: Date)
    requires forall s :: s in a + b ==> Resolves(es, s)
    requires index < |es| && forall s :: s in b ==> s.index == index
    ensures forall s :: s in a || s in b ==> s in a + b
    ensures DatedSum(es, a + b, end).debits
      == DatedSum(es, a, end).debits + if es[index].bookingDate <= end then SiteSum(es, b).debits else 0
    ensures DatedSum(es, a + b, end).credits
      == DatedSum(es, a, end).credits + if es[index].bookingDate <= end then SiteSum(es, b).credits else 0
  {
    if b == [] {
      assert a + b == a;
    } else {
      var front := b[..|b| - 1];
      assert b[|b| - 1] in b;
      assert (a + b)[..|a + b| - 1] == a + front;
      DatedConcat(es, a, front, index, end);
    }
  }

  /** Over all sites of a key that is its balance through the date. */
  lemma {:induction false} DatedSumIsSum(es: seq<Entry>, k: BalanceKey, end: Date)
    ensures forall s :: s in SitesOn(es, k) ==> Resolves(es, s)
    ensures DatedSum(es, SitesOn(es, k), end) == Sum(FlatThrough(es, end), k)
  {
    hide SitesIn, Sum;
    SitesOnFacts(es, k);
    if es == [] {
      EmptySum(k);
    } else {
      var front, last := es[..|es| - 1], es[|es| - 1].postings;
      SitesOnFacts(front, k);
      DatedSumIsSum(front, k, end);
      DatedLocal(front, es, SitesOn(front, k), end);
      assert last[..|last|] == last;
      SitesInFacts(|es| - 1, last, k);
      SiteSumIn(es, |es| - 1, |last|, k);
      DatedConcat(es, SitesOn(front, k), SitesIn(|es| - 1, last, k), |es| - 1, end);
      if es[|es| - 1].bookingDate <= end {
        SumConcat(FlatThrough(front, end), last, k);
      } else {
        assert FlatThrough(es, end) == FlatThrough(front, end);
      }
    }
  }

  lemma {:induction false} DatedBounded(es: seq<Entry>, sites: seq<Site>, end: Date)
    requires (forall e :: e in es ==> WellBalanced(e)) && forall s :: s in sites ==> Resolves(es, s)
    ensures 0 <= DatedSum(es, sites, end).debits <= SiteSum(es, sites).debits
    ensures 0 <= DatedSum(es, sites, end).credits <= SiteSum(es, sites).credits
  {
    if sites != [] {
      var last := sites[|sites| - 1];
      assert last in sites && es[last.index] in es;
      assert es[last.index].postings[last.posting] in es[last.index].postings;
      DatedBounded(es, sites[..|sites| - 1], end);
    }
  }

  lemma DatedFits(es: seq<Entry>, k: BalanceKey, end: Date, n: nat)
    requires EntriesSound(es) && n <= |SitesOn(es, k)|
    ensures forall s :: s in SitesOn(es, k) ==> Resolves(es, s)
    ensures DatedSum(es, SitesOn(es, k)[..n], end).Fits()
  {
    SitesOnFacts(es, k);
    SiteSumFits(es, k, n);
    DatedBounded(es, SitesOn(es, k)[..n], end);
  }

  /** Reads a key's balance through a date off its sites. */
  method FoldDated(es: seq<Entry>, sites: seq<Site>, end: Date, ghost k: BalanceKey) returns (r: Option<Balance>)
    requires EntriesSound(es) && sites == SitesOn(es, k)
    ensures r == Some(Sum(FlatThrough(es, end), k))
  {
    hide EntriesSound, SitesOn, Sum, FlatThrough;
    SitesOnFacts(es, k);
    var balance := ZERO;
    for i := 0 to |sites|
      invariant balance == DatedSum(es, sites[..i], end)
    {
      assert sites[i] in sites && sites[..i + 1][..i] == sites[..i];
      DatedFits(es, k, end, i + 1);
      var entry := es[sites[i].index];
      if entry.bookingDate <= end {
        var p := entry.postings[sites[i].posting];
        balance := balance.Added(p.direction, p.amount);
        if !balance.Fits() {
          return None;
        }
      }
    }
    assert sites[..|sites|] == sites;
    DatedSumIsSum(es, k, end);
    return Some(balance);
  }

  // ---------------------------------------------------------------- statements

  datatype StatementLine = StatementLine(
    index: nat, posting: PostingRef, bookingDate: Date, direction: Direction, amount: i64,
    running: Balance, kind: Option<Label>)

  /** The line of a site: the posting there, and the balance of everything up to and including it. */
  ghost predicate LineAt(line: StatementLine, es: seq<Entry>, s: Site)
    requires Resolves(es, s)
  {
    var e, p := es[s.index], PostingAt(es, s);
    && line.index == s.index && line.posting == PostingRef(e.id, s.posting)
    && line.bookingDate == e.bookingDate && line.kind == e.kind
    && line.direction == p.direction && line.amount == p.amount
    && line.running == Sum(Flat(es[..s.index]) + e.postings[..s.posting + 1], p.Key())
  }

  /** So a site has one line: where the posting is, what it books, and the balance of its key right after it. */
  lemma LineIs(line: StatementLine, es: seq<Entry>, s: Site)
    requires Resolves(es, s)
    ensures LineAt(line, es, s) <==>
      var (e, p) := (es[s.index], es[s.index].postings[s.posting]);
      line == StatementLine(s.index, PostingRef(e.id, s.posting), e.bookingDate, p.direction, p.amount,
        Sum(Flat(es[..s.index]) + e.postings[..s.posting + 1], BalanceKey(p.account, p.currency, p.layer)), e.kind)
  {
    hide Sum, Flat;
  }

  lemma {:induction false} SitesInPrefix(index: nat, ps: seq<Posting>, n: nat, k: BalanceKey)
    requires n <= |ps|
    ensures |SitesIn(index, ps[..n], k)| <= |SitesIn(index, ps, k)|
    ensures SitesIn(index, ps, k)[..|SitesIn(index, ps[..n], k)|] == SitesIn(index, ps[..n], k)
  {
    if n == |ps| {
      assert ps[..n] == ps;
    } else {
      assert ps[..|ps| - 1][..n] == ps[..n];
      SitesInPrefix(index, ps[..|ps| - 1], n, k);
    }
  }

  /** The sites of a key up to one of them are those of the log cut right after it. */
  lemma SitesUpTo(es: seq<Entry>, k: BalanceKey, i: nat)
    requires i < |SitesOn(es, k)|
    ensures forall s :: s in SitesOn(es, k) ==> Resolves(es, s)
    ensures var s := SitesOn(es, k)[i];
      Resolves(es, s) && SitesOn(es, k)[..i + 1]
        == SitesOn(es[..s.index], k) + SitesIn(s.index, es[s.index].postings[..s.posting + 1], k)
  {
    hide SitesIn, SitesOn;
    SitesOnFacts(es, k);
    var all, s := SitesOn(es, k), SitesOn(es, k)[i];
    assert s in all;
    var ps := es[s.index].postings;
    var early, here := SitesOn(es[..s.index], k), SitesIn(s.index, ps[..s.posting + 1], k);
    SitesPrefix(es, s.index + 1, k);
    SitesSplit(es, s.index, k);
    SitesInPrefix(s.index, ps, s.posting + 1, k);
    SitesInFacts(s.index, ps[..s.posting + 1], k);
    assert ps[..s.posting + 1][s.posting] == ps[s.posting];
    assert s in here;
    assert all[..|early| + |here|] == early + here;
    LastHere(s.index, ps, s.posting, k);
    assert all[|early| + |here| - 1] == s;
  }

  lemma SitesSplit(es: seq<Entry>, index: nat, k: BalanceKey)
    requires index < |es|
    ensures SitesOn(es[..index + 1], k) == SitesOn(es[..index], k) + SitesIn(index, es[index].postings, k)
  {
    assert es[..index + 1][..index] == es[..index];
  }

  lemma LastHere(index: nat, ps: seq<Posting>, j: nat, k: BalanceKey)
    requires j < |ps| && ps[j].Key() == k
    ensures var here := SitesIn(index, ps[..j + 1], k);
      here != [] && here[|here| - 1] == Site(index, j)
  {
    assert ps[..j + 1][..j] == ps[..j];
  }

  /** Running totals along a key's sites are the balances of the log cut after each of them. */
  lemma RunningTotal(es: seq<Entry>, k: BalanceKey, i: nat)
    requires i < |SitesOn(es, k)|
    ensures forall s :: s in SitesOn(es, k) ==> Resolves(es, s)
    ensures var s := SitesOn(es, k)[i];
      && PostingAt(es, s).Key() == k
      && SiteSum(es, SitesOn(es, k)[..i + 1]) == Sum(Flat(es[..s.index]) + es[s.index].postings[..s.posting + 1], k)
  {
    hide SitesIn, SitesOn, Sum, SiteSum, Flat;
    SitesOnFacts(es, k);
    var s := SitesOn(es, k)[i];
    assert s in SitesOn(es, k);
    var early, ps := es[..s.index], es[s.index].postings;
    SitesUpTo(es, k, i);
    SitesOnFacts(early, k);
    SiteSumIsSum(early, k);
    SiteSumLocal(early, es, SitesOn(early, k));
    SiteSumIn(es, s.index, s.posting + 1, k);
    SiteSumConcat(es, SitesOn(early, k), SitesIn(s.index, ps[..s.posting + 1], k));
    SumConcat(Flat(early), ps[..s.posting + 1], k);
  }

  /** The statement of a key: a line per site, each with the balance it leaves. */
  method StatementLines(es: seq<Entry>, sites: seq<Site>, ghost k: BalanceKey) returns (r: Option<seq<StatementLine>>)
    requires EntriesSound(es) && sites == SitesOn(es, k)
    ensures forall s :: s in sites ==> Resolves(es, s)
    ensures r.Some? && |r.value| == |sites|
    ensures forall i :: 0 <= i < |sites| ==> LineAt(r.value[i], es, sites[i])
    ensures sites != [] ==> r.value[|sites| - 1].running == Sum(Flat(es), k)
  {
    hide EntriesSound, SitesOn, Sum, Flat, SiteSum;
    SitesOnFacts(es, k);
    var running := ZERO;
    var out: seq<StatementLine> := [];
    EmptySites(es, sites);
    for i := 0 to |sites|
      invariant running == SiteSum(es, sites[..i]) && |out| == i
      invariant i > 0 ==> out[i - 1].running == running
      invariant forall j :: 0 <= j < i ==> LineAt(out[j], es, sites[j])
    {
      SiteSumStep(es, sites, i);
      var entry := es[sites[i].index];
      var p := entry.postings[sites[i].posting];
      running := running.Added(p.direction, p.amount);
      SiteSumFits(es, k, i + 1);
      if !running.Fits() {
        return None;
      }
      RunningTotal(es, k, i);
      out := out + [StatementLine(sites[i].index, PostingRef(entry.id, sites[i].posting), entry.bookingDate,
        p.direction, p.amount, running, entry.kind)];
    }
    assert sites[..|sites|] == sites;
    SiteSumIsSum(es, k);
    return Some(out);
  }

  // ------------------------------------------------------------------ coverage

  lemma CountStep(es: seq<Entry>, i: nat, start: Date, end: Date)
    requires i < |es|
    ensures CountWithin(es[..i + 1], start, end) == CountWithin(es[..i], start, end) + if Within(es[i], start, end) then 1 else 0
    ensures CountWithin(es[..i], start, end) <= i
    decreases i
  {
    assert es[..i + 1][..i] == es[..i];
    if i > 0 {
      CountStep(es, i - 1, start, end);
    }
  }

  /** The smallest index range holding a date range's entries, and how many there are. */
  method CoverageOf(es: seq<Entry>, start: Date, end: Date) returns (c: PeriodCoverage)
    requires |es| <= U64_MAX
    ensures CoverageExact(c, es, start, end)
  {
    hide CountWithin;
    c := PeriodCoverage(None, None, 0);
    assert es[..0] == [];
    NoneWithin(start, end);
    for i := 0 to |es|
      invariant c.entryCount == CountWithin(es[..i], start, end) <= i
      invariant match c.firstIndex
        case None => c.lastIndex.None? && forall j :: 0 <= j < i ==> !Within(es[j], start, end)
        case Some(f) => f < i && Within(es[f], start, end) && forall j :: 0 <= j < f ==> !Within(es[j], start, end)
      invariant match c.lastIndex
        case None => forall j :: 0 <= j < i ==> !Within(es[j], start, end)
        case Some(l) => l < i && Within(es[l], start, end) && forall j :: l < j < i ==> !Within(es[j], start, end)
    {
      CountStep(es, i, start, end);
      if Within(es[i], start, end) {
        c := PeriodCoverage(
          if c.firstIndex.None? then Some(i) else c.firstIndex, Some(i), c.entryCount + 1);
      }
    }
    assert es[..|es|] == es;
  }

  lemma NoneWithin(start: Date, end: Date)
    ensures CountWithin([], start, end) == 0
  {
  }
}

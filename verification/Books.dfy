/**
 What the books say, as plain folds over the entries.

 Everything the journal maintains incrementally is defined here by reading every entry
 from the start: balances, posting sites, balances through a date.
 */
module Books {
  import opened Wrappers
  import opened Hashing
  import opened Entries
  import opened Seals

  /** Every posting, in log order. */
  function Flat(es: seq<Entry>): seq<Posting>
  {
    if es == [] then [] else Flat(es[..|es| - 1]) + es[|es| - 1].postings
  }

  /** The postings of the entries booked on or before a date. */
  function FlatThrough(es: seq<Entry>, end: Date): seq<Posting>
  {
    if es == [] then []
    else
      var last := es[|es| - 1];
      FlatThrough(es[..|es| - 1], end) + if last.bookingDate <= end then last.postings else []
  }

  /** The postings through a date are those of the entries booked by then. */
  lemma {:induction false} ThroughIs(es: seq<Entry>, end: Date, p: Posting)
    ensures p in FlatThrough(es, end) <==> exists e :: e in es && e.bookingDate <= end && p in e.postings
  {
    if es != [] {
      ThroughIs(es[..|es| - 1], end, p);
      assert es == es[..|es| - 1] + [es[|es| - 1]];
    }
  }

  /** Gross totals of one key, by adding its postings one after another. */
  function Sum(ps: seq<Posting>, k: BalanceKey): Balance
  {
    if ps == [] then ZERO
    else
      var p := ps[|ps| - 1];
      var before := Sum(ps[..|ps| - 1], k);
      if p.Key() == k then before.Added(p.direction, p.amount) else before
  }

  function Touched(ps: seq<Posting>): set<BalanceKey>
  {
    set p | p in ps :: p.Key()
  }

  /** The trial balance of a run of postings: a row for every key posted to. */
  function TrialOf(ps: seq<Posting>): TrialBalance
  {
    map k | k in Touched(ps) :: Sum(ps, k)
  }

  predicate AllPositive(ps: seq<Posting>)
  {
    forall p :: p in ps ==> p.amount > 0
  }

  function Hashes(scale: byte, es: seq<Entry>): seq<Hash>
  {
    seq(|es|, i requires 0 <= i < |es| => ContentHash(scale, es[i]))
  }

  lemma HashesAppend(scale: byte, es: seq<Entry>, e: Entry)
    ensures Hashes(scale, es + [e]) == Hashes(scale, es) + [ContentHash(scale, e)]
    ensures |Hashes(scale, es)| == |es|
  {
  }

  lemma HashesPrefix(scale: byte, es: seq<Entry>, n: nat)
    requires n <= |es|
    ensures |Hashes(scale, es)| == |es| && Hashes(scale, es)[..n] == Hashes(scale, es[..n])
  {
  }

  lemma {:induction false} SumConcat(ps: seq<Posting>, qs: seq<Posting>, k: BalanceKey)
    ensures Sum(ps + qs, k).debits == Sum(ps, k).debits + Sum(qs, k).debits
    ensures Sum(ps + qs, k).credits == Sum(ps, k).credits + Sum(qs, k).credits
  {
    if qs == [] {
      assert ps + qs == ps;
    } else {
      SumConcat(ps, qs[..|qs| - 1], k);
      assert (ps + qs)[..|ps + qs| - 1] == ps + qs[..|qs| - 1];
    }
  }

  lemma SumTakenOut(ps: seq<Posting>, j: nat, k: BalanceKey)
    requires j < |ps|
    ensures var rest, p := Sum(ps[..j] + ps[j + 1..], k), ps[j];
      Sum(ps, k) == if p.Key() == k then rest.Added(p.direction, p.amount) else rest
  {
    hide Sum;
    assert ps == (ps[..j] + [ps[j]]) + ps[j + 1..];
    SumConcat(ps[..j] + [ps[j]], ps[j + 1..], k);
    SumConcat(ps[..j], ps[j + 1..], k);
    SumLast(ps[..j], ps[j], k);
  }

  lemma SumLast(ps: seq<Posting>, p: Posting, k: BalanceKey)
    ensures Sum(ps + [p], k) == if p.Key() == k then Sum(ps, k).Added(p.direction, p.amount) else Sum(ps, k)
  {
    assert (ps + [p])[..|ps|] == ps;
  }

  /** One more posting adds its amount to its own side of its own key: a debit raises the net, a credit lowers it. */
  lemma SumMoves(ps: seq<Posting>, p: Posting, k: BalanceKey)
    ensures Sum(ps + [p], k).debits - Sum(ps, k).debits == if p.Key() == k && p.direction == Debit then p.amount else 0
    ensures Sum(ps + [p], k).credits - Sum(ps, k).credits == if p.Key() == k && p.direction == Credit then p.amount else 0
  {
    SumLast(ps, p, k);
  }

  /** The same postings in another order have the same totals. */
  lemma {:induction false} SumShuffled(ps: seq<Posting>, qs: seq<Posting>, k: BalanceKey)
    requires multiset(ps) == multiset(qs)
    ensures Sum(ps, k) == Sum(qs, k)
  {
    hide Sum;
    assert |ps| == |multiset(ps)| && |qs| == |multiset(qs)|;
    if ps == [] {
      assert qs == [];
    } else {
      var front, last := ps[..|ps| - 1], ps[|ps| - 1];
      assert ps == front + [last];
      assert last in multiset(qs);
      var j :| 0 <= j < |qs| && qs[j] == last;
      SumTakenOut(qs, j, k);
      SumLast(front, last, k);
      TakenOut(qs, j);
      SumShuffled(front, qs[..j] + qs[j + 1..], k);
    }
  }

  lemma TakenOut(qs: seq<Posting>, j: nat)
    requires j < |qs|
    ensures multiset(qs[..j] + qs[j + 1..]) == multiset(qs) - multiset{qs[j]}
  {
    assert qs == qs[..j] + [qs[j]] + qs[j + 1..];
  }

  lemma {:induction false} SumUntouched(ps: seq<Posting>, k: BalanceKey)
    requires k !in Touched(ps)
    ensures Sum(ps, k) == ZERO
  {
    if ps != [] {
      assert ps[|ps| - 1] in ps;
      assert Touched(ps[..|ps| - 1]) <= Touched(ps);
      SumUntouched(ps[..|ps| - 1], k);
    }
  }

  lemma {:induction false} SumNonNegative(ps: seq<Posting>, k: BalanceKey)
    requires AllPositive(ps)
    ensures Sum(ps, k).debits >= 0 && Sum(ps, k).credits >= 0
  {
    if ps != [] {
      assert ps[|ps| - 1] in ps;
      SumNonNegative(ps[..|ps| - 1], k);
    }
  }

  /** Totals of a prefix never exceed those of the whole. */
  lemma SumPrefix(ps: seq<Posting>, n: nat, k: BalanceKey)
    requires AllPositive(ps) && n <= |ps|
    ensures 0 <= Sum(ps[..n], k).debits <= Sum(ps, k).debits
    ensures 0 <= Sum(ps[..n], k).credits <= Sum(ps, k).credits
  {
    assert ps[..n] + ps[n..] == ps;
    SumConcat(ps[..n], ps[n..], k);
    SumNonNegative(ps[..n], k);
    SumNonNegative(ps[n..], k);
  }

  lemma TouchedConcat(ps: seq<Posting>, qs: seq<Posting>)
    ensures Touched(ps + qs) == Touched(ps) + Touched(qs)
  {
    forall k
      ensures k in Touched(ps + qs) <==> k in Touched(ps) + Touched(qs)
    {
      if k in Touched(ps) {
        var p :| p in ps && p.Key() == k;
        assert p in ps + qs;
      }
      if k in Touched(qs) {
        var p :| p in qs && p.Key() == k;
        assert p in ps + qs;
      }
    }
  }

  lemma {:induction false} FlatConcat(es: seq<Entry>, fs: seq<Entry>)
    ensures Flat(es + fs) == Flat(es) + Flat(fs)
  {
    hide Flat;
    if fs == [] {
      NothingFlat();
      assert es + fs == es && Flat(es) + [] == Flat(es);
    } else {
      var front, last := fs[..|fs| - 1], fs[|fs| - 1];
      assert fs == front + [last] && es + fs == es + front + [last];
      FlatConcat(es, front);
      FlatAppend(front, last);
      FlatAppend(es + front, last);
      assert Flat(es) + Flat(front) + last.postings == Flat(es) + (Flat(front) + last.postings);
    }
  }

  lemma NothingFlat()
    ensures Flat([]) == []
  {
  }

  lemma FlatAppend(es: seq<Entry>, e: Entry)
    ensures Flat(es + [e]) == Flat(es) + e.postings
  {
    assert (es + [e])[..|es|] == es;
  }

  /** An entry booked after a date leaves the balances through that date alone. */
  lemma ThroughAppend(es: seq<Entry>, e: Entry, end: Date)
    ensures FlatThrough(es + [e], end) == FlatThrough(es, end) + if e.bookingDate <= end then e.postings else []
  {
    assert (es + [e])[..|es|] == es;
  }

  /** Balances through a date are bounded by the balances over everything. */
  lemma {:induction false} ThroughBounded(es: seq<Entry>, end: Date, k: BalanceKey)
    requires AllPositive(Flat(es))
    ensures AllPositive(FlatThrough(es, end))
    ensures 0 <= Sum(FlatThrough(es, end), k).debits <= Sum(Flat(es), k).debits
    ensures 0 <= Sum(FlatThrough(es, end), k).credits <= Sum(Flat(es), k).credits
  {
    if es != [] {
      var front, last := es[..|es| - 1], es[|es| - 1];
      FlatPositive(front, last.postings);
      ThroughBounded(front, end, k);
      SumConcat(Flat(front), last.postings, k);
      SumNonNegative(last.postings, k);
      if last.bookingDate <= end {
        SumConcat(FlatThrough(front, end), last.postings, k);
      } else {
        assert FlatThrough(es, end) == FlatThrough(front, end);
      }
    }
  }

  lemma FlatPositive(front: seq<Entry>, ps: seq<Posting>)
    requires AllPositive(Flat(front) + ps)
    ensures AllPositive(Flat(front)) && AllPositive(ps)
  {
    forall p | p in Flat(front) || p in ps
      ensures p.amount > 0
    {
      assert p in Flat(front) + ps;
    }
  }

  lemma {:induction false} ThroughTouched(es: seq<Entry>, end: Date)
    ensures Touched(FlatThrough(es, end)) <= Touched(Flat(es))
  {
    if es != [] {
      var front, last := es[..|es| - 1], es[|es| - 1];
      ThroughTouched(front, end);
      TouchedConcat(Flat(front), last.postings);
      TouchedConcat(FlatThrough(front, end), if last.bookingDate <= end then last.postings else []);
    }
  }

  // --------------------------------------------------------------------- sites

  /** Where a posting sits: which entry, and which posting of it. */
  datatype Site = Site(index: nat, posting: nat)
  {
    predicate Before(other: Site)
    {
      index < other.index || (index == other.index && posting < other.posting)
    }
  }

  function SitesIn(index: nat, ps: seq<Posting>, k: BalanceKey): seq<Site>
  {
    if ps == [] then []
    else
      SitesIn(index, ps[..|ps| - 1], k)
        + if ps[|ps| - 1].Key() == k then [Site(index, |ps| - 1)] else []
  }

  /** The sites of a key, in log order. */
  function SitesOn(es: seq<Entry>, k: BalanceKey): seq<Site>
  {
    if es == [] then []
    else SitesOn(es[..|es| - 1], k) + SitesIn(|es| - 1, es[|es| - 1].postings, k)
  }

  predicate Resolves(es: seq<Entry>, s: Site)
  {
    s.index < |es| && s.posting < |es[s.index].postings|
  }

  function PostingAt(es: seq<Entry>, s: Site): Posting
    requires Resolves(es, s)
  {
    es[s.index].postings[s.posting]
  }

  /** Sites are in strict log order. */
  ghost predicate InLogOrder(sites: seq<Site>)
  {
    forall i, j :: 0 <= i < j < |sites| ==> sites[i].Before(sites[j])
  }

  lemma {:induction false} SitesInFacts(index: nat, ps: seq<Posting>, k: BalanceKey)
    ensures forall s :: s in SitesIn(index, ps, k) <==>
      s.index == index && s.posting < |ps| && ps[s.posting].Key() == k
    ensures InLogOrder(SitesIn(index, ps, k))
  {
    if ps != [] {
      var rest := SitesIn(index, ps[..|ps| - 1], k);
      SitesInFacts(index, ps[..|ps| - 1], k);
      forall i | 0 <= i < |rest|
        ensures rest[i].index == index && rest[i].posting < |ps| - 1
      {
        assert rest[i] in rest;
      }
    }
  }

  /** The sites of a key are exactly the places it is posted to, once each and in order. */
  lemma {:induction false} SitesOnFacts(es: seq<Entry>, k: BalanceKey)
    ensures forall s :: s in SitesOn(es, k) <==> Resolves(es, s) && PostingAt(es, s).Key() == k
    ensures InLogOrder(SitesOn(es, k))
  {
    if es != [] {
      var front, last := es[..|es| - 1], es[|es| - 1].postings;
      var early, late := SitesOn(front, k), SitesIn(|es| - 1, last, k);
      SitesOnFacts(front, k);
      SitesInFacts(|es| - 1, last, k);
      forall s
        ensures s in SitesOn(es, k) <==> Resolves(es, s) && PostingAt(es, s).Key() == k
      {
        assert s in early <==> Resolves(front, s) && PostingAt(front, s).Key() == k;
      }
      forall i, j | 0 <= i < j < |early + late|
        ensures (early + late)[i].Before((early + late)[j])
      {
        if i < |early| <= j {
          assert early[i] in early && late[j - |early|] in late;
        }
      }
    }
  }

  /** A key has sites exactly when it has been posted to. */
  lemma {:induction false} SitesOnTouched(es: seq<Entry>, k: BalanceKey)
    ensures SitesOn(es, k) != [] <==> k in Touched(Flat(es))
  {
    if es != [] {
      var front, last := es[..|es| - 1], es[|es| - 1].postings;
      SitesOnTouched(front, k);
      TouchedConcat(Flat(front), last);
      SitesInTouched(|es| - 1, last, k);
    }
  }

  lemma {:induction false} SitesInTouched(index: nat, ps: seq<Posting>, k: BalanceKey)
    ensures SitesIn(index, ps, k) != [] <==> k in Touched(ps)
  {
    if ps != [] {
      SitesInTouched(index, ps[..|ps| - 1], k);
      assert ps == ps[..|ps| - 1] + [ps[|ps| - 1]];
      TouchedConcat(ps[..|ps| - 1], [ps[|ps| - 1]]);
    }
  }

  /** The balance obtained by adding up the postings at some sites. */
  function SiteSum(es: seq<Entry>, sites: seq<Site>): Balance
    requires forall s :: s in sites ==> Resolves(es, s)
  {
    if sites == [] then ZERO
    else
      var p := PostingAt(es, sites[|sites| - 1]);
      SiteSum(es, sites[..|sites| - 1]).Added(p.direction, p.amount)
  }

  lemma EmptySites(es: seq<Entry>, sites: seq<Site>)
    ensures SiteSum(es, sites[..0]) == ZERO
  {
  }

  lemma SiteSumStep(es: seq<Entry>, sites: seq<Site>, i: nat)
    requires i < |sites| && forall s :: s in sites ==> Resolves(es, s)
    ensures sites[i] in sites
    ensures var p := PostingAt(es, sites[i]);
      SiteSum(es, sites[..i + 1]) == SiteSum(es, sites[..i]).Added(p.direction, p.amount)
  {
    assert sites[..i + 1][..i] == sites[..i];
  }

  lemma {:induction false} SiteSumLocal(es: seq<Entry>, fs: seq<Entry>, sites: seq<Site>)
    requires forall s :: s in sites ==> Resolves(es, s) && Resolves(fs, s) && PostingAt(es, s) == PostingAt(fs, s)
    ensures SiteSum(es, sites) == SiteSum(fs, sites)
  {
    if sites != [] {
      assert sites[|sites| - 1] in sites;
      SiteSumLocal(es, fs, sites[..|sites| - 1]);
    }
  }

  lemma {:induction false} SiteSumConcat(es: seq<Entry>, a: seq<Site>, b: seq<Site>)
    requires forall s :: s in a + b ==> Resolves(es, s)
    ensures forall s :: s in a || s in b ==> s in a + b
    ensures SiteSum(es, a + b).debits == SiteSum(es, a).debits + SiteSum(es, b).debits
    ensures SiteSum(es, a + b).credits == SiteSum(es, a).credits + SiteSum(es, b).credits
  {
    if b == [] {
      assert a + b == a;
    } else {
      var front := b[..|b| - 1];
      assert (a + b)[..|a + b| - 1] == a + front;
      SiteSumConcat(es, a, front);
    }
  }

  lemma SitesInLast(index: nat, ps: seq<Posting>, k: BalanceKey)
    ensures ps == [] ==> SitesIn(index, ps, k) == []
    ensures ps != [] ==>
      var front := SitesIn(index, ps[..|ps| - 1], k);
      SitesIn(index, ps, k) == if ps[|ps| - 1].Key() == k then front + [Site(index, |ps| - 1)] else front
  {
  }

  /** Within one entry, adding up a key's sites gives that entry's movement on the key. */
  lemma {:induction false} SiteSumIn(es: seq<Entry>, index: nat, n: nat, k: BalanceKey)
    requires index < |es| && n <= |es[index].postings|
    ensures forall s :: s in SitesIn(index, es[index].postings[..n], k) ==> Resolves(es, s)
    ensures SiteSum(es, SitesIn(index, es[index].postings[..n], k)) == Sum(es[index].postings[..n], k)
  {
    hide SitesIn;
    var ps := es[index].postings[..n];
    SitesInFacts(index, ps, k);
    SitesInLast(index, ps, k);
    if n > 0 {
      SiteSumIn(es, index, n - 1, k);
      assert ps[..n - 1] == es[index].postings[..n - 1];
      var front := SitesIn(index, ps[..n - 1], k);
      if ps[n - 1].Key() == k {
        assert (front + [Site(index, n - 1)])[..|front|] == front;
      }
    }
  }

  lemma EmptySum(k: BalanceKey)
    ensures Sum([], k) == ZERO
  {
  }

  lemma NoSites(es: seq<Entry>)
    ensures SiteSum(es, []) == ZERO
  {
  }

  /** Adding up a key's sites gives its balance. */
  lemma {:induction false} SiteSumIsSum(es: seq<Entry>, k: BalanceKey)
    ensures forall s :: s in SitesOn(es, k) ==> Resolves(es, s)
    ensures SiteSum(es, SitesOn(es, k)) == Sum(Flat(es), k)
  {
    hide SitesIn, Sum, SiteSum;
    SitesOnFacts(es, k);
    if es == [] {
      EmptySum(k);
      NoSites(es);
    } else {
      var front, last := es[..|es| - 1], es[|es| - 1].postings;
      SitesOnFacts(front, k);
      SiteSumIsSum(front, k);
      SiteSumLocal(front, es, SitesOn(front, k));
      assert last[..|last|] == last;
      SiteSumIn(es, |es| - 1, |last|, k);
      SiteSumConcat(es, SitesOn(front, k), SitesIn(|es| - 1, last, k));
      SumConcat(Flat(front), last, k);
    }
  }

  /** The sites within the first `size` entries are a prefix of all of them. */
  lemma {:induction false} SitesPrefix(es: seq<Entry>, size: nat, k: BalanceKey)
    requires size <= |es|
    ensures |SitesOn(es[..size], k)| <= |SitesOn(es, k)|
    ensures SitesOn(es, k)[..|SitesOn(es[..size], k)|] == SitesOn(es[..size], k)
    ensures forall i :: |SitesOn(es[..size], k)| <= i < |SitesOn(es, k)| ==> SitesOn(es, k)[i].index >= size
  {
    if size == |es| {
      assert es[..size] == es;
    } else {
      var front := es[..|es| - 1];
      assert front[..size] == es[..size];
      SitesPrefix(front, size, k);
      SitesInFacts(|es| - 1, es[|es| - 1].postings, k);
      forall i | |SitesOn(es[..size], k)| <= i < |SitesOn(es, k)|
        ensures SitesOn(es, k)[i].index >= size
      {
        if i >= |SitesOn(front, k)| {
          assert SitesOn(es, k)[i] in SitesIn(|es| - 1, es[|es| - 1].postings, k);
        }
      }
    }
  }
}

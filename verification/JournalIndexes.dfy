/**
 The indexes a journal keeps beside its entries, and how they follow an append or its undoing.

 `Derived` says each index is a function of the entries: it answers what a search of
 the entries would. Everything here works on values; the journal holds them in fields.
 */
module JournalIndexes {
  import opened Wrappers
  import opened Hashing
  import opened Canonical
  import opened Entries
  import opened Books
  import opened Validation
  import opened Seals
  import opened Ledgers
  import opened OrderedMaps

  type IdIndex = map<Id, nat>
  type KeyedIndex = map<Text, (Id, nat, Hash)>
  type ReversalMap = map<Id, Id>
  type SiteMap = map<BalanceKey, seq<Site>>

  ghost predicate IdsDerived(es: seq<Entry>, byId: IdIndex)
  {
    && (forall id :: id in byId <==> IndexOf(es, id).Some?)
    && (forall id :: id in byId ==> IndexOf(es, id) == Some(byId[id]))
  }

  ghost predicate KeysDerived(scale: byte, es: seq<Entry>, byKey: KeyedIndex)
  {
    && (forall k :: k in byKey <==> KeyIndex(es, k).Some?)
    && (forall k :: k in byKey ==>
          KeyIndex(es, k) == Some(byKey[k].1) && byKey[k].1 < |es|
          && byKey[k].0 == es[byKey[k].1].id && byKey[k].2 == ContentHash(scale, es[byKey[k].1]))
  }

  ghost predicate ReversalsDerived(es: seq<Entry>, reversedBy: ReversalMap)
  {
    && (forall o :: o in reversedBy <==> ReversalIndex(es, o).Some?)
    && (forall o :: o in reversedBy ==>
          var i := ReversalIndex(es, o).value; i < |es| && es[i].id == reversedBy[o])
  }

  /** Identifier to position, key to position and hash, original to reversal. */
  ghost predicate NamesDerived(scale: byte, es: seq<Entry>, byId: IdIndex, byKey: KeyedIndex, reversedBy: ReversalMap)
  {
    IdsDerived(es, byId) && KeysDerived(scale, es, byKey) && ReversalsDerived(es, reversedBy)
  }

  /** A posting list for every key posted to, and for no other. */
  ghost predicate SitesDerived(es: seq<Entry>, sites: SiteMap)
  {
    forall k: BalanceKey :: (k in sites <==> SitesOn(es, k) != []) && (k in sites ==> sites[k] == SitesOn(es, k))
  }

  lemma PositionsInRange(es: seq<Entry>)
    ensures forall k: Text :: KeyIndex(es, k).Some? ==> KeyIndex(es, k).value < |es|
    ensures forall o: Id :: ReversalIndex(es, o).Some? ==> ReversalIndex(es, o).value < |es|
  {
    forall k: Text
      ensures KeyIndex(es, k).Some? ==> KeyIndex(es, k).value < |es|
    {
      KeyIndexFacts(es, k);
    }
    forall o: Id
      ensures ReversalIndex(es, o).Some? ==> ReversalIndex(es, o).value < |es|
    {
      ReversalIndexFacts(es, o);
    }
  }

  /** The entries determine every index. */
  lemma NamesUnique(scale: byte, es: seq<Entry>, a: IdIndex, b: IdIndex, c: KeyedIndex, d: KeyedIndex, e: ReversalMap, f: ReversalMap)
    requires NamesDerived(scale, es, a, c, e) && NamesDerived(scale, es, b, d, f)
    ensures a == b && c == d && e == f
  {
    hide ContentHash, IndexOf, KeyIndex, ReversalIndex;
    assert forall k :: k in c ==> c[k] == (c[k].0, c[k].1, c[k].2);
    assert forall k :: k in d ==> d[k] == (d[k].0, d[k].1, d[k].2);
  }

  lemma SitesUnique(es: seq<Entry>, a: SiteMap, b: SiteMap)
    requires SitesDerived(es, a) && SitesDerived(es, b)
    ensures a == b
  {
  }

  /** Filing a new entry. */
  lemma NamesAppend(scale: byte, es: seq<Entry>, byId: IdIndex, byKey: KeyedIndex, reversedBy: ReversalMap, e: Entry)
    requires NamesDerived(scale, es, byId, byKey, reversedBy)
    ensures NamesDerived(scale, es + [e], byId[e.id := |es|], byKey[e.key := (e.id, |es|, ContentHash(scale, e))],
      if e.reverses.Some? then reversedBy[e.reverses.value := e.id] else reversedBy)
  {
    hide ContentHash;
    assert (es + [e])[..|es|] == es;
    PositionsInRange(es);
  }

  lemma IdRemove(es: seq<Entry>, byId: IdIndex)
    requires es != [] && DistinctEntries(es) && IdsDerived(es, byId)
    ensures IdsDerived(es[..|es| - 1], byId - {es[|es| - 1].id})
  {
    IndexOfFacts(es[..|es| - 1], es[|es| - 1].id);
  }

  lemma KeyRemove(scale: byte, es: seq<Entry>, byKey: KeyedIndex)
    requires es != [] && DistinctEntries(es) && KeysDerived(scale, es, byKey)
    ensures KeysDerived(scale, es[..|es| - 1], byKey - {es[|es| - 1].key})
  {
    hide ContentHash;
    KeyIndexFacts(es[..|es| - 1], es[|es| - 1].key);
    PositionsInRange(es[..|es| - 1]);
  }

  lemma ReversalRemove(es: seq<Entry>, reversedBy: ReversalMap)
    requires es != [] && ReversalsSound(es) && ReversalsDerived(es, reversedBy)
    ensures var e := es[|es| - 1];
      ReversalsDerived(es[..|es| - 1], if e.reverses.Some? then reversedBy - {e.reverses.value} else reversedBy)
  {
    hide IsInversion;
    var e, front := es[|es| - 1], es[..|es| - 1];
    PositionsInRange(front);
    if e.reverses.Some? {
      ReversalIndexFacts(front, e.reverses.value);
    }
  }

  /** Removing the last entry again. */
  lemma NamesRemove(scale: byte, es: seq<Entry>, byId: IdIndex, byKey: KeyedIndex, reversedBy: ReversalMap)
    requires es != [] && DistinctEntries(es) && ReversalsSound(es)
    requires NamesDerived(scale, es, byId, byKey, reversedBy)
    ensures var e := es[|es| - 1];
      NamesDerived(scale, es[..|es| - 1], byId - {e.id}, byKey - {e.key},
        if e.reverses.Some? then reversedBy - {e.reverses.value} else reversedBy)
  {
    hide DistinctEntries, ReversalsSound, IdsDerived, KeysDerived, ReversalsDerived;
    IdRemove(es, byId);
    KeyRemove(scale, es, byKey);
    ReversalRemove(es, reversedBy);
  }

  // -------------------------------------------------------------------- sites

  lemma SitesInStart(index: nat, ps: seq<Posting>)
    ensures forall k :: SitesIn(index, ps[..0], k) == []
  {
  }

  lemma SitesInStep(index: nat, ps: seq<Posting>, i: nat)
    requires i < |ps|
    ensures forall k :: k != ps[i].Key() ==> SitesIn(index, ps[..i + 1], k) == SitesIn(index, ps[..i], k)
    ensures SitesIn(index, ps[..i + 1], ps[i].Key()) == SitesIn(index, ps[..i], ps[i].Key()) + [Site(index, i)]
  {
    assert ps[..i + 1][..i] == ps[..i];
  }

  ghost predicate SitesAdded(sites: SiteMap, index: nat, ps: seq<Posting>, after: SiteMap)
  {
    && (forall k: BalanceKey :: k in after <==> k in sites || SitesIn(index, ps, k) != [])
    && (forall k :: k in after ==> after[k] == (if k in sites then sites[k] else []) + SitesIn(index, ps, k))
  }

  /** Files each posting of a new entry under its key. */
  method AddSites(sites: SiteMap, index: nat, ps: seq<Posting>) returns (after: SiteMap)
    ensures SitesAdded(sites, index, ps, after)
  {
    hide SitesAdded;
    after := sites;
    NothingAdded(sites, index, ps);
    for i := 0 to |ps|
      invariant SitesAdded(sites, index, ps[..i], after)
    {
      AddedNext(sites, index, ps, i, after);
      var key := ps[i].Key();
      var here := if key in after then after[key] else [];
      after := after[key := here + [Site(index, i)]];
    }
    assert ps[..|ps|] == ps;
  }

  lemma NothingAdded(sites: SiteMap, index: nat, ps: seq<Posting>)
    ensures SitesAdded(sites, index, ps[..0], sites)
  {
    hide SitesIn;
    SitesInStart(index, ps);
  }

  lemma AddedNext(sites: SiteMap, index: nat, ps: seq<Posting>, i: nat, after: SiteMap)
    requires i < |ps| && SitesAdded(sites, index, ps[..i], after)
    ensures var key := ps[i].Key();
      var here := if key in after then after[key] else [];
      SitesAdded(sites, index, ps[..i + 1], after[key := here + [Site(index, i)]])
  {
    hide SitesIn;
    SitesInStep(index, ps, i);
  }

  lemma SitesAppend(es: seq<Entry>, sites: SiteMap, e: Entry, after: SiteMap)
    requires SitesDerived(es, sites) && SitesAdded(sites, |es|, e.postings, after)
    ensures SitesDerived(es + [e], after)
  {
    assert (es + [e])[..|es|] == es;
  }

  /** The sites not in one entry. */
  function Retained(sites: seq<Site>, index: nat): seq<Site>
  {
    if sites == [] then []
    else
      Retained(sites[..|sites| - 1], index)
        + if sites[|sites| - 1].index != index then [sites[|sites| - 1]] else []
  }

  lemma {:induction false} RetainedSame(sites: seq<Site>, index: nat)
    requires forall s :: s in sites ==> s.index != index
    ensures Retained(sites, index) == sites
  {
    if sites != [] {
      var front, last := sites[..|sites| - 1], sites[|sites| - 1];
      assert last in sites && sites == front + [last];
      RetainedSame(front, index);
    }
  }

  lemma {:induction false} RetainedDrops(a: seq<Site>, b: seq<Site>, index: nat)
    requires forall s :: s in a ==> s.index != index
    requires forall s :: s in b ==> s.index == index
    ensures Retained(a + b, index) == a
  {
    if b == [] {
      assert a + b == a;
      RetainedSame(a, index);
    } else {
      assert b[|b| - 1] in b;
      assert (a + b)[..|a + b| - 1] == a + b[..|b| - 1];
      RetainedDrops(a, b[..|b| - 1], index);
    }
  }

  /** Dropping the last entry's sites from a key's list leaves the list of the shorter log. */
  lemma RetainedIsPrefix(es: seq<Entry>, k: BalanceKey)
    requires es != []
    ensures Retained(SitesOn(es, k), |es| - 1) == SitesOn(es[..|es| - 1], k)
    ensures k !in Touched(es[|es| - 1].postings) ==> SitesOn(es, k) == SitesOn(es[..|es| - 1], k)
    ensures SitesOn(es[..|es| - 1], k) != [] ==> SitesOn(es, k) != []
  {
    var front, last := es[..|es| - 1], es[|es| - 1].postings;
    SitesOnFacts(front, k);
    SitesInFacts(|es| - 1, last, k);
    SitesInTouched(|es| - 1, last, k);
    RetainedDrops(SitesOn(front, k), SitesIn(|es| - 1, last, k), |es| - 1);
  }

  /** A list is right, though a touched key may be left with an empty one. */
  ghost predicate SiteDuringUndo(es: seq<Entry>, sites: SiteMap, touched: set<BalanceKey>, k: BalanceKey)
  {
    && (k in sites ==> sites[k] == SitesOn(es, k))
    && (SitesOn(es, k) != [] ==> k in sites)
    && (k in sites && SitesOn(es, k) == [] ==> k in touched)
  }

  ghost predicate SitesDuringUndo(es: seq<Entry>, sites: SiteMap, touched: set<BalanceKey>)
  {
    forall k: BalanceKey :: SiteDuringUndo(es, sites, touched, k)
  }

  /** Takes one entry's postings out of the lists of their keys. */
  method RemoveSites(sites: SiteMap, index: nat, ps: seq<Posting>) returns (after: SiteMap)
    ensures after.Keys == sites.Keys
    ensures forall k :: k in sites ==>
      after[k] == if k in Touched(ps) then Retained(sites[k], index) else sites[k]
  {
    after := sites;
    for i := 0 to |ps|
      invariant after.Keys == sites.Keys
      invariant forall k :: k in sites ==>
        after[k] == if k in Touched(ps[..i]) then Retained(sites[k], index) else sites[k]
    {
      var key := ps[i].Key();
      assert ps[..i + 1] == ps[..i] + [ps[i]];
      TouchedConcat(ps[..i], [ps[i]]);
      if key in after {
        RetainedTwice(sites[key], index);
        after := after[key := Retained(after[key], index)];
      }
    }
    assert ps[..|ps|] == ps;
  }

  lemma {:induction false} RetainedTwice(sites: seq<Site>, index: nat)
    ensures Retained(Retained(sites, index), index) == Retained(sites, index)
  {
    RetainedKeeps(sites, index);
    RetainedSame(Retained(sites, index), index);
  }

  lemma {:induction false} RetainedKeeps(sites: seq<Site>, index: nat)
    ensures forall s :: s in Retained(sites, index) ==> s.index != index
  {
    if sites != [] {
      RetainedKeeps(sites[..|sites| - 1], index);
    }
  }

  lemma UndoSites(es: seq<Entry>, sites: SiteMap, touched: set<BalanceKey>, after: SiteMap)
    requires es != [] && SitesDuringUndo(es, sites, touched)
    requires after.Keys == sites.Keys
    requires forall k :: k in sites ==>
      after[k] == if k in Touched(es[|es| - 1].postings) then Retained(sites[k], |es| - 1) else sites[k]
    ensures SitesDuringUndo(es[..|es| - 1], after, touched + Touched(es[|es| - 1].postings))
  {
    hide SitesOn, Retained, Touched;
    var front, more := es[..|es| - 1], touched + Touched(es[|es| - 1].postings);
    forall k: BalanceKey
      ensures SiteDuringUndo(front, after, more, k)
    {
      assert SiteDuringUndo(es, sites, touched, k);
      RetainedIsPrefix(es, k);
    }
  }

  // ----------------------------------------------------------------- balances

  /** Adds postings to a copy of the balances, stopping at the first that overflows. */
  method ApplyAll(balances: TrialBalance, ghost before: seq<Posting>, ps: seq<Posting>)
    returns (r: Option<TrialBalance>)
    requires balances == TrialOf(before) && AllFit(balances) && AllPositive(before + ps)
    ensures r.Some? <==> AllFit(TrialOf(before + ps))
    ensures r.Some? ==> r.value == TrialOf(before + ps)
  {
    hide TrialOf, Sum;
    var after := balances;
    assert before + ps[..0] == before;
    for i := 0 to |ps|
      invariant after == TrialOf(before + ps[..i]) && AllFit(after)
    {
      var p := ps[i];
      TrialStep(before + ps[..i], p);
      assert before + ps[..i + 1] == (before + ps[..i]) + [p];
      assert (before + ps)[..|before| + i + 1] == before + ps[..i + 1];
      var here := if p.Key() in after then after[p.Key()] else ZERO;
      var next := here.Added(p.direction, p.amount);
      if !next.Fits() {
        OverflowPersists(before + ps, |before| + i + 1, p.Key());
        return None;
      }
      after := after[p.Key() := next];
    }
    assert before + ps[..|ps|] == before + ps;
    return Some(after);
  }

  lemma TrialStep(ps: seq<Posting>, p: Posting)
    ensures var here := if p.Key() in TrialOf(ps) then TrialOf(ps)[p.Key()] else ZERO;
      && TrialOf(ps + [p]) == TrialOf(ps)[p.Key() := here.Added(p.direction, p.amount)]
  {
    assert (ps + [p])[..|ps|] == ps;
    TouchedConcat(ps, [p]);
    assert Touched([p]) == {p.Key()};
    if p.Key() !in Touched(ps) {
      SumUntouched(ps, p.Key());
    }
  }

  /** With positive amounts a total that does not fit stays so. */
  lemma OverflowPersists(ps: seq<Posting>, n: nat, k: BalanceKey)
    requires AllPositive(ps) && n <= |ps| && k in TrialOf(ps[..n]) && !TrialOf(ps[..n])[k].Fits()
    ensures !AllFit(TrialOf(ps))
  {
    SumPrefix(ps, n, k);
    var p :| p in ps[..n] && p.Key() == k;
    assert p in ps;
    assert k in TrialOf(ps);
  }

  /** A key no removed posting touched keeps its row. */
  lemma UntouchedRow(es: seq<Entry>, mark: nat, k: BalanceKey)
    requires mark <= |es| && k !in Touched(Flat(es[mark..]))
    ensures Sum(Flat(es), k) == Sum(Flat(es[..mark]), k)
    ensures k in Touched(Flat(es)) <==> k in Touched(Flat(es[..mark]))
  {
    assert es == es[..mark] + es[mark..];
    FlatConcat(es[..mark], es[mark..]);
    SumConcat(Flat(es[..mark]), Flat(es[mark..]), k);
    SumUntouched(Flat(es[mark..]), k);
    TouchedConcat(Flat(es[..mark]), Flat(es[mark..]));
  }

  /** Reading a prefix of the sites that lie within the first `size` entries. */
  method FoldSites(es: seq<Entry>, sites: seq<Site>, size: nat, ghost k: BalanceKey)
    returns (balance: Balance, overflowed: bool)
    requires EntriesSound(es) && sites == SitesOn(es, k) && size <= |es|
    ensures !overflowed && balance == Sum(Flat(es[..size]), k)
  {
    hide EntriesSound, SitesOn, Sum, Flat, SiteSum;
    balance, overflowed := ZERO, false;
    var i := 0;
    EmptySites(es, sites);
    SitesOnFacts(es, k);
    SitesPrefix(es, size, k);
    ghost var stop := |SitesOn(es[..size], k)|;
    PrefixSum(es, size, k);
    while i < |sites| && sites[i].index < size
      invariant 0 <= i <= stop && !overflowed
      invariant balance == SiteSum(es, sites[..i])
    {
      SiteSumStep(es, sites, i);
      var p := es[sites[i].index].postings[sites[i].posting];
      balance := balance.Added(p.direction, p.amount);
      SiteSumFits(es, k, i + 1);
      if !balance.Fits() {
        overflowed := true;
        break;
      }
      i := i + 1;
    }
    if i < stop {
      assert sites[..stop][i] in SitesOn(es[..size], k);
      SitesOnFacts(es[..size], k);
    }
  }

  /** Every running total along a key's sites fits. */
  lemma SiteSumFits(es: seq<Entry>, k: BalanceKey, n: nat)
    requires EntriesSound(es) && n <= |SitesOn(es, k)|
    ensures forall s :: s in SitesOn(es, k) ==> Resolves(es, s)
    ensures SiteSum(es, SitesOn(es, k)[..n]).Fits()
  {
    SiteSumIsSum(es, k);
    FlatAllPositive(es);
    var sites := SitesOn(es, k);
    assert sites == sites[..n] + sites[n..];
    SiteSumConcat(es, sites[..n], sites[n..]);
    SiteSumPositive(es, sites[..n]);
    SiteSumPositive(es, sites[n..]);
    if k in Touched(Flat(es)) {
      assert k in TrialOf(Flat(es));
    } else {
      SumUntouched(Flat(es), k);
    }
  }

  lemma {:induction false} SiteSumPositive(es: seq<Entry>, sites: seq<Site>)
    requires (forall e :: e in es ==> WellBalanced(e)) && forall s :: s in sites ==> Resolves(es, s)
    ensures SiteSum(es, sites).debits >= 0 && SiteSum(es, sites).credits >= 0
  {
    if sites != [] {
      var last := sites[|sites| - 1];
      assert last in sites && es[last.index] in es;
      assert es[last.index].postings[last.posting] in es[last.index].postings;
      SiteSumPositive(es, sites[..|sites| - 1]);
    }
  }

  /** Adding up the sites within a prefix gives the balance at that prefix. */
  lemma PrefixSum(es: seq<Entry>, size: nat, k: BalanceKey)
    requires size <= |es|
    ensures forall s :: s in SitesOn(es, k) ==> Resolves(es, s)
    ensures var n := |SitesOn(es[..size], k)|;
      n <= |SitesOn(es, k)| && SiteSum(es, SitesOn(es, k)[..n]) == Sum(Flat(es[..size]), k)
  {
    SitesOnFacts(es, k);
    SitesPrefix(es, size, k);
    SiteSumIsSum(es[..size], k);
    SitesOnFacts(es[..size], k);
    SiteSumLocal(es[..size], es, SitesOn(es[..size], k));
  }

  /** With no entries every index is empty. */
  lemma NothingDerived(scale: byte)
    ensures NamesDerived(scale, [], map[], map[], map[]) && SitesDerived([], map[])
    ensures TrialOf(Flat([])) == map[] && Hashes(scale, []) == []
  {
  }

  /** The keys touched by the entries from a mark on. */
  ghost predicate TouchedSince(es: seq<Entry>, mark: nat, touched: set<BalanceKey>)
    requires mark <= |es|
  {
    touched == Touched(Flat(es[mark..]))
  }

  lemma TouchedOneMore(es: seq<Entry>, n: nat, touched: set<BalanceKey>)
    requires 0 < n <= |es| && TouchedSince(es, n, touched)
    ensures TouchedSince(es, n - 1, touched + Touched(es[n - 1].postings))
  {
    assert es[n - 1..] == [es[n - 1]] + es[n..];
    FlatConcat([es[n - 1]], es[n..]);
    assert Flat([es[n - 1]]) == es[n - 1].postings by {
      FlatAppend([], es[n - 1]);
      assert [] + [es[n - 1]] == [es[n - 1]];
    }
    TouchedConcat(es[n - 1].postings, Flat(es[n..]));
  }

  /** A key whose list and row are what the entries give. */
  ghost predicate Settled(es: seq<Entry>, sites: SiteMap, balances: TrialBalance, k: BalanceKey)
  {
    && (k in sites <==> SitesOn(es, k) != [])
    && (k in sites ==> sites[k] == SitesOn(es, k))
    && (k in balances <==> SitesOn(es, k) != [])
    && (k in balances ==> balances[k] == Sum(Flat(es), k))
  }

  ghost predicate Settling(es: seq<Entry>, sites: SiteMap, balances: TrialBalance, rest: set<BalanceKey>)
  {
    forall k: BalanceKey ::
      if k in rest then (k in sites ==> sites[k] == SitesOn(es, k)) && (SitesOn(es, k) != [] ==> k in sites)
      else Settled(es, sites, balances, k)
  }

  lemma SettlingStarts(es: seq<Entry>, sites: SiteMap, balances: TrialBalance, touched: set<BalanceKey>, full: seq<Entry>)
    requires es <= full && SitesDuringUndo(es, sites, touched)
    requires balances == TrialOf(Flat(full)) && TouchedSince(full, |es|, touched)
    ensures Settling(es, sites, balances, touched)
  {
    hide SitesOn, Sum, Flat, Touched;
    assert full[..|es|] == es;
    forall k: BalanceKey | k !in touched
      ensures Settled(es, sites, balances, k)
    {
      assert SiteDuringUndo(es, sites, touched, k);
      UntouchedRow(full, |es|, k);
      SitesOnTouched(es, k);
    }
    forall k: BalanceKey | k in touched
      ensures (k in sites ==> sites[k] == SitesOn(es, k)) && (SitesOn(es, k) != [] ==> k in sites)
    {
      assert SiteDuringUndo(es, sites, touched, k);
    }
  }

  lemma SettlingDone(es: seq<Entry>, sites: SiteMap, balances: TrialBalance)
    requires Settling(es, sites, balances, {})
    ensures SitesDerived(es, sites) && balances == TrialOf(Flat(es))
  {
    hide SitesOn, Sum, Flat, Touched;
    forall k: BalanceKey
      ensures Settled(es, sites, balances, k) && (SitesOn(es, k) != [] <==> k in Touched(Flat(es)))
    {
      SitesOnTouched(es, k);
    }
  }

  /**
   Settles the touched keys after an undo: a key with sites left gets the balance they add
   up to, and a key without loses its list and its row.
   */
  method Resettle(es: seq<Entry>, sites: SiteMap, balances: TrialBalance, touched: set<BalanceKey>, ghost full: seq<Entry>)
    returns (sitesAfter: SiteMap, balancesAfter: TrialBalance)
    requires EntriesSound(es) && es <= full && SitesDuringUndo(es, sites, touched)
    requires balances == TrialOf(Flat(full)) && TouchedSince(full, |es|, touched)
    ensures SitesDerived(es, sitesAfter) && balancesAfter == TrialOf(Flat(es))
  {
    hide EntriesSound, SitesOn, Sum, Flat, TrialOf, SitesDuringUndo, TouchedSince, SitesDerived;
    sitesAfter, balancesAfter := sites, balances;
    SettlingStarts(es, sites, balances, touched, full);
    var rest := touched;
    assert es[..|es|] == es;
    while rest != {}
      invariant Settling(es, sitesAfter, balancesAfter, rest)
      decreases rest
    {
      var key := Pick(rest);
      rest := rest - {key};
      var list := if key in sitesAfter then sitesAfter[key] else [];
      var balance, overflowed := FoldSites(es, list, |es|, key);
      balance := if overflowed then ZERO else balance;
      if list != [] {
        balancesAfter := balancesAfter[key := balance];
      } else {
        sitesAfter := sitesAfter - {key};
        balancesAfter := balancesAfter - {key};
      }
    }
    SettlingDone(es, sitesAfter, balancesAfter);
  }
}

/**
 Clearing against the books: resolving references through the identifier index, and what
 may be cleared in a given state of the ledger.
 */
module LedgerClearings {
  import opened Wrappers
  import opened Entries
  import opened Books
  import opened Clearings
  import opened Ledgers
  import opened JournalIndexes
  import opened Seals

  /** Resolves a reference by identifier index and position. */
  function IndexedLookup(byId: IdIndex, es: seq<Entry>): PostingLookup
  {
    (r: PostingRef) =>
      if r.entry in byId && byId[r.entry] < |es| && r.index < |es[byId[r.entry]].postings|
      then Some(es[byId[r.entry]].postings[r.index]) else None
  }

  ghost predicate SameLookup(a: PostingLookup, b: PostingLookup)
  {
    forall r :: a(r) == b(r)
  }

  lemma LookupsAgree(byId: IdIndex, es: seq<Entry>)
    requires IdsDerived(es, byId)
    ensures SameLookup(IndexedLookup(byId, es), LookupOf(es))
  {
    forall r: PostingRef
      ensures IndexedLookup(byId, es)(r) == LookupOf(es)(r)
    {
      IndexOfFacts(es, r.entry);
    }
  }

  lemma SoundAgrees(c: Clearing, a: PostingLookup, b: PostingLookup)
    requires SameLookup(a, b)
    ensures Sound(c, a) <==> Sound(c, b)
    ensures Sides(c.items, a) == Sides(c.items, b)
  {
    SidesLocal(c.items, a, b);
    assert forall i :: 0 <= i < |c.items| ==> OnKey(c.items[i], c.key, a) == OnKey(c.items[i], c.key, b);
  }

  lemma RegisterAgrees(events: seq<ClearingEvent>, resets: set<Id>, a: PostingLookup, b: PostingLookup)
    requires SameLookup(a, b) && AllSound(events, a) && WithinAmounts(events, resets, a)
    ensures AllSound(events, b) && WithinAmounts(events, resets, b)
  {
    hide Sound;
    forall i | 0 <= i < |events| && events[i].Cleared?
      ensures Sound(events[i].clearing, b)
    {
      SoundAgrees(events[i].clearing, a, b);
    }
    forall r
      ensures 0 <= Active(events, resets, r) <= match b(r) case None => 0 case Some(p) => p.amount
    {
      assert a(r) == b(r);
    }
  }

  lemma {:induction false} OpenAgrees(candidates: seq<(Site, PostingRef)>, a: PostingLookup, b: PostingLookup, applied: PostingRef -> int)
    requires SameLookup(a, b)
    ensures OpenOf(candidates, a, applied) == OpenOf(candidates, b, applied)
  {
    if candidates != [] {
      OpenAgrees(candidates[..|candidates| - 1], a, b, applied);
      assert a(candidates[|candidates| - 1].1) == b(candidates[|candidates| - 1].1);
    }
  }

  /** What is still open on a posting. */
  ghost function OpenAmount(l: Ledger, r: PostingRef): int
  {
    match LookupOf(l.entries)(r) case None => 0 case Some(p) => p.amount - Active(l.events, l.resets, r)
  }

  /** A clearing under a new identifier, sound, in range, and within what is open. */
  ghost predicate Clearable(l: Ledger, c: Clearing)
  {
    && (forall i :: 0 <= i < |l.events| && l.events[i].Cleared? ==> l.events[i].clearing.id != c.id)
    && Sound(c, LookupOf(l.entries)) && Sides(c.items, LookupOf(l.entries)).Fits()
    && (forall i :: 0 <= i < |c.items| ==> c.items[i].applied <= OpenAmount(l, c.items[i].posting))
  }

  /** The register's own test is that predicate, read through its maps and the index. */
  lemma ClearableIs(l: Ledger, c: Clearing, byId: map<Id, nat>, reset: map<Id, Date>, applied: map<PostingRef, int>, lookup: PostingLookup)
    requires Catalogued(l.events, byId, reset) && SameLookup(lookup, LookupOf(l.entries))
    requires forall r :: Carried(applied, r) == Active(l.events, l.resets, r)
    ensures (c.id !in byId && Sound(c, lookup) && Sides(c.items, lookup).Fits()
             && (forall i :: 0 <= i < |c.items| ==> c.items[i].applied <= Residual(applied, c.items[i].posting, lookup)))
      <==> Clearable(l, c)
  {
    hide Sound, Sides;
    SoundAgrees(c, lookup, LookupOf(l.entries));
    forall r
      ensures Residual(applied, r, lookup) == OpenAmount(l, r)
    {
      assert lookup(r) == LookupOf(l.entries)(r);
      assert Carried(applied, r) == Active(l.events, l.resets, r);
    }
  }

  ghost predicate IdUsed(events: seq<ClearingEvent>, id: Id)
  {
    exists i :: 0 <= i < |events| && events[i].Cleared? && events[i].clearing.id == id
  }

  /** Why the books refuse a clearing: its identifier is used, or a fault the error names. */
  ghost predicate ClearRefused(l: Ledger, c: Clearing, error: ClearingError)
  {
    if IdUsed(l.events, c.id) then error == DuplicateId(c.id)
    else Explains(error, c, LookupOf(l.entries), ActiveOf(l.events, l.resets))
  }

  lemma OverflowAgrees(c: Clearing, n: nat, a: PostingLookup, b: PostingLookup, f: PostingRef -> int, g: PostingRef -> int)
    requires SameLookup(a, b) && (forall r :: f(r) == g(r)) && OverflowsAt(c, n, a, f)
    ensures OverflowsAt(c, n, b, g)
  {
    hide Distinct, Sides;
    SidesLocal(c.items[..n], a, b);
    forall i | 0 <= i < n
      ensures OnKey(c.items[..n][i], c.key, b)
        && c.items[..n][i].applied <= b(c.items[..n][i].posting).value.amount - g(c.items[..n][i].posting)
    {
      assert OnKey(c.items[..n][i], c.key, a);
    }
  }

  lemma FaultAgrees(error: ClearingError, item: ClearedItem, key: BalanceKey, a: PostingLookup, b: PostingLookup, applied: int)
    requires SameLookup(a, b)
    ensures ItemFault(error, item, key, a, applied) == ItemFault(error, item, key, b, applied)
  {
    assert a(item.posting) == b(item.posting);
  }

  lemma ExplainsAgrees(error: ClearingError, c: Clearing, a: PostingLookup, b: PostingLookup,
    f: PostingRef -> int, g: PostingRef -> int)
    requires SameLookup(a, b) && (forall r :: f(r) == g(r)) && Explains(error, c, a, f)
    ensures Explains(error, c, b, g)
  {
    hide ItemFault, OverflowsAt, Sides, SameLookup;
    SoundAgrees(c, a, b);
    if error.Overflow? {
      var n :| OverflowsAt(c, n, a, f);
      OverflowAgrees(c, n, a, b, f, g);
    } else if !error.TooFewItems? && !error.DuplicateItem? && !error.Unbalanced? {
      var i :| 0 <= i < |c.items| && ItemFault(error, c.items[i], c.key, a, f(c.items[i].posting));
      FaultAgrees(error, c.items[i], c.key, a, b, f(c.items[i].posting));
    }
  }

  /** The register's reason is true of the books. */
  lemma RefusalIs(l: Ledger, c: Clearing, error: ClearingError, byId: map<Id, nat>, reset: map<Id, Date>,
    applied: map<PostingRef, int>, lookup: PostingLookup)
    requires Catalogued(l.events, byId, reset) && SameLookup(lookup, LookupOf(l.entries))
    requires forall r :: Carried(applied, r) == Active(l.events, l.resets, r)
    requires if c.id in byId then error == DuplicateId(c.id) else Explains(error, c, lookup, CarriedOf(applied))
    ensures ClearRefused(l, c, error)
  {
    hide Explains;
    if c.id !in byId {
      ExplainsAgrees(error, c, lookup, LookupOf(l.entries), CarriedOf(applied), ActiveOf(l.events, l.resets));
    }
  }

  /**
   In a sound ledger the sides of a clearing never overflow: what it applies is within the
   gross totals of its key, and those fit. So that reason for refusing one is never given.
   */
  lemma ClearingNeverOverflows(l: Ledger, c: Clearing)
    requires EntriesSound(l.entries) && WithinAmounts(l.events, l.resets, LookupOf(l.entries))
    ensures !ClearRefused(l, c, ClearingError.Overflow)
    ensures forall n :: !OverflowsAt(c, n, LookupOf(l.entries), ActiveOf(l.events, l.resets))
  {
    hide EntriesSound, Sides, SitesOn, LookupOf, Applicable;
    forall n | 0 <= n <= |c.items| && Applicable(c.items[..n], c.key, LookupOf(l.entries), ActiveOf(l.events, l.resets))
      ensures Sides(c.items[..n], LookupOf(l.entries)).Fits()
    {
      SidesFit(l, c.items[..n], c.key);
    }
  }

  lemma SidesFit(l: Ledger, items: seq<ClearedItem>, key: BalanceKey)
    requires EntriesSound(l.entries) && WithinAmounts(l.events, l.resets, LookupOf(l.entries))
    requires Applicable(items, key, LookupOf(l.entries), ActiveOf(l.events, l.resets))
    ensures Sides(items, LookupOf(l.entries)).Fits()
  {
    hide Sides, SitesOn, LookupOf, Applicable, Sum, Flat, GrossTotal, Refs, SiteSum, ReversalsSound;
    var es, lookup := l.entries, LookupOf(l.entries);
    CandidatesListKey(es, key);
    AmountsTotal(es, SitesOn(es, key));
    SiteSumIsSum(es, key);
    BalanceFits(es, key);
    forall r | lookup(r).Some?
      ensures ActiveOf(l.events, l.resets)(r) >= 0 && lookup(r).value.amount >= 0
    {
      assert 0 <= Active(l.events, l.resets, r) <= match lookup(r) case None => 0 case Some(p) => p.amount;
    }
    SidesWithin(items, key, Refs(Candidates(es, SitesOn(es, key))), lookup, ActiveOf(l.events, l.resets));
  }

  lemma BalanceFits(es: seq<Entry>, key: BalanceKey)
    requires AllFit(TrialOf(Flat(es)))
    ensures Sum(Flat(es), key).Fits()
  {
    hide Sum, Flat;
    if key !in TrialOf(Flat(es)) {
      SumUntouched(Flat(es), key);
    }
  }

  /**
   So a clearing may be recorded exactly when no clearing has its identifier, it names at least two
   postings, each once, all of its key and each for a positive amount within what is open on it,
   and its debits equal its credits.
   */
  lemma ClearableExactly(l: Ledger, c: Clearing)
    requires EntriesSound(l.entries) && WithinAmounts(l.events, l.resets, LookupOf(l.entries))
    ensures Clearable(l, c) <==>
      && (forall e :: e in l.events && e.Cleared? ==> e.clearing.id != c.id)
      && |c.items| >= 2 && (forall i, j :: 0 <= i < j < |c.items| ==> c.items[i].posting != c.items[j].posting)
      && (forall i :: 0 <= i < |c.items| ==> InOpen(l, c.items[i], c.key))
      && Sides(c.items, LookupOf(l.entries)).debits == Sides(c.items, LookupOf(l.entries)).credits
  {
    hide InOpen, EntriesSound, Sides, WithinAmounts, LookupOf, Active;
    ClearableIsSound(l, c);
    forall i | 0 <= i < |c.items|
      ensures InOpen(l, c.items[i], c.key) <==>
        OnKey(c.items[i], c.key, LookupOf(l.entries)) && c.items[i].applied <= OpenAmount(l, c.items[i].posting)
    {
      InOpenIs(l, c.items[i], c.key);
    }
  }

  /** An item that names a posting of a key, for a positive amount within what nothing has applied to it yet. */
  ghost predicate InOpen(l: Ledger, item: ClearedItem, key: BalanceKey)
  {
    exists i :: 0 <= i < |l.entries| && l.entries[i].id == item.posting.entry
      && item.posting.index < |l.entries[i].postings|
      && var p := l.entries[i].postings[item.posting.index];
         p.account == key.account && p.currency == key.currency && p.layer == key.layer
         && 0 < item.applied <= p.amount - Active(l.events, l.resets, item.posting)
  }

  lemma InOpenIs(l: Ledger, item: ClearedItem, key: BalanceKey)
    requires EntriesSound(l.entries)
    ensures InOpen(l, item, key) <==>
      OnKey(item, key, LookupOf(l.entries)) && item.applied <= OpenAmount(l, item.posting)
  {
    hide LookupOf, Active;
    LookupFacts(l.entries, item.posting);
  }

  lemma ClearableIsSound(l: Ledger, c: Clearing)
    requires EntriesSound(l.entries) && WithinAmounts(l.events, l.resets, LookupOf(l.entries))
    ensures Clearable(l, c) <==>
      && !IdUsed(l.events, c.id) && Sound(c, LookupOf(l.entries))
      && forall i :: 0 <= i < |c.items| ==> c.items[i].applied <= OpenAmount(l, c.items[i].posting)
  {
    hide EntriesSound, Sides, LookupOf;
    if Sound(c, LookupOf(l.entries)) && forall i :: 0 <= i < |c.items| ==> c.items[i].applied <= OpenAmount(l, c.items[i].posting) {
      forall i | 0 <= i < |c.items|
        ensures OnKey(c.items[i], c.key, LookupOf(l.entries))
        ensures c.items[i].applied <= LookupOf(l.entries)(c.items[i].posting).value.amount - Active(l.events, l.resets, c.items[i].posting)
      {
        assert c.items[i].applied <= OpenAmount(l, c.items[i].posting);
      }
      SidesFit(l, c.items, c.key);
    }
  }

  /** A reason is never given for a clearing that may be recorded, and says how much was open. */
  lemma RefusalIsGenuine(l: Ledger, c: Clearing, error: ClearingError)
    requires ClearRefused(l, c, error)
    ensures !Clearable(l, c)
    ensures error.OverApplied? ==>
      ClearedItem(error.posting, error.requested) in c.items
      && error.requested > error.residual == OpenAmount(l, error.posting)
    ensures error.Unbalanced? ==>
      error.debits != error.credits && Sides(c.items, LookupOf(l.entries)) == Balance(error.debits, error.credits)
  {
    hide LookupOf, Active, Sides;
    if error.Overflow? {
      var n :| OverflowsAt(c, n, LookupOf(l.entries), ActiveOf(l.events, l.resets));
      OverflowIsNotSound(c, n, LookupOf(l.entries), ActiveOf(l.events, l.resets));
    } else if !error.TooFewItems? && !error.DuplicateItem? && !error.Unbalanced? && !error.DuplicateId? {
      var i :| 0 <= i < |c.items|
        && ItemFault(error, c.items[i], c.key, LookupOf(l.entries), Active(l.events, l.resets, c.items[i].posting));
      assert OnKey(c.items[i], c.key, LookupOf(l.entries)) ==>
        error.OverApplied? && c.items[i].applied > OpenAmount(l, c.items[i].posting);
    }
  }

  /** What a refusal says of one item is true of it. */
  lemma FaultTells(error: ClearingError, c: Clearing, lookup: PostingLookup, applied: PostingRef -> int)
    requires Explains(error, c, lookup, applied)
    ensures error.DuplicateItem? ==> exists i, j :: 0 <= i < j < |c.items| && c.items[i].posting == c.items[j].posting == error.posting
    ensures error.NonPositiveApplication? ==> exists item :: item in c.items && item.posting == error.posting && item.applied <= 0
    ensures error.UnknownPosting? ==>
      lookup(error.posting).None? && exists item :: item in c.items && item.posting == error.posting
    ensures error.WrongAccount? ==>
      error.account == c.key.account && (exists item :: item in c.items && item.posting == error.posting)
      && lookup(error.posting).Some? && lookup(error.posting).value.account != c.key.account
    ensures error.WrongCurrency? ==>
      error.currency == c.key.currency && (exists item :: item in c.items && item.posting == error.posting)
      && lookup(error.posting).Some? && lookup(error.posting).value.currency != c.key.currency
    ensures error.WrongLayer? ==>
      error.layer == c.key.layer && (exists item :: item in c.items && item.posting == error.posting)
      && lookup(error.posting).Some? && lookup(error.posting).value.layer != c.key.layer
  {
    hide Sides;
    if !error.TooFewItems? && !error.DuplicateItem? && !error.Unbalanced? && !error.Overflow? {
      var i :| 0 <= i < |c.items| && ItemFault(error, c.items[i], c.key, lookup, applied(c.items[i].posting));
      assert c.items[i] in c.items;
    }
  }

  lemma OverflowIsNotSound(c: Clearing, n: nat, lookup: PostingLookup, applied: PostingRef -> int)
    requires OverflowsAt(c, n, lookup, applied)
    ensures !(Sound(c, lookup) && Sides(c.items, lookup).Fits())
  {
    hide Sides;
    if Sound(c, lookup) {
      SidesGrow(c.items, n, c.key, lookup);
    }
  }
}

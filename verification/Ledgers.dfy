/**
 The ledger as a state machine over plain values.

 A state is the accounts, the calendar, the entries, the seals and the clearings. The
 steps are what the journal does, stated by searching the entries rather than through
 any index. The invariants and the whole-run theorems are about these states; the journal
 class refines the steps.
 */
module Ledgers {
  import opened Wrappers
  import opened Canonical
  import opened Entries
  import opened MerkleProofs
  import opened Periods
  import opened Accounts
  import opened Books
  import opened Validation
  import opened Seals
  import opened Clearings

  datatype Ledger = Ledger(
    id: LedgerId,
    scale: byte,
    accounts: Chart,
    calendar: Calendar,
    policy: LedgerPolicy,
    entries: seq<Entry>,
    seals: seq<Seal>,
    events: seq<ClearingEvent>,
    resets: set<Id>)
  {
    ghost function Ctx(): Context
    {
      Context(accounts, calendar, policy, scale)
    }
  }

  // ------------------------------------------------------------------- entries

  /** The position of the entry with an identifier. */
  function IndexOf(es: seq<Entry>, id: Id): Option<nat>
  {
    if es == [] then None
    else if es[|es| - 1].id == id then Some(|es| - 1)
    else IndexOf(es[..|es| - 1], id)
  }

  /** The position of the entry with an idempotency key. */
  function KeyIndex(es: seq<Entry>, key: Text): Option<nat>
  {
    if es == [] then None
    else if es[|es| - 1].key == key then Some(|es| - 1)
    else KeyIndex(es[..|es| - 1], key)
  }

  /** The position of the entry that reverses another. */
  function ReversalIndex(es: seq<Entry>, original: Id): Option<nat>
  {
    if es == [] then None
    else if es[|es| - 1].reverses == Some(original) then Some(|es| - 1)
    else ReversalIndex(es[..|es| - 1], original)
  }

  /** Every side flipped, everything else the same, posting by posting. */
  predicate IsInversion(original: Entry, candidate: Entry)
  {
    |original.postings| == |candidate.postings|
    && forall i :: 0 <= i < |original.postings| ==> candidate.postings[i] == original.postings[i].Inverted()
  }

  ghost predicate DistinctEntries(es: seq<Entry>)
  {
    forall i, j :: 0 <= i < j < |es| ==> es[i].id != es[j].id && es[i].key != es[j].key
  }

  /** A reversal inverts an earlier entry that is not itself a reversal, and is its only one. */
  ghost predicate ReversalsSound(es: seq<Entry>)
  {
    && (forall i :: 0 <= i < |es| && es[i].reverses.Some? ==>
          exists j :: 0 <= j < i && es[j].id == es[i].reverses.value && es[j].reverses.None? && IsInversion(es[j], es[i]))
    && (forall i, j :: 0 <= i < j < |es| && es[i].reverses.Some? ==> es[i].reverses != es[j].reverses)
  }

  ghost predicate Known(es: seq<Entry>, accounts: nat)
  {
    forall e :: e in es ==> forall p :: p in e.postings ==> p.account < accounts
  }

  /** Everything recorded entries satisfy among themselves. */
  ghost predicate EntriesSound(es: seq<Entry>)
  {
    && |es| <= U64_MAX
    && DistinctEntries(es)
    && (forall e :: e in es ==> WellBalanced(e))
    && ReversalsSound(es)
    && AllFit(TrialOf(Flat(es)))
  }

  /** What the correction rules say of a reversal. */
  ghost predicate ReversalAllowed(es: seq<Entry>, e: Entry)
  {
    match e.reverses
    case None => true
    case Some(original) =>
      match IndexOf(es, original)
      case None => false
      case Some(j) =>
        ReversalIndex(es, original).None? && j < |es| && es[j].reverses.None? && IsInversion(es[j], e)
  }

  function LimitOf(accounts: seq<Account>, id: nat): BalanceLimit
  {
    if id < |accounts| then accounts[id].limit else Unlimited
  }

  /** Every key an entry touches is left within its account's limit. */
  ghost predicate LimitsAllow(accounts: seq<Account>, es: seq<Entry>, e: Entry)
  {
    forall p :: p in e.postings ==>
      LimitOf(accounts, p.account).Permits(Sum(Flat(es) + e.postings, p.Key()))
  }

  /** Whether limits allow an entry does not depend on the order its postings are listed in. */
  lemma LimitsIgnoreOrder(accounts: seq<Account>, es: seq<Entry>, e: Entry, f: Entry)
    requires multiset(e.postings) == multiset(f.postings) && LimitsAllow(accounts, es, e)
    ensures LimitsAllow(accounts, es, f)
  {
    hide Sum, Flat;
    forall p | p in f.postings
      ensures LimitOf(accounts, p.account).Permits(Sum(Flat(es) + f.postings, p.Key()))
    {
      assert p in multiset(f.postings);
      assert p in e.postings;
      SumShuffled(e.postings, f.postings, p.Key());
      SumConcat(Flat(es), e.postings, p.Key());
      SumConcat(Flat(es), f.postings, p.Key());
      assert Sum(Flat(es) + e.postings, p.Key()) == Sum(Flat(es) + f.postings, p.Key());
    }
  }

  /** What a new entry must satisfy against the entries already recorded. */
  ghost predicate Recordable(accounts: seq<Account>, es: seq<Entry>, e: Entry)
  {
    && KeyIndex(es, e.key).None?
    && IndexOf(es, e.id).None?
    && ReversalAllowed(es, e)
    && AllFit(TrialOf(Flat(es) + e.postings))
    && LimitsAllow(accounts, es, e)
  }

  /** Posting by posting, only the side differs. */
  lemma InversionIs(original: Entry, candidate: Entry)
    ensures IsInversion(original, candidate) <==>
      |original.postings| == |candidate.postings| && forall i :: 0 <= i < |original.postings| ==>
        var p, q := original.postings[i], candidate.postings[i];
        && p.direction != q.direction && p.account == q.account && p.amount == q.amount && p.currency == q.currency
        && p.layer == q.layer && p.dimensions == q.dimensions
  {
  }

  /** A reversal is allowed when it inverts a recorded entry that is no reversal and that nothing reverses. */
  lemma ReversalAllowedIs(es: seq<Entry>, e: Entry)
    requires DistinctEntries(es)
    ensures ReversalAllowed(es, e) <==> (e.reverses.Some? ==>
      (forall f :: f in es ==> f.reverses != e.reverses)
      && exists o :: o in es && o.id == e.reverses.value && o.reverses.None? && IsInversion(o, e))
  {
    hide IsInversion, IndexOf, ReversalIndex;
    if e.reverses.Some? {
      IndexOfFacts(es, e.reverses.value);
      ReversalIndexFacts(es, e.reverses.value);
    }
  }

  /** Limits allow an entry when no key it touches ends on the side of zero its account's limit forbids. */
  lemma LimitsAllowIs(accounts: seq<Account>, es: seq<Entry>, e: Entry)
    ensures LimitsAllow(accounts, es, e) <==> forall p :: p in e.postings && p.account < |accounts| ==>
      var limit, net := accounts[p.account].limit, Sum(Flat(es) + e.postings, p.Key()).SignedNet();
      (limit == NoCreditBalance ==> net >= 0) && (limit == NoDebitBalance ==> net <= 0)
  {
    hide Sum, Flat;
  }

  /**
   What may be recorded: an entry under a new identifier and a new key that reverses nothing, or
   an entry not yet reversed, leaves every total it touches in range, and every account within its
   limit.
   */
  lemma RecordableIs(accounts: seq<Account>, es: seq<Entry>, e: Entry)
    requires DistinctEntries(es)
    ensures Recordable(accounts, es, e) <==>
      && (forall f :: f in es ==> f.key != e.key && f.id != e.id)
      && (e.reverses.Some? ==>
            (forall f :: f in es ==> f.reverses != e.reverses)
            && exists o :: o in es && o.id == e.reverses.value && o.reverses.None? && IsInversion(o, e))
      && AllFit(TrialOf(Flat(es) + e.postings))
      && forall p :: p in e.postings && p.account < |accounts| ==>
           var limit, net := accounts[p.account].limit, Sum(Flat(es) + e.postings, p.Key()).SignedNet();
           (limit == NoCreditBalance ==> net >= 0) && (limit == NoDebitBalance ==> net <= 0)
  {
    hide IsInversion, IndexOf, KeyIndex, ReversalAllowed, LimitsAllow, Flat, TrialOf, AllFit, Sum;
    IndexOfFacts(es, e.id);
    KeyIndexFacts(es, e.key);
    ReversalAllowedIs(es, e);
    LimitsAllowIs(accounts, es, e);
  }

  lemma {:induction false} IndexOfFacts(es: seq<Entry>, id: Id)
    ensures match IndexOf(es, id)
      case Some(i) => i < |es| && es[i].id == id
      case None => forall i :: 0 <= i < |es| ==> es[i].id != id
  {
    if es != [] {
      IndexOfFacts(es[..|es| - 1], id);
    }
  }

  lemma {:induction false} KeyIndexFacts(es: seq<Entry>, key: Text)
    ensures match KeyIndex(es, key)
      case Some(i) => i < |es| && es[i].key == key
      case None => forall i :: 0 <= i < |es| ==> es[i].key != key
  {
    if es != [] {
      KeyIndexFacts(es[..|es| - 1], key);
    }
  }

  /** A key that is new to longer books was new to the books they grew from. */
  lemma KeyNewBefore(es: seq<Entry>, later: seq<Entry>, key: Text)
    requires es <= later
    ensures KeyIndex(later, key).None? ==> KeyIndex(es, key).None?
  {
    KeyIndexFacts(es, key);
    KeyIndexFacts(later, key);
  }

  lemma {:induction false} ReversalIndexFacts(es: seq<Entry>, original: Id)
    ensures match ReversalIndex(es, original)
      case Some(i) => i < |es| && es[i].reverses == Some(original)
      case None => forall i :: 0 <= i < |es| ==> es[i].reverses != Some(original)
  {
    if es != [] {
      ReversalIndexFacts(es[..|es| - 1], original);
    }
  }

  lemma {:induction false} FlatAllPositive(es: seq<Entry>)
    requires forall e :: e in es ==> WellBalanced(e)
    ensures AllPositive(Flat(es))
  {
    if es != [] {
      var front, last := es[..|es| - 1], es[|es| - 1];
      assert last in es;
      FlatAllPositive(front);
    }
  }

  lemma DistinctAppended(es: seq<Entry>, e: Entry)
    requires DistinctEntries(es) && KeyIndex(es, e.key).None? && IndexOf(es, e.id).None?
    ensures DistinctEntries(es + [e])
  {
    KeyIndexFacts(es, e.key);
    IndexOfFacts(es, e.id);
  }

  /** Recording a sound entry keeps the entries sound. */
  lemma RecordKeepsEntries(accounts: seq<Account>, es: seq<Entry>, e: Entry)
    requires EntriesSound(es) && WellBalanced(e) && Recordable(accounts, es, e) && |es| < U64_MAX
    ensures EntriesSound(es + [e])
  {
    hide DistinctEntries, ReversalsSound, TrialOf, Flat, LimitsAllow, WellBalanced, ReversalAllowed, AllFit;
    FlatAppend(es, e);
    DistinctAppended(es, e);
    ReversalsAppended(es, e);
  }

  lemma ReversalsAppended(es: seq<Entry>, e: Entry)
    requires ReversalsSound(es) && ReversalAllowed(es, e)
    ensures ReversalsSound(es + [e])
  {
    hide IsInversion;
    var later := es + [e];
    if e.reverses.Some? {
      IndexOfFacts(es, e.reverses.value);
      ReversalIndexFacts(es, e.reverses.value);
    }
    forall i | 0 <= i < |later| && later[i].reverses.Some?
      ensures exists j ::
        0 <= j < i && later[j].id == later[i].reverses.value
        && later[j].reverses.None? && IsInversion(later[j], later[i])
    {
      if i < |es| {
        var j :| 0 <= j < i && es[j].id == es[i].reverses.value && es[j].reverses.None? && IsInversion(es[j], es[i]);
        assert later[j] == es[j];
      } else {
        var j := IndexOf(es, e.reverses.value).value;
        assert later[j] == es[j];
      }
    }
  }

  lemma PrefixFits(es: seq<Entry>, n: nat)
    requires EntriesSound(es) && n <= |es|
    ensures AllFit(TrialOf(Flat(es[..n])))
  {
    var front := es[..n];
    FlatAllPositive(es);
    assert es == front + es[n..];
    FlatConcat(front, es[n..]);
    assert Flat(es)[..|Flat(front)|] == Flat(front);
    TouchedConcat(Flat(front), Flat(es[n..]));
    forall k | k in TrialOf(Flat(front))
      ensures TrialOf(Flat(front))[k].Fits()
    {
      SumPrefix(Flat(es), |Flat(front)|, k);
      assert k in TrialOf(Flat(es));
    }
  }

  lemma PrefixReversals(es: seq<Entry>, n: nat)
    requires ReversalsSound(es) && n <= |es|
    ensures ReversalsSound(es[..n])
  {
    hide IsInversion;
    var front := es[..n];
    forall i | 0 <= i < n && front[i].reverses.Some?
      ensures exists j ::
        0 <= j < i && front[j].id == front[i].reverses.value
        && front[j].reverses.None? && IsInversion(front[j], front[i])
    {
      var j :| 0 <= j < i && es[j].id == es[i].reverses.value && es[j].reverses.None? && IsInversion(es[j], es[i]);
      assert front[j] == es[j];
    }
  }

  /** A prefix of sound entries is sound. */
  lemma PrefixSound(es: seq<Entry>, n: nat)
    requires EntriesSound(es) && n <= |es|
    ensures EntriesSound(es[..n])
  {
    hide ReversalsSound, TrialOf, AllFit, WellBalanced;
    PrefixFits(es, n);
    PrefixReversals(es, n);
  }

  // ------------------------------------------------------------- log leaves

  /** Recorded entries have pairwise distinct content hashes: the idempotency key is covered. */
  lemma LeavesDistinct(scale: byte, es: seq<Entry>)
    requires DistinctEntries(es)
    ensures forall i, j :: 0 <= i < j < |es| ==> Hashes(scale, es)[i] != Hashes(scale, es)[j]
  {
    forall i, j | 0 <= i < j < |es|
      ensures Hashes(scale, es)[i] != Hashes(scale, es)[j]
    {
      ContentHashExact(scale, scale, es[i], es[j]);
    }
  }

  /** So an inclusion proof for an entry is accepted under one index and size only. */
  lemma EntryProofUnique(scale: byte, es: seq<Entry>, e: Entry, p: InclusionProof, q: InclusionProof)
    requires EntriesSound(es)
    requires p.Verifies(ContentHash(scale, e), HeadOf(Hashes(scale, es)))
    requires q.Verifies(ContentHash(scale, e), HeadOf(Hashes(scale, es)))
    ensures p == q && p.leafIndex < |es| && es[p.leafIndex] == e.(id := es[p.leafIndex].id)
  {
    LeavesDistinct(scale, es);
    OneLabelling(p, q, ContentHash(scale, e), Hashes(scale, es));
    InclusionExact(p, ContentHash(scale, e), Hashes(scale, es));
    ContentHashExact(scale, scale, e, es[p.leafIndex]);
  }

  // -------------------------------------------------------- posting references

  function LookupOf(es: seq<Entry>): PostingLookup
  {
    (r: PostingRef) =>
      match IndexOf(es, r.entry)
      case None => None
      case Some(i) =>
        if i < |es| && r.index < |es[i].postings| then Some(es[i].postings[r.index]) else None
  }

  /** A reference resolves exactly where an entry with its identifier has that posting. */
  lemma LookupFacts(es: seq<Entry>, r: PostingRef)
    requires DistinctEntries(es)
    ensures LookupOf(es)(r).Some? <==>
      exists i :: 0 <= i < |es| && es[i].id == r.entry && r.index < |es[i].postings|
    ensures forall i :: 0 <= i < |es| && es[i].id == r.entry && r.index < |es[i].postings| ==>
      LookupOf(es)(r) == Some(es[i].postings[r.index])
  {
    IndexOfFacts(es, r.entry);
  }

  lemma LookupGrows(es: seq<Entry>, e: Entry)
    requires DistinctEntries(es + [e]) && WellBalanced(e)
    ensures LookupExtends(LookupOf(es), LookupOf(es + [e]))
  {
    assert forall i, j :: 0 <= i < j < |es| ==> (es + [e])[i] == es[i] && (es + [e])[j] == es[j];
    assert DistinctEntries(es);
    forall r | LookupOf(es)(r).Some?
      ensures LookupOf(es + [e])(r) == LookupOf(es)(r)
    {
      LookupFacts(es, r);
      LookupFacts(es + [e], r);
      var i :| 0 <= i < |es| && es[i].id == r.entry && r.index < |es[i].postings|;
      assert (es + [e])[i] == es[i];
    }
  }

  lemma LookupPositive(es: seq<Entry>)
    requires DistinctEntries(es) && forall e :: e in es ==> WellBalanced(e)
    ensures forall r :: LookupOf(es)(r).Some? ==> LookupOf(es)(r).value.amount > 0
  {
    forall r | LookupOf(es)(r).Some?
      ensures LookupOf(es)(r).value.amount > 0
    {
      LookupFacts(es, r);
      var i :| 0 <= i < |es| && es[i].id == r.entry && r.index < |es[i].postings|;
      assert es[i] in es && es[i].postings[r.index] in es[i].postings;
    }
  }

  function RefAt(es: seq<Entry>, s: Site): PostingRef
    requires Resolves(es, s)
  {
    PostingRef(es[s.index].id, s.posting)
  }

  /** The candidates for open items on a key: its sites in log order, each with its name. */
  function Candidates(es: seq<Entry>, sites: seq<Site>): seq<(Site, PostingRef)>
    requires forall s :: s in sites ==> Resolves(es, s)
  {
    seq(|sites|, i requires 0 <= i < |sites| => (sites[i], RefAt(es, sites[i])))
  }

  lemma CandidateListed(es: seq<Entry>, k: BalanceKey, r: PostingRef)
    requires DistinctEntries(es)
    ensures forall s :: s in SitesOn(es, k) ==> Resolves(es, s)
    ensures r in Refs(Candidates(es, SitesOn(es, k))) <==> LookupOf(es)(r).Some? && LookupOf(es)(r).value.Key() == k
  {
    hide SitesOn, LookupOf;
    SitesOnFacts(es, k);
    var sites := SitesOn(es, k);
    var refs := Refs(Candidates(es, sites));
    LookupFacts(es, r);
    if r in refs {
      var i :| 0 <= i < |refs| && refs[i] == r;
      assert sites[i] in sites;
    }
    if LookupOf(es)(r).Some? && LookupOf(es)(r).value.Key() == k {
      var j :| 0 <= j < |es| && es[j].id == r.entry && r.index < |es[j].postings|;
      assert Site(j, r.index) in sites;
      var i :| 0 <= i < |sites| && sites[i] == Site(j, r.index);
      assert refs[i] == r;
    }
  }

  lemma CandidatesListKey(es: seq<Entry>, k: BalanceKey)
    requires DistinctEntries(es)
    ensures forall s :: s in SitesOn(es, k) ==> Resolves(es, s)
    ensures ListsKey(Refs(Candidates(es, SitesOn(es, k))), k, LookupOf(es))
  {
    hide SitesOn, LookupOf;
    SitesOnFacts(es, k);
    var sites := SitesOn(es, k);
    var refs := Refs(Candidates(es, sites));
    forall r
      ensures r in refs <==> LookupOf(es)(r).Some? && LookupOf(es)(r).value.Key() == k
    {
      CandidateListed(es, k, r);
    }
    forall i, j | 0 <= i < j < |refs|
      ensures refs[i] != refs[j]
    {
      assert sites[i] in sites && sites[j] in sites && sites[i].Before(sites[j]);
    }
  }

  lemma {:induction false} AmountsTotal(es: seq<Entry>, sites: seq<Site>)
    requires DistinctEntries(es) && forall s :: s in sites ==> Resolves(es, s)
    ensures GrossTotal(Refs(Candidates(es, sites)), LookupOf(es), AmountOf(LookupOf(es))) == SiteSum(es, sites)
  {
    hide GrossTotal, SiteSum, LookupOf, Refs, DistinctEntries;
    if sites == [] {
      NoAmounts(es);
    } else {
      var front, last := sites[..|sites| - 1], sites[|sites| - 1];
      assert last in sites;
      AmountsTotal(es, front);
      RefsNext(Candidates(es, sites), LookupOf(es), AmountOf(LookupOf(es)));
      assert Candidates(es, sites)[..|sites| - 1] == Candidates(es, front);
      LookupFacts(es, RefAt(es, last));
      assert es[last.index].id == RefAt(es, last).entry;
      SiteSumNext(es, sites);
    }
  }

  lemma NoAmounts(es: seq<Entry>)
    ensures GrossTotal(Refs(Candidates(es, [])), LookupOf(es), AmountOf(LookupOf(es))) == ZERO == SiteSum(es, [])
  {
  }

  lemma SiteSumNext(es: seq<Entry>, sites: seq<Site>)
    requires sites != [] && forall s :: s in sites ==> Resolves(es, s)
    ensures var front, last := sites[..|sites| - 1], sites[|sites| - 1];
      SiteSum(es, sites) == SiteSum(es, front).Added(PostingAt(es, last).direction, PostingAt(es, last).amount)
  {
  }

  /**
   A posting to a key that is not fully applied, at its position and under its name, with its
   side, its amount, what is applied to it, and the rest.
   */
  ghost predicate IsOpen(es: seq<Entry>, events: seq<ClearingEvent>, resets: set<Id>, k: BalanceKey, item: OpenItem)
  {
    var (i, j) := (item.position.index, item.position.posting);
    && i < |es| && j < |es[i].postings| && item.posting == PostingRef(es[i].id, j)
    && var p, applied := es[i].postings[j], Active(events, resets, item.posting);
       p.account == k.account && p.currency == k.currency && p.layer == k.layer && applied < p.amount
       && item.direction == p.direction && item.original == p.amount
       && item.applied == applied && item.residual == p.amount - applied
  }

  /** What is listed as open on a key is what is open on it. */
  lemma OpenItemsAre(es: seq<Entry>, events: seq<ClearingEvent>, resets: set<Id>, k: BalanceKey)
    requires DistinctEntries(es)
    ensures forall s :: s in SitesOn(es, k) ==> Resolves(es, s)
    ensures forall item :: IsOpen(es, events, resets, k, item) <==>
      item in OpenOf(Candidates(es, SitesOn(es, k)), LookupOf(es), ActiveOf(events, resets))
  {
    hide SitesOn, LookupOf, OpenOf, Active, IsOpen;
    SitesOnFacts(es, k);
    forall item
      ensures IsOpen(es, events, resets, k, item) <==>
        item in OpenOf(Candidates(es, SitesOn(es, k)), LookupOf(es), ActiveOf(events, resets))
    {
      OpenItemIs(es, events, resets, k, item);
    }
  }

  lemma OpenItemIs(es: seq<Entry>, events: seq<ClearingEvent>, resets: set<Id>, k: BalanceKey, item: OpenItem)
    requires DistinctEntries(es) && forall s :: s in SitesOn(es, k) ==> Resolves(es, s)
    ensures IsOpen(es, events, resets, k, item) <==>
      item in OpenOf(Candidates(es, SitesOn(es, k)), LookupOf(es), ActiveOf(events, resets))
  {
    hide SitesOn, LookupOf, OpenOf, Active;
    SitesOnFacts(es, k);
    var sites := SitesOn(es, k);
    OpenExactly(Candidates(es, sites), LookupOf(es), ActiveOf(events, resets), item);
    CandidateIs(es, sites, item.position, item.posting);
    if Resolves(es, item.position) {
      LookupFacts(es, RefAt(es, item.position));
    }
  }

  lemma CandidateIs(es: seq<Entry>, sites: seq<Site>, s: Site, r: PostingRef)
    requires forall s :: s in sites ==> Resolves(es, s)
    ensures (s, r) in Candidates(es, sites) <==> s in sites && r == RefAt(es, s)
  {
    if s in sites && r == RefAt(es, s) {
      var i :| 0 <= i < |sites| && sites[i] == s;
      assert Candidates(es, sites)[i] == (s, r);
    }
  }

  /**
   The open items of a key add up to the account's balance: clearing and resetting
   move residuals around and never change their signed total.
   */
  lemma OpenItemsMatchBalance(es: seq<Entry>, events: seq<ClearingEvent>, resets: set<Id>, k: BalanceKey)
    requires DistinctEntries(es)
    requires AllSound(events, LookupOf(es)) && WithinAmounts(events, resets, LookupOf(es))
    ensures forall s :: s in SitesOn(es, k) ==> Resolves(es, s)
    ensures SignedResidual(OpenOf(Candidates(es, SitesOn(es, k)), LookupOf(es), ActiveOf(events, resets)))
      == Sum(Flat(es), k).SignedNet()
  {
    CandidatesListKey(es, k);
    var candidates := Candidates(es, SitesOn(es, k));
    var lookup := LookupOf(es);
    AppliedNetsToZero(events, resets, Refs(candidates), k, lookup);
    AmountsTotal(es, SitesOn(es, k));
    SiteSumIsSum(es, k);
    forall r
      ensures ActiveOf(events, resets)(r) <= match lookup(r) case None => ActiveOf(events, resets)(r) case Some(p) => p.amount
    {
      assert Active(events, resets, r) <= match lookup(r) case None => 0 case Some(p) => p.amount;
    }
    ResidualsTotal(candidates, lookup, ActiveOf(events, resets));
  }
}

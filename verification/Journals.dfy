/**
 The journal: entries in append order, and everything derived from them kept up to date.

 `State` is the ledger the journal holds, as a value. Every method that changes the
 journal takes a step of the state machine, so the whole-run theorems apply to it; every
 index it maintains equals what a fresh search or fold of the entries gives.
 */
module Journals {
  import opened Wrappers
  import opened Hashing
  import opened Entries
  import opened MerkleTree
  import opened MerkleProofs
  import opened MerkleLogs
  import opened Periods
  import opened Accounts
  import opened Books
  import opened Validation
  import opened Seals
  import opened Clearings
  import opened Ledgers
  import opened LedgerRuns
  import opened SealedBalances
  import opened Commitments
  import opened Checkpoints
  import opened LedgerClearings
  import opened JournalIndexes
  import opened JournalReads
  import opened BalanceLaws

  datatype Recorded = Recorded(id: Id, index: nat, contentHash: Hash, isNew: bool)

  datatype JournalError =
    | Invalid(errors: seq<ValidationError>)
    | IdempotencyConflict(existing: Id, stored: Hash, submitted: Hash)
    | RepeatedId(id: Id)
    | UnknownOriginal(id: Id)
    | AlreadyReversed(id: Id, reversal: Id)
    | ReversalOfReversal(id: Id)
    | NotAnInversion(id: Id)
    | LimitBreached(key: BalanceKey, limit: BalanceLimit, net: int, scale: byte)
    | MoneyOverflow
    | PeriodRefused(period: PeriodError)
    | SealRefused(seal: SealChainError)
    | ClearingRefused(clearing: ClearingError)
    | SealedBalanceRefused(refusal: SealedBalanceError)

  /** The answer to a submission whose key and content are already recorded. */
  ghost predicate Replays(l: Ledger, e: Entry, r: Recorded)
  {
    match KeyIndex(l.entries, e.key)
    case None => false
    case Some(i) =>
      && i < |l.entries|
      && ContentHash(l.scale, l.entries[i]) == ContentHash(l.scale, e)
      && r == Recorded(l.entries[i].id, i, ContentHash(l.scale, e), false)
  }

  /** Why a reversal is refused. */
  ghost predicate ReversalRefused(es: seq<Entry>, e: Entry, error: JournalError)
  {
    e.reverses.Some? &&
    var original := e.reverses.value;
    match IndexOf(es, original)
    case None => error == UnknownOriginal(original)
    case Some(j) =>
      j < |es| &&
      match ReversalIndex(es, original)
      case Some(i) => i < |es| && error == AlreadyReversed(original, es[i].id)
      case None =>
        if es[j].reverses.Some? then error == ReversalOfReversal(original)
        else !IsInversion(es[j], e) && error == NotAnInversion(original)
  }

  /** A key the entry would leave on a side its account's limit forbids. */
  ghost predicate LimitRefused(scale: byte, accounts: seq<Account>, es: seq<Entry>, e: Entry, error: JournalError)
  {
    error.LimitBreached? &&
    exists p :: p in e.postings
      && error == LimitBreached(p.Key(), LimitOf(accounts, p.account),
           Sum(Flat(es) + e.postings, p.Key()).SignedNet(), scale)
      && !LimitOf(accounts, p.account).Permits(Sum(Flat(es) + e.postings, p.Key()))
  }

  /** Why an entry is refused, in the order the rules are applied. */
  ghost predicate Refuses(l: Ledger, e: Entry, error: JournalError)
  {
    match KeyIndex(l.entries, e.key)
    case Some(i) =>
      && i < |l.entries| && ContentHash(l.scale, l.entries[i]) != ContentHash(l.scale, e)
      && error == IdempotencyConflict(l.entries[i].id, ContentHash(l.scale, l.entries[i]), ContentHash(l.scale, e))
    case None =>
      if IndexOf(l.entries, e.id).Some? then error == RepeatedId(e.id)
      else if !ReversalAllowed(l.entries, e) then ReversalRefused(l.entries, e, error)
      else if !AllFit(TrialOf(Flat(l.entries) + e.postings)) then error == MoneyOverflow
      else LimitRefused(l.scale, l.accounts, l.entries, e, error)
  }

  /** A refused entry is neither a replay nor recordable, and it is not a matter of validation. */
  lemma RefusalIsExclusive(l: Ledger, e: Entry, error: JournalError)
    requires Refuses(l, e, error)
    ensures !Recordable(l.accounts, l.entries, e) && forall r :: !Replays(l, e, r)
    ensures !error.Invalid?
  {
  }

  /** A replay names the entry on record under the key, at its position, and its content is what was submitted. */
  lemma ReplayIs(l: Ledger, e: Entry, r: Recorded)
    requires DistinctEntries(l.entries)
    ensures Replays(l, e, r) <==>
      r.index < |l.entries| && var f := l.entries[r.index];
      f.key == e.key && e == f.(id := e.id) && r == Recorded(f.id, r.index, ContentHash(l.scale, f), false)
  {
    hide ContentHash;
    KeyIndexFacts(l.entries, e.key);
    if i :| 0 <= i < |l.entries| && l.entries[i].key == e.key {
      ContentHashExact(l.scale, l.scale, e, l.entries[i]);
    }
  }

  /** What each refusal tells about the books. */
  lemma RefusalTells(l: Ledger, e: Entry, error: JournalError)
    requires DistinctEntries(l.entries) && Refuses(l, e, error)
    ensures error.IdempotencyConflict? <==> exists f :: f in l.entries && f.key == e.key
    ensures error.IdempotencyConflict? ==> exists f ::
      f in l.entries && f.key == e.key && e != f.(id := e.id)
      && error == IdempotencyConflict(f.id, ContentHash(l.scale, f), ContentHash(l.scale, e))
    ensures error.RepeatedId? ==> error.id == e.id && exists f :: f in l.entries && f.id == e.id
    ensures error.UnknownOriginal? ==> e.reverses == Some(error.id) && forall f :: f in l.entries ==> f.id != error.id
    ensures error.AlreadyReversed? ==>
      e.reverses == Some(error.id) && exists f :: f in l.entries && f.reverses == e.reverses && f.id == error.reversal
    ensures error.ReversalOfReversal? ==>
      e.reverses == Some(error.id) && exists o :: o in l.entries && o.id == error.id && o.reverses.Some?
    ensures error.NotAnInversion? ==>
      e.reverses == Some(error.id) && exists o :: o in l.entries && o.id == error.id && !IsInversion(o, e)
    ensures error.MoneyOverflow? ==> !AllFit(TrialOf(Flat(l.entries) + e.postings))
  {
    hide ContentHash, IsInversion, AllFit, TrialOf, Sum, Flat, KeyIndex, IndexOf, ReversalIndex, ReversalAllowed;
    KeyIndexFacts(l.entries, e.key);
    IndexOfFacts(l.entries, e.id);
    if e.reverses.Some? {
      IndexOfFacts(l.entries, e.reverses.value);
      ReversalIndexFacts(l.entries, e.reverses.value);
    }
    if i :| 0 <= i < |l.entries| && l.entries[i].key == e.key {
      ContentHashExact(l.scale, l.scale, e, l.entries[i]);
    }
  }

  /** A breach names a key the entry touches, the account's limit, and the net on its forbidden side. */
  lemma BreachTells(scale: byte, accounts: seq<Account>, es: seq<Entry>, e: Entry, error: JournalError)
    requires LimitRefused(scale, accounts, es, e, error)
    ensures error.LimitBreached? && error.scale == scale && error.key in Touched(e.postings)
    ensures error.key.account < |accounts| && error.limit == accounts[error.key.account].limit
    ensures error.net == Sum(Flat(es) + e.postings, error.key).SignedNet()
    ensures (error.limit == NoCreditBalance && error.net < 0) || (error.limit == NoDebitBalance && error.net > 0)
  {
    hide Sum, Flat;
  }

  /** What one accepted submission does: a replay changes nothing, anything else is recorded. */
  ghost predicate Submitted(a: Ledger, b: Ledger, e: Entry, r: Recorded)
  {
    if r.isNew then RecordStep(a, b, e) && r == Recorded(e.id, |a.entries|, ContentHash(a.scale, e), true)
    else a == b && Replays(a, e, r)
  }

  /** In plain terms: a new entry is appended and answered with its position, a replay finds it there already. */
  lemma SubmittedIs(a: Ledger, b: Ledger, e: Entry, r: Recorded)
    requires DistinctEntries(a.entries) && Submitted(a, b, e, r)
    ensures r.isNew ==>
      b.entries == a.entries + [e] && r.id == e.id && r.index == |a.entries| && Passes(e, a.Ctx())
      && Recordable(a.accounts, a.entries, e)
    ensures !r.isNew ==>
      a == b && r.index < |a.entries| && e == a.entries[r.index].(id := e.id) && r.id == a.entries[r.index].id
    ensures r.contentHash == ContentHash(a.scale, e)
  {
    hide ContentHash, Passes, Recordable, Replays;
    if !r.isNew {
      ReplayIs(a, e, r);
      ContentHashExact(a.scale, a.scale, e, a.entries[r.index]);
    }
  }

  /** The states a batch passes through, one submission at a time. */
  ghost predicate Batched(run: seq<Ledger>, batch: seq<Entry>, out: seq<Recorded>)
  {
    && |run| == |out| + 1 && |out| <= |batch|
    && forall i :: 0 <= i < |out| ==> Submitted(run[i], run[i + 1], batch[i], out[i])
  }

  lemma BatchGrows(run: seq<Ledger>, batch: seq<Entry>, out: seq<Recorded>, b: Ledger, r: Recorded)
    requires Batched(run, batch, out) && |out| < |batch| && Submitted(run[|out|], b, batch[|out|], r)
    ensures Batched(run + [b], batch, out + [r])
  {
    hide Submitted;
  }

  /** A batch is a run of the ledger, so what every run keeps a batch keeps. */
  lemma BatchIsRun(run: seq<Ledger>, batch: seq<Entry>, out: seq<Recorded>)
    requires Batched(run, batch, out)
    ensures IsRun(run)
  {
    hide RecordStep, Replays;
    forall i | 0 < i < |run|
      ensures Step(run[i - 1], run[i])
    {
      var j := i - 1;
      assert Submitted(run[j], run[j + 1], batch[j], out[j]);
    }
  }

  /**
   A recorded entry submitted again is answered with its own identifier and position in every
   later state, whatever has been sealed, closed or limited since.
   */
  lemma ReplayedForever(run: seq<Ledger>, i: nat, e: Entry)
    requires IsRun(run) && Inv(run[0]) && i < |run[0].entries|
    requires ContentHash(run[0].scale, e) == ContentHash(run[0].scale, run[0].entries[i])
    ensures Replays(run[|run| - 1], e,
      Recorded(run[0].entries[i].id, i, ContentHash(run[|run| - 1].scale, e), false))
  {
    hide Inv, IsRun, ContentHash;
    ReplayForever(run, i, e);
  }

  /** What is to be done with a submitted entry. */
  datatype Decision = Replay(recorded: Recorded) | Refuse(error: JournalError) | Accept(after: TrialBalance)

  class Journal {
    const ledger: LedgerId
    const scale: byte
    const accounts: AccountRegistry
    const calendar: PeriodCalendar
    const log: MerkleLog
    const seals: SealChain
    const clearings: ClearingRegister
    var policy: LedgerPolicy
    var entries: seq<Entry>
    var byId: IdIndex
    var byKey: KeyedIndex
    var reversedBy: ReversalMap
    var balances: TrialBalance
    var sites: SiteMap

    /** The ledger this journal holds. */
    ghost function State(): Ledger
      reads this, accounts, calendar, seals, clearings
      requires |accounts.accounts| <= MAX_HANDLES
    {
      Ledger(ledger, scale, accounts.accounts, calendar.Table(), policy, entries, seals.seals,
        clearings.events, clearings.reset.Keys)
    }

    ghost function Repr(): set<object>
      reads this, log
    {
      {this, accounts, calendar, log, log.accumulator, seals, clearings}
    }

    /** Every part is consistent, and everything derived agrees with the entries. */
    ghost predicate Valid()
      reads this, accounts, calendar, log, log.accumulator, seals, clearings
    {
      && accounts.Valid() && calendar.Valid() && seals.Valid() && clearings.Indexed()
      && seals.ledger == ledger
      && log.Valid() && log.leaves == Hashes(scale, entries)
      && NamesDerived(scale, entries, byId, byKey, reversedBy)
      && balances == TrialOf(Flat(entries))
      && SitesDerived(entries, sites)
      && Inv(State())
    }

    constructor (ledger: LedgerId, scale: byte)
      ensures Valid() && fresh(Repr()) && State() == NewLedger(ledger, scale)
    {
      hide Inv, NamesDerived, SitesDerived, TrialOf, Hashes, Linked, Flat;
      hide Known, SealsSound, ClearingsSound, EntriesSound, Calendar.WellFormed;
      hide AccountRegistry.Valid, PeriodCalendar.Valid, MerkleLog.Valid, SealChain.Valid, ClearingRegister.Indexed;
      this.ledger := ledger;
      this.scale := scale;
      accounts := new AccountRegistry();
      calendar := new PeriodCalendar();
      log := new MerkleLog();
      seals := new SealChain(ledger);
      clearings := new ClearingRegister();
      policy := LedgerPolicy(None, [], None);
      entries, byId, byKey, reversedBy, balances, sites := [], map[], map[], map[], map[], map[];
      new;
      NothingDerived(scale);
      NewLedgerIsSound(ledger, scale);
      assert clearings.reset.Keys == {};
      assert State() == NewLedger(ledger, scale);
    }

    /** Sets the policy for what is recorded next; what is recorded stays as it is. */
    method SetPolicy(policy: LedgerPolicy)
      requires Valid()
      modifies this`policy
      ensures Valid() && PolicyStep(old(State()), State()) && State().policy == policy
    {
      hide Inv, EntriesSound, NamesDerived, SitesDerived, TrialOf, Hashes;
      hide AccountRegistry.Valid, PeriodCalendar.Valid, MerkleLog.Valid, SealChain.Valid, ClearingRegister.Indexed;
      ghost var before := State();
      this.policy := policy;
      CalendarKeepsInv(before, State());
    }

    // ------------------------------------------------------------- recording

    /** The correction rules, against what is already recorded. */
    method CheckReversal(e: Entry) returns (error: Option<JournalError>)
      requires IdsDerived(entries, byId) && ReversalsDerived(entries, reversedBy)
      ensures error.None? <==> ReversalAllowed(entries, e)
      ensures error.Some? ==> ReversalRefused(entries, e, error.value)
    {
      if e.reverses.None? {
        return None;
      }
      var original := e.reverses.value;
      IndexOfFacts(entries, original);
      if original !in byId {
        return Some(UnknownOriginal(original));
      }
      var target := entries[byId[original]];
      if original in reversedBy {
        return Some(AlreadyReversed(original, reversedBy[original]));
      }
      if target.reverses.Some? {
        return Some(ReversalOfReversal(original));
      }
      if !IsInversion(target, e) {
        return Some(NotAnInversion(original));
      }
      return None;
    }

    /** Each distinct key the entry touches, against its account's limit. */
    method CheckLimits(e: Entry, after: TrialBalance) returns (error: Option<JournalError>)
      requires after == TrialOf(Flat(entries) + e.postings)
      ensures error.None? <==> LimitsAllow(accounts.accounts, entries, e)
      ensures error.None? <==> forall p :: p in e.postings && p.account < |accounts.accounts| ==>
        var limit, net := accounts.accounts[p.account].limit, Sum(Flat(entries) + e.postings, p.Key()).SignedNet();
        (limit == NoCreditBalance ==> net >= 0) && (limit == NoDebitBalance ==> net <= 0)
      ensures error.Some? ==> LimitRefused(scale, accounts.accounts, entries, e, error.value)
    {
      hide Sum, Flat;
      var checked: set<BalanceKey> := {};
      for i := 0 to |e.postings|
        invariant checked == Touched(e.postings[..i])
        invariant forall k :: k in checked ==> k in after && LimitOf(accounts.accounts, k.account).Permits(after[k])
      {
        var p := e.postings[i];
        var key := p.Key();
        assert e.postings[..i + 1] == e.postings[..i] + [p];
        TouchedConcat(e.postings[..i], [p]);
        assert p in Flat(entries) + e.postings;
        if key !in checked {
          var limit := LimitOf(accounts.accounts, key.account);
          if !limit.Permits(after[key]) {
            return Some(LimitBreached(key, limit, after[key].SignedNet(), scale));
          }
        }
        checked := checked + {key};
      }
      assert e.postings[..|e.postings|] == e.postings;
      forall p | p in e.postings
        ensures LimitOf(accounts.accounts, p.account).Permits(Sum(Flat(entries) + e.postings, p.Key()))
      {
        assert p.Key() in checked;
      }
      return None;
    }

    /** Files an accepted entry in the log and in every index. */
    method Append(e: Entry, after: TrialBalance) returns (index: u64)
      requires log.Valid() && log.leaves == Hashes(scale, entries) && |entries| < U64_MAX
      requires NamesDerived(scale, entries, byId, byKey, reversedBy) && SitesDerived(entries, sites)
      requires after == TrialOf(Flat(entries) + e.postings)
      modifies this, log, log.accumulator
      ensures log.Valid() && log.accumulator == old(log.accumulator) && log.leaves == Hashes(scale, entries)
      ensures entries == old(entries) + [e] && policy == old(policy) && index == |old(entries)|
      ensures NamesDerived(scale, entries, byId, byKey, reversedBy) && SitesDerived(entries, sites)
      ensures balances == TrialOf(Flat(entries))
    {
      hide TrialOf, NamesDerived, SitesDerived, SitesAdded, ContentHash, Hashes, Flat, Touched;
      hide MerkleLog.Valid;
      NamesAppend(scale, entries, byId, byKey, reversedBy, e);
      FlatAppend(entries, e);
      var content := ContentHash(scale, e);
      HashesAppend(scale, entries, e);
      index := log.Append(content);
      if e.reverses.Some? {
        reversedBy := reversedBy[e.reverses.value := e.id];
      }
      var filed := AddSites(sites, index, e.postings);
      SitesAppend(entries, sites, e, filed);
      sites := filed;
      balances := after;
      byId := byId[e.id := index];
      byKey := byKey[e.key := (e.id, index, content)];
      entries := entries + [e];
    }

    /** Answers a key that is already on record: a replay of the same content, or a conflict. */
    method Settle(e: Entry) returns (r: Option<Result<Recorded, JournalError>>)
      requires accounts.Valid() && NamesDerived(scale, entries, byId, byKey, reversedBy)
      ensures r.Some? <==> KeyIndex(entries, e.key).Some?
      ensures r.Some? ==> match r.value
        case Ok(recorded) => Replays(State(), e, recorded) && !recorded.isNew
        case Err(error) => Refuses(State(), e, error)
    {
      hide ContentHash;
      KeyIndexFacts(entries, e.key);
      if e.key !in byKey {
        return None;
      }
      var (id, index, stored) := byKey[e.key];
      var content := ContentHash(scale, e);
      return Some(if stored == content then Ok(Recorded(id, index, content, false))
        else Err(IdempotencyConflict(id, stored, content)));
    }

    /** Settles idempotency first, then the rules in order; nothing is changed yet. */
    method Decide(e: Entry) returns (d: Decision)
      requires accounts.Valid() && NamesDerived(scale, entries, byId, byKey, reversedBy)
      requires EntriesSound(entries) && balances == TrialOf(Flat(entries))
      requires KeyIndex(entries, e.key).None? ==> WellBalanced(e)
      ensures match d
        case Replay(r) => Replays(State(), e, r) && !r.isNew
        case Refuse(error) => Refuses(State(), e, error)
        case Accept(after) =>
          KeyIndex(entries, e.key).None? && Recordable(accounts.accounts, entries, e)
          && after == TrialOf(Flat(entries) + e.postings)
    {
      hide EntriesSound, ContentHash, TrialOf, AllFit, WellBalanced, LimitsAllow, ReversalAllowed;
      var settled := Settle(e);
      if settled.Some? {
        return if settled.value.Ok? then Replay(settled.value.value) else Refuse(settled.value.error);
      }
      if e.id in byId {
        return Refuse(RepeatedId(e.id));
      }
      var refused := CheckReversal(e);
      if refused.Some? {
        return Refuse(refused.value);
      }
      var after := NewBalances(e);
      if after.None? {
        return Refuse(MoneyOverflow);
      }
      var breached := CheckLimits(e, after.value);
      if breached.Some? {
        return Refuse(breached.value);
      }
      return Accept(after.value);
    }

    /** The balances with an entry added, unless one overflows. */
    method NewBalances(e: Entry) returns (after: Option<TrialBalance>)
      requires EntriesSound(entries) && balances == TrialOf(Flat(entries)) && WellBalanced(e)
      ensures after.Some? <==> AllFit(TrialOf(Flat(entries) + e.postings))
      ensures after.Some? ==> after.value == TrialOf(Flat(entries) + e.postings)
    {
      FlatAllPositive(entries);
      after := ApplyAll(balances, Flat(entries), e.postings);
    }

    /**
     Records a validated entry. A key already used answers a replay or a conflict before any
     other rule, whether or not the entry would still pass validation; otherwise the entry is
     recorded exactly when it is recordable, and a refusal changes nothing. Only an entry new
     to the journal has to have been validated against it.
     */
    method RecordValidated(e: Entry) returns (r: Result<Recorded, JournalError>)
      requires Valid() && |entries| < U64_MAX
      requires KeyIndex(entries, e.key).None? ==> Passes(e, State().Ctx())
      modifies this, log, log.accumulator
      ensures Valid() && log.accumulator == old(log.accumulator) && policy == old(policy)
      ensures r.Ok? && r.value.isNew ==>
        RecordStep(old(State()), State(), e)
        && r.value == Recorded(e.id, |old(entries)|, ContentHash(scale, e), true)
      ensures r.Ok? && !r.value.isNew ==> State() == old(State()) && Replays(State(), e, r.value)
      ensures r.Err? ==> State() == old(State()) && Refuses(State(), e, r.error)
      ensures Step(old(State()), State())
    {
      hide Inv, Passes, Hashes, SitesDerived, NamesDerived, TrialOf, Recordable, Replays, Refuses, ContentHash;
      hide Known, SealsSound, ClearingsSound, Calendar.WellFormed;
      hide AccountRegistry.Valid, PeriodCalendar.Valid, MerkleLog.Valid, SealChain.Valid, ClearingRegister.Indexed;
      InvParts(State());
      if KeyIndex(entries, e.key).None? {
        PassingIsBalanced(e, State().Ctx());
      }
      var decision := Decide(e);
      match decision {
        case Replay(recorded) => return Ok(recorded);
        case Refuse(error) => return Err(error);
        case Accept(after) =>
          ghost var before := State();
          var index := Append(e, after);
          assert RecordStep(before, State(), e);
          RecordKeepsInv(before, State(), e);
          return Ok(Recorded(e.id, index, ContentHash(scale, e), true));
      }
    }

    /** Takes every entry after a mark out of the indexes, newest first. */
    method PopTo(mark: nat) returns (touched: set<BalanceKey>)
      requires mark <= |entries| && EntriesSound(entries)
      requires NamesDerived(scale, entries, byId, byKey, reversedBy) && SitesDerived(entries, sites)
      modifies this
      ensures entries == old(entries)[..mark] && policy == old(policy) && balances == old(balances)
      ensures NamesDerived(scale, entries, byId, byKey, reversedBy)
      ensures SitesDuringUndo(entries, sites, touched) && TouchedSince(old(entries), mark, touched)
    {
      hide EntriesSound, NamesDerived, SitesOn, Touched, Retained, SiteDuringUndo;
      touched := {};
      PopStart(entries, sites);
      while |entries| > mark
        invariant mark <= |entries| <= |old(entries)| && entries == old(entries)[..|entries|]
        invariant policy == old(policy) && balances == old(balances)
        invariant NamesDerived(scale, entries, byId, byKey, reversedBy)
        invariant SitesDuringUndo(entries, sites, touched)
        invariant TouchedSince(old(entries), |entries|, touched)
      {
        var e := entries[|entries| - 1];
        var index := |entries| - 1;
        PopNames(scale, old(entries), |entries|, byId, byKey, reversedBy);
        TouchedOneMore(old(entries), |entries|, touched);
        var kept := RemoveSites(sites, index, e.postings);
        UndoSites(entries, sites, touched, kept);
        entries := entries[..index];
        byId := byId - {e.id};
        byKey := byKey - {e.key};
        if e.reverses.Some? {
          reversedBy := reversedBy - {e.reverses.value};
        }
        sites := kept;
        touched := touched + Touched(e.postings);
      }
    }

    /** Recomputes the lists and balances of the keys an undo touched. */
    method SettleTouched(touched: set<BalanceKey>, ghost full: seq<Entry>)
      requires EntriesSound(entries) && entries <= full && SitesDuringUndo(entries, sites, touched)
      requires balances == TrialOf(Flat(full)) && TouchedSince(full, |entries|, touched)
      modifies this`sites, this`balances
      ensures SitesDerived(entries, sites) && balances == TrialOf(Flat(entries))
    {
      hide EntriesSound, SitesOn, Flat, TrialOf, SitesDuringUndo, TouchedSince, SitesDerived;
      var kept, settled := Resettle(entries, sites, balances, touched, full);
      sites := kept;
      balances := settled;
    }

    /**
     Undoes every append since the journal held `mark` entries. The balances of touched keys
     are recomputed from what remains, and everything derived is again what the
     remaining entries give.
     */
    method RollbackTo(mark: nat)
      requires Valid() && mark <= |entries| && Inv(State().(entries := entries[..mark]))
      modifies this, log, log.accumulator
      ensures Valid() && (log.accumulator == old(log.accumulator) || fresh(log.accumulator))
      ensures State() == old(State()).(entries := old(entries)[..mark])
    {
      hide Inv, NamesDerived, SitesDerived, TrialOf, Flat, SitesDuringUndo, TouchedSince, ContentHash, EntriesSound, Hashes;
      hide Known, SealsSound, ClearingsSound, Calendar.WellFormed;
      hide AccountRegistry.Valid, PeriodCalendar.Valid, MerkleLog.Valid, SealChain.Valid, ClearingRegister.Indexed;
      InvParts(State());
      InvParts(State().(entries := entries[..mark]));
      ghost var full := entries;
      var touched := PopTo(mark);
      HashesPrefix(scale, full, mark);
      assert full[..|full|] == full;
      log.Truncate(|entries|);
      SettleTouched(touched, full);
    }

    /**
     Validates a draft and records it. The key is settled before anything is validated, so
     a retry is answered the same way whatever has been sealed or closed since.
     */
    method Record(draft: Entry) returns (r: Result<Recorded, JournalError>)
      requires Valid() && |entries| < U64_MAX
      modifies this, log, log.accumulator
      ensures Valid() && Step(old(State()), State())
      ensures r.Ok? ==> Submitted(old(State()), State(), draft, r.value)
      ensures r.Err? ==> State() == old(State())
      ensures r.Err? && r.error.Invalid? ==>
        KeyIndex(entries, draft.key).None? && r.error.errors != [] && r.error.errors == ErrorsOf(draft, State().Ctx())
        && forall v :: v in r.error.errors <==> Violates(v, draft, State().Ctx())
      ensures r.Err? && !r.error.Invalid? ==> Refuses(State(), draft, r.error)
      ensures r.Err? && !r.error.Invalid? && KeyIndex(entries, draft.key).None? ==> Passes(draft, State().Ctx())
    {
      hide Inv, Passes, Hashes, SitesDerived, NamesDerived, TrialOf, Recordable, Replays, Refuses, ContentHash, Violates, ErrorsOf;
      hide AccountRegistry.Valid, PeriodCalendar.Valid, MerkleLog.Valid, SealChain.Valid, ClearingRegister.Indexed;
      var settled := Settle(draft);
      if settled.Some? {
        if settled.value.Err? {
          RefusalIsExclusive(State(), draft, settled.value.error);
        }
        return settled.value;
      }
      var validated := SealEntry(draft, accounts, calendar, policy, scale);
      if validated.Err? {
        return Err(Invalid(validated.error));
      }
      r := RecordValidated(validated.value);
      if r.Err? {
        RefusalIsExclusive(State(), draft, r.error);
      }
    }

    /**
     Records validated entries in order, or none of them: at the first refusal everything is put
     back as it was, every index and the log included. A replay is not a refusal, and an entry
     already on record need not pass validation any more.
     */
    method RecordBatch(batch: seq<Entry>) returns (r: Result<seq<Recorded>, JournalError>, ghost run: seq<Ledger>)
      requires Valid() && |entries| + |batch| <= U64_MAX
      requires forall e :: e in batch && KeyIndex(entries, e.key).None? ==> Passes(e, State().Ctx())
      modifies this, log, log.accumulator
      ensures Valid() && (log.accumulator == old(log.accumulator) || fresh(log.accumulator))
      ensures run != [] && run[0] == old(State())
      ensures r.Ok? ==> Batched(run, batch, r.value) && |r.value| == |batch| && State() == run[|batch|]
      ensures r.Err? ==>
        exists out :: Batched(run, batch, out) && |out| < |batch| && Refuses(run[|out|], batch[|out|], r.error)
      ensures r.Err? ==>
        && State() == old(State()) && log.leaves == old(log.leaves)
        && log.accumulator.subtrees == old(log.accumulator.subtrees)
        && byId == old(byId) && byKey == old(byKey) && reversedBy == old(reversedBy)
        && balances == old(balances) && sites == old(sites)
    {
      hide Inv, Passes, Hashes, SitesDerived, NamesDerived, TrialOf, Submitted, Refuses, Replays, ContentHash, Batched;
      hide AccountRegistry.Valid, PeriodCalendar.Valid, MerkleLog.Valid, SealChain.Valid, ClearingRegister.Indexed;
      var mark := |entries|;
      log.StackDetermined();
      ghost var before := State();
      assert Inv(before) && NamesDerived(scale, entries, byId, byKey, reversedBy) && SitesDerived(entries, sites);
      var out: seq<Recorded> := [];
      run := [State()];
      BatchStarts(State(), batch);
      for i := 0 to |batch|
        invariant Valid() && log.accumulator == old(log.accumulator)
        invariant Batched(run, batch, out) && |out| == i && |run| == i + 1 && run[i] == State()
        invariant run[0] == old(State())
        invariant State() == old(State()).(entries := entries) && old(entries) <= entries && |entries| <= mark + i
      {
        assert batch[i] in batch;
        KeyNewBefore(old(entries), entries, batch[i].key);
        var recorded := RecordValidated(batch[i]);
        if recorded.Err? {
          assert before == State().(entries := entries[..mark]);
          RollbackTo(mark);
          log.StackDetermined();
          Restored(scale, entries, byId, old(byId), byKey, old(byKey), reversedBy, old(reversedBy), sites, old(sites));
          return Err(recorded.error), run;
        }
        StepSubmits(run[i], State(), batch[i], recorded.value);
        BatchGrows(run, batch, out, State(), recorded.value);
        out := out + [recorded.value];
        run := run + [State()];
      }
      return Ok(out), run;
    }

    // --------------------------------------------------------------- reading

    /** How many entries a size names: all of them when it is absent or beyond the log. */
    function Cut(size: Option<nat>): (n: nat)
      reads this
      ensures n <= |entries|
      ensures size.Some? && size.value <= |entries| ==> n == size.value
      ensures size.None? || size.value > |entries| ==> n == |entries|
    {
      if size.Some? && size.value < |entries| then size.value else |entries|
    }

    /** The books as of a size; reading never overflows what recording accepted. */
    method TrialBalanceAt(size: Option<nat>) returns (r: Result<TrialBalance, JournalError>)
      requires Valid()
      ensures r == Ok(TrialOf(Flat(entries[..Cut(size)])))
    {
      hide Inv, SitesDerived, NamesDerived, TrialOf, Flat, Hashes;
      InvParts(State());
      if size.None? || size.value >= |entries| {
        assert entries[..|entries|] == entries;
        return Ok(balances);
      }
      var tb := FoldEntries(entries, size.value);
      return match tb case Some(all) => Ok(all) case None => Err(MoneyOverflow);
    }

    /** One balance as of a size: a lookup now, a walk over the key's own sites before. */
    method BalanceAt(key: BalanceKey, size: Option<nat>) returns (r: Result<Balance, JournalError>)
      requires Valid()
      ensures r == Ok(Sum(Flat(entries[..Cut(size)]), key))
    {
      hide Inv, NamesDerived, Flat, Hashes, Sum, SitesOn;
      InvParts(State());
      assert entries[..|entries|] == entries;
      if size.None? {
        if key !in balances {
          SumUntouched(Flat(entries), key);
        }
        return Ok(if key in balances then balances[key] else ZERO);
      }
      var balance, overflowed := FoldSites(entries, SitesFor(key), Cut(size), key);
      return if overflowed then Err(MoneyOverflow) else Ok(balance);
    }

    /** The sites filed under a key. */
    function SitesFor(key: BalanceKey): (list: seq<Site>)
      reads this
      ensures SitesDerived(entries, sites) ==> list == SitesOn(entries, key)
    {
      if key in sites then sites[key] else []
    }

    /** One balance through a date, by booking date whenever it was recorded. */
    method BalanceOnDate(key: BalanceKey, end: Date) returns (r: Result<Balance, JournalError>)
      requires Valid()
      ensures r == Ok(Sum(FlatThrough(entries, end), key))
    {
      hide Inv, NamesDerived, Hashes, Sum, SitesOn, TrialOf;
      InvParts(State());
      var balance := FoldDated(entries, SitesFor(key), end, key);
      return match balance case Some(b) => Ok(b) case None => Err(MoneyOverflow);
    }

    /** Everything booked on or before a date, as a period closes at. */
    method TrialBalanceThroughDate(end: Date) returns (r: Result<TrialBalance, JournalError>)
      requires Valid()
      ensures r == Ok(ClosingBalances(entries, end))
    {
      hide Inv, NamesDerived, SitesDerived, Hashes, ClosingBalances, TrialOf;
      InvParts(State());
      var tb := FoldThrough(entries, end);
      return match tb case Some(all) => Ok(all) case None => Err(MoneyOverflow);
    }

    /** Recomputing the balances from the entries always agrees with what is maintained. */
    method VerifyBalances() returns (r: Result<bool, JournalError>)
      requires Valid()
      ensures r == Ok(true)
    {
      hide Inv, NamesDerived, SitesDerived, TrialOf, Flat, Hashes;
      InvParts(State());
      assert entries[..|entries|] == entries;
      var tb := FoldEntries(entries, |entries|);
      return match tb case Some(all) => Ok(all == balances) case None => Err(MoneyOverflow);
    }

    /**
     The trial-balance check over the whole journal: yes exactly when every layer of every
     currency balances and its totals are in range; otherwise the first layer at fault decides
     between a no and an overflow.
     */
    method VerifyBalanced() returns (r: Result<bool, JournalError>)
      requires Valid()
      ensures r == Ok(true) <==> LayersBalance(Flat(entries)) && LayersFit(Flat(entries))
      ensures r != Ok(true) ==> exists c, layer ::
        FirstFault(Flat(entries), c, layer)
        && r == if LayerSum(Flat(entries), c, layer).Fits() then Ok(false) else Err(MoneyOverflow)
    {
      hide Inv, NamesDerived, SitesDerived, TrialOf, Flat, Hashes, LayersBalance, LayersFit, FirstFault, LayerSum;
      InvParts(State());
      FlatAllPositive(entries);
      var checked := CheckBalanced(balances, Flat(entries));
      return match checked case Some(balanced) => Ok(balanced) case None => Err(MoneyOverflow);
    }

    /** Rebuilding the log from the entries always agrees with what is maintained. */
    method VerifyLog() returns (ok: bool)
      requires Valid()
      ensures ok
    {
      hide Inv, NamesDerived, SitesDerived, TrialOf, TreeHash, ContentHash;
      if |log.leaves| != |entries| {
        return false;
      }
      var maintained := log.VerifyIncrementalState();
      if !maintained {
        return false;
      }
      var rebuilt := new MerkleLog.FromLeaves(Hashes(scale, entries));
      var again := rebuilt.Root();
      var root := log.Root();
      return again == root;
    }

    /** The statement of a key: every posting in log order with the balance after it. */
    method Statement(key: BalanceKey) returns (r: Result<seq<StatementLine>, JournalError>)
      requires Valid()
      ensures forall s :: s in SitesOn(entries, key) ==> Resolves(entries, s)
      ensures r.Ok? && |r.value| == |SitesOn(entries, key)|
      ensures forall i :: 0 <= i < |r.value| ==> LineAt(r.value[i], entries, SitesOn(entries, key)[i])
      ensures if r.value == [] then key !in balances
        else key in balances && r.value[|r.value| - 1].running == balances[key]
    {
      hide Inv, NamesDerived, Hashes, SitesOn, Sum, LineAt;
      InvParts(State());
      SitesOnTouched(entries, key);
      var lines := StatementLines(entries, SitesFor(key), key);
      return match lines case Some(all) => Ok(all) case None => Err(MoneyOverflow);
    }

    // -------------------------------------------------------------- clearing

    /** Records that postings offset one another; a refused clearing changes nothing. */
    method Clear(c: Clearing) returns (r: Result<(), JournalError>)
      requires Valid()
      modifies clearings
      ensures Valid() && (r.Ok? <==> Clearable(old(State()), c))
      ensures r.Ok? ==> ClearingStep(old(State()), State()) && clearings.events == old(clearings.events) + [Cleared(c)]
      ensures r.Err? ==>
        State() == old(State()) && r.error.ClearingRefused? && ClearRefused(old(State()), c, r.error.clearing)
        && !r.error.clearing.Overflow?
      ensures Step(old(State()), State())
    {
      hide Inv, EntriesSound, SitesDerived, TrialOf, Hashes, Clearable, AllSound, WithinAmounts, Catalogued, Sound, Sides;
      hide Known, SealsSound, Calendar.WellFormed, Explains, ClearRefused;
      hide AccountRegistry.Valid, PeriodCalendar.Valid, MerkleLog.Valid, SealChain.Valid;
      ghost var before := State();
      InvParts(before);
      var lookup := IndexedLookup(byId, entries);
      LookupsAgree(byId, entries);
      RegisterAgrees(clearings.events, clearings.reset.Keys, LookupOf(entries), lookup);
      ClearableIs(before, c, clearings.byId, clearings.reset, clearings.applied, lookup);
      ghost var ids, taken := clearings.byId, clearings.applied;
      var cleared := clearings.Clear(c, lookup);
      RegisterAgrees(clearings.events, clearings.reset.Keys, lookup, LookupOf(entries));
      if cleared.Err? {
        ClearingNeverOverflows(before, c);
        RefusalIs(before, c, cleared.error, ids, clearings.reset, taken, lookup);
        return Err(ClearingRefused(cleared.error));
      }
      CalendarKeepsInv(before, State());
      return Ok(());
    }

    /** Releases a clearing once. */
    method ResetClearing(id: Id, on: Date) returns (r: Result<(), JournalError>)
      requires Valid()
      modifies clearings
      ensures Valid()
      ensures r == if id !in old(clearings.byId) then Err(ClearingRefused(UnknownClearing(id)))
        else if id in old(clearings.reset) then Err(ClearingRefused(AlreadyReset(id))) else Ok(())
      ensures r.Ok? ==>
        ClearingStep(old(State()), State()) && clearings.events == old(clearings.events) + [Released(id, on)]
        && State().resets == old(State()).resets + {id}
      ensures r.Err? ==> State() == old(State())
      ensures Step(old(State()), State())
    {
      hide Inv, EntriesSound, SitesDerived, TrialOf, Hashes, AllSound, WithinAmounts, Catalogued;
      hide AccountRegistry.Valid, PeriodCalendar.Valid, MerkleLog.Valid, SealChain.Valid;
      ghost var before := State();
      InvParts(before);
      var released := clearings.Reset(id, on, LookupOf(entries));
      if released.Err? {
        return Err(ClearingRefused(released.error));
      }
      CalendarKeepsInv(before, State());
      return Ok(());
    }

    /** What is open on a key, oldest first; its signed total is the key's balance. */
    method OpenItems(key: BalanceKey) returns (r: Result<seq<OpenItem>, JournalError>)
      requires Valid()
      ensures forall s :: s in SitesOn(entries, key) ==> Resolves(entries, s)
      ensures r == Ok(OpenOf(Candidates(entries, SitesOn(entries, key)), LookupOf(entries),
        ActiveOf(clearings.events, clearings.reset.Keys)))
      ensures forall item ::
        IsOpen(entries, clearings.events, clearings.reset.Keys, key, item) <==> item in r.value
      ensures SignedResidual(r.value) == Sum(Flat(entries), key).SignedNet()
    {
      hide Inv, EntriesSound, Hashes, Sum, SitesOn, TrialOf, AllSound, WithinAmounts, OpenOf, IsOpen;
      InvParts(State());
      DistinctOf(entries);
      OpenItemsMatchBalance(entries, clearings.events, clearings.reset.Keys, key);
      CandidatesListKey(entries, key);
      var candidates := Candidates(entries, SitesFor(key));
      var lookup := IndexedLookup(byId, entries);
      LookupsAgree(byId, entries);
      RegisterAgrees(clearings.events, clearings.reset.Keys, LookupOf(entries), lookup);
      var items := clearings.OpenItems(candidates, lookup);
      OpenAgrees(candidates, lookup, LookupOf(entries), ActiveOf(clearings.events, clearings.reset.Keys));
      AllResolve(entries, key, candidates, lookup);
      OpenItemsAre(entries, clearings.events, clearings.reset.Keys, key);
      return match items case Ok(all) => Ok(all) case Err(error) => Err(ClearingRefused(error));
    }

    // ----------------------------------------------------- accounts and periods

    method RegisterAccount(account: Account) returns (r: Result<u32, AccountError>)
      requires Valid()
      modifies accounts
      ensures Valid() && RegistryStep(old(State()), State())
      ensures r == var before := old(State()).accounts;
        if account.ClosedEarly() then Err(ClosedBeforeOpened(account.path, account.openedOn, account.closedOn.value))
        else if exists a :: a in before && a.path == account.path then Err(AlreadyRegistered(account.path))
        else if |before| > U32_MAX then Err(RegistryFull) else Ok(|before|)
      ensures State().accounts == if r.Ok? then old(State()).accounts + [account] else old(State()).accounts
    {
      hide Inv, EntriesSound, NamesDerived, SitesDerived, TrialOf, Hashes;
      hide PeriodCalendar.Valid, MerkleLog.Valid, SealChain.Valid, ClearingRegister.Indexed;
      ghost var before := State();
      r := accounts.Register(account);
      RegistryKeepsInv(before, State());
    }

    method SetLimit(id: u32, limit: BalanceLimit) returns (r: Result<(), AccountError>)
      requires Valid()
      modifies accounts
      ensures Valid() && RegistryStep(old(State()), State())
      ensures r == if id < |old(State()).accounts| then Ok(()) else Err(UnknownAccount(id))
      ensures var before := old(State()).accounts;
        State().accounts == if id < |before| then before[id := before[id].(limit := limit)] else before
    {
      hide Inv, EntriesSound, NamesDerived, SitesDerived, TrialOf, Hashes;
      hide PeriodCalendar.Valid, MerkleLog.Valid, SealChain.Valid, ClearingRegister.Indexed;
      ghost var before := State();
      r := accounts.SetLimit(id, limit);
      RegistryKeepsInv(before, State());
    }

    method CloseAccount(id: u32, on: Date) returns (r: Result<(), AccountError>)
      requires Valid()
      modifies accounts
      ensures Valid() && RegistryStep(old(State()), State())
      ensures r == var before := old(State()).accounts;
        if id >= |before| then Err(UnknownAccount(id))
        else if on < before[id].openedOn then Err(ClosedBeforeOpened(before[id].path, before[id].openedOn, on))
        else Ok(())
      ensures var before := old(State()).accounts;
        State().accounts == if r.Ok? && id < |before| then before[id := before[id].(closedOn := Some(on))] else before
      ensures r.Ok? ==> id < |State().accounts| && forall d: Date ::
        State().accounts[id].IsOpenOn(d) <==> old(State()).accounts[id].openedOn <= d <= on
    {
      hide Inv, EntriesSound, NamesDerived, SitesDerived, TrialOf, Hashes;
      hide PeriodCalendar.Valid, MerkleLog.Valid, SealChain.Valid, ClearingRegister.Indexed;
      ghost var before := State();
      r := accounts.Close(id, on);
      RegistryKeepsInv(before, State());
    }

    method ReopenAccount(id: u32) returns (r: Result<(), AccountError>)
      requires Valid()
      modifies accounts
      ensures Valid() && RegistryStep(old(State()), State())
      ensures r == if id < |old(State()).accounts| then Ok(()) else Err(UnknownAccount(id))
      ensures var before := old(State()).accounts;
        State().accounts == if id < |before| then before[id := before[id].(closedOn := None)] else before
      ensures r.Ok? ==> id < |State().accounts| && forall d: Date ::
        State().accounts[id].IsOpenOn(d) <==> old(State()).accounts[id].openedOn <= d
    {
      hide Inv, EntriesSound, NamesDerived, SitesDerived, TrialOf, Hashes;
      hide PeriodCalendar.Valid, MerkleLog.Valid, SealChain.Valid, ClearingRegister.Indexed;
      ghost var before := State();
      r := accounts.Reopen(id);
      RegistryKeepsInv(before, State());
    }

    /** Puts a stored account back at its handle: a held one keeps its path, a new one is the next. */
    method RestoreAccount(record: AccountRecord) returns (r: Result<(), AccountError>)
      requires Valid()
      modifies accounts
      ensures Valid() && RegistryStep(old(State()), State())
      ensures r.Ok? ==> record.id < |State().accounts| && State().accounts[record.id] == record.account
      ensures r.Ok? ==> var before := old(State()).accounts;
        State().accounts ==
          if record.id < |before| then before[record.id := record.account] else before + [record.account]
      ensures r.Err? ==> State() == old(State()) && RestoreRefused(old(State()).accounts, record, r.error)
    {
      hide Inv, EntriesSound, NamesDerived, SitesDerived, TrialOf, Hashes, RestoreRefused;
      hide PeriodCalendar.Valid, MerkleLog.Valid, SealChain.Valid, ClearingRegister.Indexed;
      ghost var before := State();
      r := accounts.Restore(record);
      RegistryKeepsInv(before, State());
    }

    method DefinePeriod(period: Period) returns (r: Result<(), JournalError>)
      requires Valid() && period.start <= period.end
      modifies calendar
      ensures Valid() && CalendarStep(old(State()), State())
      ensures r.Ok? <==>
        var filed := old(State()).calendar.periods;
        period.id !in filed
        && forall id, d: Date :: id in filed && filed[id].Contains(d) ==> !period.Contains(d)
      ensures r.Ok? ==> State().calendar == old(State()).calendar.Filed(period)
      ensures old(State()).calendar.WatermarkExact() ==> State().calendar.WatermarkExact()
      ensures r.Err? ==>
        State() == old(State()) && r.error.PeriodRefused?
        && old(State()).calendar.DefineRefused(period, r.error.period)
    {
      hide Inv, EntriesSound, NamesDerived, SitesDerived, TrialOf, Hashes, Calendar.AdvancesTo, Calendar.WellFormed, Indexed;
      hide Calendar.WatermarkExact;
      hide AccountRegistry.Valid, MerkleLog.Valid, SealChain.Valid, ClearingRegister.Indexed, Calendar.DefineRefused;
      ghost var before := State();
      var defined := calendar.Define(period);
      CalendarKeepsInv(before, State());
      return if defined.Ok? then Ok(()) else Err(PeriodRefused(defined.error));
    }

    /**
     Files a period as a store does, replacing the stored state of one with the same range. Even
     a sealed period put back as open reopens nothing while the journal lives: the watermark
     stays. Whether a restart would bring it back is what `StaysExact` says.
     */
    method EnsurePeriod(period: Period) returns (r: Result<(), JournalError>)
      requires Valid() && period.start <= period.end
      modifies calendar
      ensures Valid() && CalendarStep(old(State()), State())
      ensures r.Ok? <==>
        var table := old(State()).calendar;
        if period.id in table.periods
        then table.periods[period.id].start == period.start && table.periods[period.id].end == period.end
        else forall id, d: Date :: id in table.periods && table.periods[id].Contains(d) ==> !period.Contains(d)
      ensures r.Ok? ==> State().calendar == old(State()).calendar.Filed(period)
      ensures r.Ok? ==> (State().calendar.WatermarkExact() <==> old(State()).calendar.StaysExact(period))
      ensures forall date: Date :: old(State()).calendar.FrozenOn(date) ==> State().calendar.StateOn(date) == Sealed
      ensures r.Err? ==>
        State() == old(State()) && r.error.PeriodRefused?
        && old(State()).calendar.DefineRefused(period, r.error.period)
    {
      hide Inv, EntriesSound, NamesDerived, SitesDerived, TrialOf, Hashes, Calendar.WellFormed, Indexed;
      hide AccountRegistry.Valid, MerkleLog.Valid, SealChain.Valid, ClearingRegister.Indexed, Calendar.DefineRefused;
      hide Calendar.WatermarkExact, Calendar.StaysExact;
      ghost var before := State();
      var ensured := calendar.Ensure(period);
      CalendarKeepsInv(before, State());
      return if ensured.Ok? then Ok(()) else Err(PeriodRefused(ensured.error));
    }

    method TransitionPeriod(period: PeriodId, to: PeriodState) returns (r: Result<(), JournalError>)
      requires Valid()
      modifies calendar
      ensures Valid() && CalendarStep(old(State()), State())
      ensures r.Ok? <==>
        period in old(State()).calendar.periods
        && Permitted(old(State()).calendar.periods[period].state, to)
      ensures r.Ok? ==>
        State().calendar == old(State()).calendar.Filed(old(State()).calendar.periods[period].(state := to))
      ensures old(State()).calendar.WatermarkExact() ==> State().calendar.WatermarkExact()
      ensures r.Err? ==>
        State() == old(State())
        && var table := old(State()).calendar.periods;
           r.error == PeriodRefused(if period in table then InvalidTransition(period, table[period].state, to)
             else PeriodError.Unknown(period))
    {
      hide Calendar.WatermarkExact;
      hide Inv, EntriesSound, NamesDerived, SitesDerived, TrialOf, Hashes, Calendar.AdvancesTo, Calendar.WellFormed, Indexed;
      hide AccountRegistry.Valid, MerkleLog.Valid, SealChain.Valid, ClearingRegister.Indexed;
      ghost var before := State();
      var moved := calendar.Transition(period, to);
      CalendarKeepsInv(before, State());
      return if moved.Ok? then Ok(()) else Err(PeriodRefused(moved.error));
    }

    // ----------------------------------------------------------------- seals

    /**
     Seals a closing period. Only the calendar can refuse: whenever the period is sealable the
     seal links to the chain, and the period's last day becomes the watermark.
     */
    method SealPeriod(period: PeriodId) returns (r: Result<Seal, JournalError>)
      requires Valid()
      modifies calendar, seals
      ensures Valid() && (r.Ok? <==> old(State()).calendar.Sealable(period))
      ensures r.Ok? ==>
        SealStep(old(State()), State(), period, r.value.coverage)
        && r.value == SealOf(old(State()), period, r.value.coverage)
      ensures old(State()).calendar.WatermarkExact() ==> State().calendar.WatermarkExact()
      ensures r.Err? ==>
        State() == old(State()) && r.error.PeriodRefused?
        && old(State()).calendar.SealRefused(period, r.error.period)
      ensures Step(old(State()), State())
    {
      hide Inv, EntriesSound, NamesDerived, SitesDerived, TrialOf, CheckLink, CoverageExact, SealOf, ClosingBalances, Hashes;
      hide Calendar.SealRefused, Calendar.WatermarkExact;
      hide AccountRegistry.Valid, PeriodCalendar.Valid, MerkleLog.Valid, ClearingRegister.Indexed, SealChain.Valid;
      hide Calendar.Sealable, Calendar.AdvancesTo, Calendar.Filed, Calendar.WellFormed, PeriodsOf, LastOf;
      hide BookedIn, Seal.ComputeHash;
      ghost var before := State();
      InvParts(before);
      var checked := calendar.CheckSealable(period);
      if checked.Err? {
        return Err(PeriodRefused(checked.error));
      }
      var s := DraftSeal(period, checked.value);
      SealLinks(before, period, s.coverage);
      var pushed := seals.Push(s);
      match pushed {
        case Err(error) => return Err(SealRefused(error));
        case Ok(_) =>
      }
      var moved := calendar.Transition(period, Sealed);
      SealStepIs(before, State(), period, s);
      SealKeepsInv(before, State(), period, s.coverage);
      return Ok(s);
    }

    /** The seal of a period over the books, the log and the registry as they stand. */
    method DraftSeal(period: PeriodId, definition: Period) returns (s: Seal)
      requires Valid() && period in State().calendar.periods && State().calendar.periods[period] == definition
      ensures s == SealOf(State(), period, s.coverage)
      ensures CoverageExact(s.coverage, entries, definition.start, definition.end)
      ensures var booked := BookedIn(entries, definition);
        && s.coverage.entryCount == |booked|
        && (s.coverage.firstIndex.Some? <==> booked != {}) && (s.coverage.lastIndex.Some? <==> booked != {})
        && (booked != {} ==> s.coverage.firstIndex.value in booked && s.coverage.lastIndex.value in booked)
        && forall i :: i in booked ==> s.coverage.firstIndex.value <= i <= s.coverage.lastIndex.value
    {
      hide Inv, NamesDerived, SitesDerived, TrialOf, CoverageExact, TrialBalanceHead, Commitment, Hashes, TreeHash;
      hide AccountRegistry.Valid, PeriodCalendar.Valid, SealChain.Valid, ClearingRegister.Indexed, ClosingBalances;
      InvParts(State());
      var coverage := CoverageOf(entries, definition.start, definition.end);
      CoverageIs(coverage, entries, definition);
      var closing := TrialBalanceThroughDate(definition.end);
      var commitment := new TrialBalanceCommitment.Of(scale, closing.value);
      var trial := commitment.Head(scale, closing.value);
      var head := log.Head();
      var registry := RegistryCommitment(accounts.accounts);
      var previous := seals.Head();
      return BuildSeal(ledger, period, coverage, head, trial, registry, previous);
    }

    /**
     Proves what one account closed a sealed period at. The only error is a period without a
     seal; every row of the closing balance comes back as a claim that verifies under that
     seal and names the account, and the two ways of having no row are told apart.
     */
    method ProveSealedBalance(period: PeriodId, key: BalanceKey)
      returns (r: Result<SealedBalanceOutcome, JournalError>)
      requires Valid()
      ensures r.Err? <==> period !in PeriodsOf(seals.seals)
      ensures r.Err? ==> r.error == SealedBalanceRefused(NotSealed(period))
      ensures r.Ok? ==> period in calendar.periods && exists s ::
        s in seals.seals && s.period == period
        && OutcomeHolds(State(), s, ClosingBalances(entries, calendar.periods[period].end), key, r.value)
    {
      hide OutcomeHolds;
      hide Inv, EntriesSound, NamesDerived, SitesDerived, TrialOf, ClosingBalances, Assemble, SealedBalance.Verifies;
      hide AccountRegistry.Valid, PeriodCalendar.Valid, MerkleLog.Valid, SealChain.Valid, ClearingRegister.Indexed;
      SealedBalanceProvable(State(), period, key);
      var found := SealIn(seals.seals, period);
      if found.None? {
        return Err(SealedBalanceRefused(NotSealed(period)));
      }
      var s := found.value;
      if s.period !in calendar.periods {
        return Err(SealedBalanceRefused(UndefinedPeriod(period)));
      }
      var closing := TrialBalanceThroughDate(calendar.periods[s.period].end);
      var assembled := AssembleClaim(scale, s, closing.value, accounts.accounts, key);
      return match assembled case Ok(outcome) => Ok(outcome) case Err(error) => Err(SealedBalanceRefused(error));
    }

    /** Every link of the chain the journal built holds. */
    method VerifySeals() returns (r: Result<(), SealChainError>)
      requires Valid()
      ensures r.Ok?
    {
      r := seals.Verify();
    }

    // ----------------------------------------------------------- checkpoints

    /** Takes a checkpoint of one balance; it holds now, and so in every later state. */
    method TakeCheckpoint(key: BalanceKey) returns (r: Result<Checkpoint, JournalError>)
      requires Valid()
      ensures r.Ok? && r.value.key == key && r.value.treeHead.size == |entries| && CheckpointHolds(State(), r.value)
    {
      hide Inv, NamesDerived, SitesDerived, TrialOf, Sum, Flat, TreeHash, Hashes;
      InvParts(State());
      HashesPrefix(scale, entries, |entries|);
      assert entries[..|entries|] == entries;
      var balance := BalanceAt(key, None);
      var head := log.Head();
      return Ok(Checkpoint(key, balance.value, head));
    }

    /** Re-derives a checkpoint, accepting it exactly when it holds. */
    method VerifyCheckpoint(c: Checkpoint) returns (r: Result<(), CheckpointError>)
      requires Valid()
      ensures r.Ok? <==> CheckpointHolds(State(), c)
      ensures r.Err? ==> r.error == if c.treeHead.size > |entries| then CheckpointError.SizeOutOfRange(c.treeHead.size)
        else if c.treeHead != HeadOf(Hashes(scale, entries[..c.treeHead.size])) then HeadMismatch else BalanceMismatch
    {
      hide Inv, NamesDerived, SitesDerived, TrialOf, Sum, Flat, TreeHash, Hashes;
      var size := c.treeHead.size;
      if size > |entries| {
        return Err(CheckpointError.SizeOutOfRange(c.treeHead.size));
      }
      HashesPrefix(scale, entries, size);
      var head := log.HeadAt(size);
      if head.Err? {
        return Err(CheckpointError.SizeOutOfRange(c.treeHead.size));
      }
      if head.value != c.treeHead {
        return Err(HeadMismatch);
      }
      var actual := BalanceAt(c.key, Some(size));
      if actual.Err? {
        return Err(CheckpointOverflow);
      }
      return if actual.value == c.balance then Ok(()) else Err(BalanceMismatch);
    }
  }

  /** Pushing the drafted seal and moving the period is the sealing step. */
  lemma SealStepIs(a: Ledger, b: Ledger, period: PeriodId, s: Seal)
    requires Inv(a) && a.calendar.Sealable(period) && s == SealOf(a, period, s.coverage)
    requires CoverageExact(s.coverage, a.entries, a.calendar.periods[period].start, a.calendar.periods[period].end)
    requires b == a.(seals := a.seals + [s], calendar := a.calendar.Filed(a.calendar.periods[period].(state := Sealed)))
    ensures SealStep(a, b, period, s.coverage)
  {
    hide Inv, CoverageExact, SealOf, Calendar.Sealable;
    InvParts(a);
  }

  lemma DistinctOf(es: seq<Entry>)
    requires EntriesSound(es)
    ensures DistinctEntries(es)
  {
  }

  /** Every candidate is a posting the journal holds. */
  lemma AllResolve(es: seq<Entry>, key: BalanceKey, candidates: seq<(Site, PostingRef)>, lookup: PostingLookup)
    requires ListsKey(Refs(candidates), key, LookupOf(es)) && SameLookup(lookup, LookupOf(es))
    ensures forall i :: 0 <= i < |candidates| ==> lookup(candidates[i].1).Some?
  {
    forall i | 0 <= i < |candidates|
      ensures lookup(candidates[i].1).Some?
    {
      assert Refs(candidates)[i] in Refs(candidates);
      assert lookup(candidates[i].1) == LookupOf(es)(candidates[i].1);
    }
  }

  lemma BatchStarts(l: Ledger, batch: seq<Entry>)
    ensures Batched([l], batch, [])
  {
  }

  lemma StepSubmits(a: Ledger, b: Ledger, e: Entry, r: Recorded)
    requires if r.isNew then RecordStep(a, b, e) && r == Recorded(e.id, |a.entries|, ContentHash(a.scale, e), true)
      else a == b && Replays(a, e, r)
    ensures Submitted(a, b, e, r) && a.entries <= b.entries && |b.entries| <= |a.entries| + 1
    ensures b == a.(entries := b.entries)
  {
  }

  /** The same entries leave every index as it was. */
  lemma Restored(scale: byte, es: seq<Entry>, byId: IdIndex, ids: IdIndex, byKey: KeyedIndex, keys: KeyedIndex,
    reversedBy: ReversalMap, reversals: ReversalMap, sites: SiteMap, lists: SiteMap)
    requires NamesDerived(scale, es, byId, byKey, reversedBy) && NamesDerived(scale, es, ids, keys, reversals)
    requires SitesDerived(es, sites) && SitesDerived(es, lists)
    ensures byId == ids && byKey == keys && reversedBy == reversals && sites == lists
  {
    hide NamesDerived, SitesDerived;
    NamesUnique(scale, es, byId, ids, byKey, keys, reversedBy, reversals);
    SitesUnique(es, sites, lists);
  }

  lemma PopStart(es: seq<Entry>, sites: SiteMap)
    requires SitesDerived(es, sites)
    ensures SitesDuringUndo(es, sites, {}) && TouchedSince(es, |es|, {}) && es[..|es|] == es
  {
    forall k: BalanceKey
      ensures SiteDuringUndo(es, sites, {}, k)
    {
    }
  }

  lemma PopNames(scale: byte, full: seq<Entry>, n: nat, byId: IdIndex, byKey: KeyedIndex, reversedBy: ReversalMap)
    requires EntriesSound(full) && 0 < n <= |full| && NamesDerived(scale, full[..n], byId, byKey, reversedBy)
    ensures full[..n][..n - 1] == full[..n - 1]
    ensures var e := full[n - 1];
      NamesDerived(scale, full[..n - 1], byId - {e.id}, byKey - {e.key},
        if e.reverses.Some? then reversedBy - {e.reverses.value} else reversedBy)
  {
    hide NamesDerived;
    PrefixSound(full, n);
    NamesRemove(scale, full[..n], byId, byKey, reversedBy);
    assert full[..n][..n - 1] == full[..n - 1];
  }
}

/**
 Proving what an account closed a sealed period at.

 The claim is a seal, a path to one trial-balance row, and a path that names the row's
 account. In every reachable state the claim can be assembled for every row, it verifies,
 and no verifying claim under that seal says anything else.
 */
module SealedBalances {
  import opened Wrappers
  import opened Entries
  import opened Periods
  import opened Accounts
  import opened Seals
  import opened Ledgers
  import opened LedgerRuns
  import opened Commitments

  datatype SealedBalance = SealedBalance(seal: Seal, balance: BalanceProof, binding: AccountBindingProof)
  {
    /** The row verifies, the binding names the row's account, and both are under this seal. */
    predicate Verifies(scale: byte)
    {
      && seal.IsSelfConsistent()
      && balance.Verifies(scale, seal.trialBalance)
      && binding.id == balance.key.account
      && binding.Verifies(seal.accounts)
    }
  }

  datatype SealedBalanceOutcome = Proven(claim: SealedBalance) | NoRow | NotYetRegistered

  datatype SealedBalanceError =
    | NotSealed(period: PeriodId)
    | UndefinedPeriod(period: PeriodId)
    | Restated(period: PeriodId)
    | RegistryMismatch(period: PeriodId)

  /** Builds the claim, checking the rebuilt balances and the binding against the seal. */
  ghost function Assemble(scale: byte, s: Seal, closing: TrialBalance, accounts: Chart, key: BalanceKey)
    : Result<SealedBalanceOutcome, SealedBalanceError>
  {
    if TrialBalanceHead(scale, closing) != s.trialBalance then Err(Restated(s.period))
    else
      match ProveBindingAt(accounts, key.account, s.accounts.size)
      case None => Ok(NotYetRegistered)
      case Some(binding) =>
        if !binding.Verifies(s.accounts) then Err(RegistryMismatch(s.period))
        else
          match ProveRow(scale, closing, key)
          case None => Ok(NoRow)
          case Some(balance) => Ok(Proven(SealedBalance(s, balance, binding)))
  }

  /** Rebuilds the commitment, compares it with the seal's, and proves the binding and the row. */
  method AssembleClaim(scale: byte, s: Seal, closing: TrialBalance, accounts: Chart, key: BalanceKey)
    returns (r: Result<SealedBalanceOutcome, SealedBalanceError>)
    ensures r == Assemble(scale, s, closing, accounts, key)
  {
    hide TrialBalanceHead, ProveRow, ProveBindingAt;
    var commitment := new TrialBalanceCommitment.Of(scale, closing);
    var head := commitment.Head(scale, closing);
    if head != s.trialBalance {
      return Err(Restated(s.period));
    }
    var binding := ProveBindingAt(accounts, key.account, s.accounts.size);
    if binding.None? {
      return Ok(NotYetRegistered);
    }
    if !binding.value.Verifies(s.accounts) {
      return Err(RegistryMismatch(s.period));
    }
    var balance := commitment.Prove(key, scale, closing);
    return match balance
      case None => Ok(NoRow)
      case Some(row) => Ok(Proven(SealedBalance(s, row, binding.value)));
  }

  /** The seal of a period in a chain. */
  function SealIn(seals: seq<Seal>, period: PeriodId): Option<Seal>
  {
    if seals == [] then None
    else if seals[0].period == period then Some(seals[0])
    else SealIn(seals[1..], period)
  }

  lemma {:induction false} SealInFacts(seals: seq<Seal>, period: PeriodId)
    ensures match SealIn(seals, period)
      case Some(s) => s in seals && s.period == period
      case None => period !in PeriodsOf(seals)
  {
    if seals != [] && seals[0].period != period {
      SealInFacts(seals[1..], period);
      assert seals == [seals[0]] + seals[1..];
    }
  }

  ghost function ProveSealed(l: Ledger, period: PeriodId, key: BalanceKey): Result<SealedBalanceOutcome, SealedBalanceError>
  {
    match SealIn(l.seals, period)
    case None => Err(NotSealed(period))
    case Some(s) =>
      if s.period !in l.calendar.periods then Err(UndefinedPeriod(period))
      else Assemble(l.scale, s, ClosingBalances(l.entries, l.calendar.periods[s.period].end), l.accounts, key)
  }

  lemma {:induction false} LinkedConsistent(ledger: LedgerId, seals: seq<Seal>)
    requires Linked(ledger, seals)
    ensures forall s :: s in seals ==> s.IsSelfConsistent()
  {
    hide Seal.ComputeHash;
    if seals != [] {
      LinkedConsistent(ledger, seals[..|seals| - 1]);
      assert seals == seals[..|seals| - 1] + [seals[|seals| - 1]];
    }
  }

  /**
   What the outcome says. An account registered after the seal is told from one without a row;
   a row comes back as a claim under that very seal that verifies, with the row's balance and
   the account's path.
   */
  ghost predicate OutcomeHolds(l: Ledger, s: Seal, closing: TrialBalance, key: BalanceKey, outcome: SealedBalanceOutcome)
  {
    match outcome
    case NotYetRegistered => key.account >= s.accounts.size && key !in closing
    case NoRow => key.account < s.accounts.size && key !in closing
    case Proven(claim) =>
      && key in closing && claim.seal == s
      && claim.balance.key == key && claim.balance.balance == closing[key]
      && key.account < |l.accounts| && claim.binding.path == l.accounts[key.account].path
      && claim.Verifies(l.scale)
  }

  /** Which of the three answers holds is decided by the row and by how many accounts the seal knew. */
  lemma OutcomeTells(l: Ledger, s: Seal, closing: TrialBalance, key: BalanceKey, outcome: SealedBalanceOutcome)
    requires CommitsTo(l.scale, s, closing) && OutcomeHolds(l, s, closing, key, outcome)
    ensures outcome.Proven? <==> key in closing
    ensures outcome.NotYetRegistered? <==> key.account >= s.accounts.size
    ensures outcome.NoRow? <==> key.account < s.accounts.size && key !in closing
    ensures outcome.Proven? ==>
      outcome.claim.seal == s && outcome.claim.balance.key == key && outcome.claim.balance.balance == closing[key]
      && key.account < |l.accounts| && outcome.claim.binding.path == l.accounts[key.account].path
      && outcome.claim.Verifies(l.scale)
  {
    hide SealedBalance.Verifies, TrialBalanceHead;
  }

  /** Under a true seal the row's proof and the account's binding both come back. */
  lemma AssembleSucceeds(l: Ledger, s: Seal, key: BalanceKey)
    requires Inv(l) && s in l.seals && SealHolds(l, s)
    ensures var closing := ClosingBalances(l.entries, l.calendar.periods[s.period].end);
      var outcome := Assemble(l.scale, s, closing, l.accounts, key);
      outcome.Ok? && OutcomeHolds(l, s, closing, key, outcome.value)
  {
    hide Linked, EntriesSound, ClearingsSound, ClosingBalances, Seal.ComputeHash, TrialBalanceHead, SealsSound, AllFit;
    var closing := ClosingBalances(l.entries, l.calendar.periods[s.period].end);
    var n := s.accounts.size;
    PrefixExtends(l.accounts, n);
    BindingSurvives(l.accounts[..n], l.accounts, key.account);
    SealIsConsistent(l, s);
    if key in closing {
      ClosingFits(l.entries, l.calendar.periods[s.period].end);
      RowProves(l.scale, closing, key);
    }
  }

  lemma PrefixExtends(accounts: Chart, n: nat)
    requires n <= |accounts|
    ensures Extends(accounts[..n], accounts)
  {
  }

  lemma SealIsConsistent(l: Ledger, s: Seal)
    requires SealsSound(l) && s in l.seals
    ensures s.IsSelfConsistent()
  {
    LinkedConsistent(l.id, l.seals);
  }

  lemma RowProves(scale: byte, tb: TrialBalance, key: BalanceKey)
    requires AllFit(tb) && key in tb
    ensures var row := ProveRow(scale, tb, key);
      row.Some? && row.value.key == key && row.value.balance == tb[key]
      && row.value.Verifies(scale, TrialBalanceHead(scale, tb))
  {
    BalanceProofExact(scale, tb, ProveRow(scale, tb, key).value);
  }

  /**
   In every sound state a sealed period answers every question about it: the proof of a
   balance never fails, and every row of the closing balance comes back proven.
   */
  lemma SealedBalanceProvable(l: Ledger, period: PeriodId, key: BalanceKey)
    requires Inv(l)
    ensures match SealIn(l.seals, period)
      case None => period !in PeriodsOf(l.seals) && ProveSealed(l, period, key) == Err(NotSealed(period))
      case Some(s) =>
        && s in l.seals && s.period == period && period in l.calendar.periods
        && ProveSealed(l, period, key).Ok?
        && OutcomeHolds(l, s, ClosingBalances(l.entries, l.calendar.periods[period].end), key,
             ProveSealed(l, period, key).value)
  {
    hide Linked, EntriesSound, ClearingsSound, ClosingBalances, SealedBalance.Verifies;
    SealInFacts(l.seals, period);
    var found := SealIn(l.seals, period);
    if found.Some? {
      assert SealHolds(l, found.value);
      AssembleSucceeds(l, found.value, key);
    }
  }

  /** Nothing else verifies under a true seal: the balance and the account's name are forced. */
  lemma SealedClaimSound(l: Ledger, claim: SealedBalance)
    requires Inv(l) && claim.seal in l.seals && claim.Verifies(l.scale) && claim.balance.balance.Fits()
    ensures claim.seal.period in l.calendar.periods
    ensures var closing := ClosingBalances(l.entries, l.calendar.periods[claim.seal.period].end);
      var key := claim.balance.key;
      && key in closing && claim.balance.balance == closing[key]
      && key.account < |l.accounts| && claim.binding.path == l.accounts[key.account].path
  {
    hide Linked, EntriesSound, ClearingsSound, ClosingBalances, TrialBalanceHead, AllFit, RowLeaves;
    var s := claim.seal;
    assert SealHolds(l, s);
    var end := l.calendar.periods[s.period].end;
    ClosingFits(l.entries, end);
    BalanceProofExact(l.scale, ClosingBalances(l.entries, end), claim.balance);
    BindingExact(claim.binding, l.accounts[..s.accounts.size]);
  }

  /**
   Knowing only the hash of a true seal is enough: a verifying claim whose seal carries that hash
   carries that very seal, and says the row and the path the books say. So does every part of the
   claim: the row proof and the binding are the ones built.
   */
  lemma SealedClaimByHash(l: Ledger, claim: SealedBalance, s: Seal)
    requires Inv(l) && s in l.seals && claim.seal.sealHash == s.sealHash
    requires claim.Verifies(l.scale) && claim.balance.balance.Fits()
    ensures claim.seal == s && s.period in l.calendar.periods && s.accounts.size <= |l.accounts|
    ensures var closing := ClosingBalances(l.entries, l.calendar.periods[s.period].end);
      && ProveRow(l.scale, closing, claim.balance.key) == Some(claim.balance)
      && ProveBindingAt(l.accounts, claim.balance.key.account, s.accounts.size) == Some(claim.binding)
  {
    hide Linked, EntriesSound, ClearingsSound, ClosingBalances, TrialBalanceHead, AllFit, RowLeaves, ProveRow, Seal.ComputeHash;
    SealIsConsistent(l, s);
    SealHashInjective(claim.seal, s);
    assert SealHolds(l, s);
    var end := l.calendar.periods[s.period].end;
    ClosingFits(l.entries, end);
    BalanceProofExact(l.scale, ClosingBalances(l.entries, end), claim.balance);
    BindingExact(claim.binding, l.accounts[..s.accounts.size]);
    PrefixExtends(l.accounts, s.accounts.size);
    BindingFixed(l.accounts[..s.accounts.size], l.accounts, claim.binding.id, s.accounts.size);
  }

  /** What a binding proof at a size says is fixed by the accounts of that size. */
  lemma BindingFixed(earlier: Chart, later: Chart, id: u32, size: nat)
    requires Extends(earlier, later) && size <= |earlier| && size <= U64_MAX
    ensures ProveBindingAt(later, id, size) == ProveBindingAt(earlier, id, size)
  {
    assert BindingLeaves(later[..size]) == BindingLeaves(earlier[..size]);
  }

  lemma {:induction false} SealInGrows(seals: seq<Seal>, later: seq<Seal>, period: PeriodId)
    requires seals <= later && SealIn(seals, period).Some?
    ensures SealIn(later, period) == SealIn(seals, period)
  {
    if seals[0].period != period {
      SealInGrows(seals[1..], later[1..], period);
    }
  }

  /** The seal found for a period is in the chain and holds. */
  lemma FoundHolds(l: Ledger, period: PeriodId)
    requires Inv(l) && SealIn(l.seals, period).Some?
    ensures var s := SealIn(l.seals, period).value;
      && s in l.seals && s.period == period && s.accounts.size <= |l.accounts|
  {
    SealInFacts(l.seals, period);
    assert SealHolds(l, SealIn(l.seals, period).value);
  }

  /**
   Whatever is answered about a sealed period, a proven row, no row, or an account registered
   later, is answered in the same words, proofs included, in every later state.
   */
  lemma ProvenForever(run: seq<Ledger>, period: PeriodId, key: BalanceKey)
    requires IsRun(run) && Inv(run[0]) && period in PeriodsOf(run[0].seals)
    ensures ProveSealed(run[|run| - 1], period, key) == ProveSealed(run[0], period, key)
    ensures ProveSealed(run[0], period, key).Ok?
  {
    hide Inv, Step, ClosingBalances, SealHolds, Linked, SealedBalance.Verifies, TrialBalanceHead, ProveBindingAt, ProveRow;
    var first, last := run[0], run[|run| - 1];
    RunKeeps(run);
    SealInFacts(first.seals, period);
    SealedBalanceProvable(first, period, key);
    FoundHolds(first, period);
    var s := SealIn(first.seals, period).value;
    SealInGrows(first.seals, last.seals, period);
    SealedNeverRestated(run, s);
    BindingFixed(first.accounts, last.accounts, key.account, s.accounts.size);
  }
}

/**
 Trial-balance commitments, seals, and the chain that links them.

 Rows of a trial balance are committed to in key order, so the commitment is a function
 of the balances alone; with the encoding uniquely decodable it is also injective. A
 seal covers every one of its fields, its predecessor included, so the hash of the last
 seal pins the whole chain.
 */
module Seals {
  import opened Wrappers
  import opened Hashing
  import opened Canonical
  import opened Entries
  import opened MerkleTree
  import opened MerkleProofs
  import opened Periods

  type LedgerId = Text

  type TrialBalance = map<BalanceKey, Balance>

  // ------------------------------------------------------------------ key order

  /** The position of a currency in code order. */
  function CurrencyRank(c: Currency): (r: nat)
    ensures r < 0x100_0000
  {
    (c[0] as int * 256 + c[1]) * 256 + c[2]
  }

  /** The position of a key in key order: account, then currency, then layer. */
  function Rank(k: BalanceKey): nat
  {
    (k.account as int * 0x100_0000 + CurrencyRank(k.currency)) * 2 + LayerCode(k.layer)
  }

  /** Currencies rank in the byte order of their codes. */
  lemma CurrencyRankOrders(a: Currency, b: Currency)
    ensures CurrencyRank(a) < CurrencyRank(b) <==>
      a[0] < b[0] || (a[0] == b[0] && (a[1] < b[1] || (a[1] == b[1] && a[2] < b[2])))
  {
  }

  /** Keys rank by account, then currency code, then layer, settled before pending. */
  lemma RankOrders(j: BalanceKey, k: BalanceKey)
    ensures Rank(j) < Rank(k) <==>
      j.account < k.account
      || (j.account == k.account && CurrencyRank(j.currency) < CurrencyRank(k.currency))
      || (j.account == k.account && j.currency == k.currency && j.layer == Settled && k.layer == Pending)
  {
    hide CurrencyRank;
    CurrencyRankInjective(j.currency, k.currency);
  }

  const RANKS: nat := (U32_MAX + 1) * 0x100_0000 * 2

  lemma RankInjective(a: BalanceKey, b: BalanceKey)
    requires Rank(a) == Rank(b)
    ensures a == b
  {
    hide CurrencyRank;
    CurrencyRankInjective(a.currency, b.currency);
  }

  lemma CurrencyRankInjective(a: Currency, b: Currency)
    ensures CurrencyRank(a) == CurrencyRank(b) ==> a == b
  {
    assert a == [a[0], a[1], a[2]] && b == [b[0], b[1], b[2]];
  }

  predicate IsLeast(k: BalanceKey, keys: set<BalanceKey>)
  {
    k in keys && forall j :: j in keys ==> Rank(k) <= Rank(j)
  }

  lemma {:induction false} LeastExists(keys: set<BalanceKey>)
    requires keys != {}
    ensures exists k :: IsLeast(k, keys)
  {
    var k :| k in keys;
    if keys == {k} {
      assert IsLeast(k, keys);
    } else {
      LeastExists(keys - {k});
      var j :| IsLeast(j, keys - {k});
      assert IsLeast(if Rank(k) <= Rank(j) then k else j, keys);
    }
  }

  ghost function Least(keys: set<BalanceKey>): BalanceKey
    requires keys != {}
  {
    LeastExists(keys);
    var k :| IsLeast(k, keys);
    k
  }

  /** The keys in ascending order, as an ordered map iterates them. */
  ghost function SortedKeys(keys: set<BalanceKey>): seq<BalanceKey>
  {
    if keys == {} then [] else
      var k := Least(keys);
      [k] + SortedKeys(keys - {k})
  }

  ghost predicate Ascending(s: seq<BalanceKey>)
  {
    forall i, j :: 0 <= i < j < |s| ==> Rank(s[i]) < Rank(s[j])
  }

  lemma {:induction false} SortedKeysList(keys: set<BalanceKey>)
    ensures |SortedKeys(keys)| == |keys|
    ensures forall k :: k in keys <==> k in SortedKeys(keys)
    ensures Ascending(SortedKeys(keys))
  {
    hide Rank, Ascending, Least;
    if keys == {} {
      NothingAscending();
    } else {
      LeastIn(keys);
      var k := Least(keys);
      var less := keys - {k};
      var rest := SortedKeys(less);
      SortedKeysList(less);
      forall j | 0 <= j < |rest|
        ensures Rank(k) < Rank(rest[j])
      {
        assert rest[j] in rest;
        LeastBefore(keys, rest[j]);
      }
      AscendingCons(k, rest);
    }
  }

  lemma LeastIn(keys: set<BalanceKey>)
    requires keys != {}
    ensures Least(keys) in keys
  {
  }

  lemma LeastBefore(keys: set<BalanceKey>, j: BalanceKey)
    requires j in keys && j != Least(keys)
    ensures Rank(Least(keys)) < Rank(j)
  {
    if Rank(Least(keys)) == Rank(j) {
      RankInjective(Least(keys), j);
    }
  }

  lemma NothingAscending()
    ensures Ascending([])
  {
  }

  lemma AscendingCons(k: BalanceKey, rest: seq<BalanceKey>)
    requires Ascending(rest) && forall j :: 0 <= j < |rest| ==> Rank(k) < Rank(rest[j])
    ensures Ascending([k] + rest)
  {
    hide Rank;
  }

  lemma AscendingDistinct(keys: seq<BalanceKey>)
    requires Ascending(keys)
    ensures forall i, j :: 0 <= i < j < |keys| ==> keys[i] != keys[j]
  {
    hide Rank;
    forall i, j | 0 <= i < j < |keys|
      ensures keys[i] != keys[j]
    {
      assert Rank(keys[i]) < Rank(keys[j]);
    }
  }

  lemma {:induction false} AscendingRank(s: seq<BalanceKey>, i: nat)
    requires Ascending(s) && i < |s|
    ensures i <= Rank(s[i]) < RANKS
  {
    if i > 0 {
      AscendingRank(s, i - 1);
    }
  }

  /** There are far fewer keys than a machine word counts. */
  lemma KeysFit(keys: set<BalanceKey>)
    ensures |keys| <= U64_MAX
  {
    SortedKeysList(keys);
    if keys != {} {
      AscendingRank(SortedKeys(keys), |keys| - 1);
    }
  }

  /** Repeatedly taking the least key lists them in order. */
  method SortKeys(keys: set<BalanceKey>) returns (sorted: seq<BalanceKey>)
    ensures sorted == SortedKeys(keys)
  {
    sorted := [];
    var rest := keys;
    while rest != {}
      invariant sorted + SortedKeys(rest) == SortedKeys(keys)
      decreases rest
    {
      var k := LeastKey(rest);
      assert sorted + SortedKeys(rest) == sorted + [k] + SortedKeys(rest - {k});
      sorted := sorted + [k];
      rest := rest - {k};
    }
  }

  method LeastKey(keys: set<BalanceKey>) returns (k: BalanceKey)
    requires keys != {}
    ensures k == Least(keys)
  {
    LeastExists(keys);
    k :| IsLeast(k, keys);
    RankInjective(k, Least(keys));
  }

  ghost function CurrencyKeys(currencies: set<Currency>): set<BalanceKey>
  {
    set c | c in currencies :: BalanceKey(0, c, Settled)
  }

  /** Currencies in code order, which is the order of keys that differ in nothing else. */
  ghost function SortedCurrencies(currencies: set<Currency>): seq<Currency>
  {
    var keys := SortedKeys(CurrencyKeys(currencies));
    seq(|keys|, i requires 0 <= i < |keys| => keys[i].currency)
  }

  lemma SortedCurrenciesList(currencies: set<Currency>)
    ensures forall c :: c in currencies <==> c in SortedCurrencies(currencies)
    ensures forall i, j :: 0 <= i < j < |SortedCurrencies(currencies)| ==>
      CurrencyRank(SortedCurrencies(currencies)[i]) < CurrencyRank(SortedCurrencies(currencies)[j])
  {
    hide SortedKeys;
    var keys, sorted := SortedKeys(CurrencyKeys(currencies)), SortedCurrencies(currencies);
    SortedKeysList(CurrencyKeys(currencies));
    forall i | 0 <= i < |keys|
      ensures keys[i] == BalanceKey(0, sorted[i], Settled) && sorted[i] in currencies
    {
      assert keys[i] in CurrencyKeys(currencies);
    }
    forall c | c in currencies
      ensures c in sorted
    {
      assert BalanceKey(0, c, Settled) in keys;
      var i :| 0 <= i < |keys| && keys[i] == BalanceKey(0, c, Settled);
      assert sorted[i] == c;
    }
    forall i, j | 0 <= i < j < |sorted|
      ensures CurrencyRank(sorted[i]) < CurrencyRank(sorted[j])
    {
      assert Rank(keys[i]) < Rank(keys[j]);
    }
  }

  method SortCurrencies(currencies: set<Currency>) returns (sorted: seq<Currency>)
    ensures sorted == SortedCurrencies(currencies)
  {
    hide SortedKeys, Rank;
    var keys := SortKeys(set c | c in currencies :: BalanceKey(0, c, Settled));
    sorted := seq(|keys|, i requires 0 <= i < |keys| => keys[i].currency);
  }

  // ----------------------------------------------------- trial-balance commitment

  function PutBalance(scale: byte, k: BalanceKey, b: Balance, rest: seq<Atom>): seq<Atom>
  {
    PutU32(k.account, PutFixed(k.currency, PutU8(LayerCode(k.layer), PutU8(scale,
      PutI64(b.debits, PutI64(b.credits, rest))))))
  }

  /** One row: the key, the scale, and both gross totals. */
  function BalanceLeaf(scale: byte, k: BalanceKey, b: Balance): Hash
  {
    Tagged(TrialBalanceTag, PutBalance(scale, k, b, []))
  }

  lemma BalanceLeafInjective(p: byte, q: byte, j: BalanceKey, k: BalanceKey, a: Balance, b: Balance)
    requires BalanceLeaf(p, j, a) == BalanceLeaf(q, k, b) && a.Fits() && b.Fits()
    ensures p == q && j == k && a == b
  {
    var a4, b4 := PutI64(a.credits, []), PutI64(b.credits, []);
    var a3, b3 := PutI64(a.debits, a4), PutI64(b.debits, b4);
    var a2, b2 := PutU8(p, a3), PutU8(q, b3);
    var a1, b1 := PutU8(LayerCode(j.layer), a2), PutU8(LayerCode(k.layer), b2);
    U32Unique(j.account, k.account, PutFixed(j.currency, a1), PutFixed(k.currency, b1));
    FixedUnique(j.currency, k.currency, a1, b1);
    U8Unique(LayerCode(j.layer), LayerCode(k.layer), a2, b2);
    U8Unique(p, q, a3, b3);
    I64Unique(a.debits, b.debits, a4, b4);
    I64Unique(a.credits, b.credits, [], []);
  }

  ghost function RowLeaves(scale: byte, tb: TrialBalance): seq<Hash>
    ensures |RowLeaves(scale, tb)| == |tb| <= U64_MAX
  {
    SortedKeysList(tb.Keys);
    KeysFit(tb.Keys);
    var keys := SortedKeys(tb.Keys);
    seq(|keys|, i requires 0 <= i < |keys| && keys[i] in tb => BalanceLeaf(scale, keys[i], tb[keys[i]]))
  }

  /** The head a seal records for a trial balance. */
  ghost function TrialBalanceHead(scale: byte, tb: TrialBalance): TreeHead
  {
    HeadOf(RowLeaves(scale, tb))
  }

  ghost predicate AllFit(tb: TrialBalance)
  {
    forall k :: k in tb ==> tb[k].Fits()
  }

  lemma RowLeafAt(scale: byte, tb: TrialBalance, i: nat)
    requires i < |tb|
    ensures i < |SortedKeys(tb.Keys)| && SortedKeys(tb.Keys)[i] in tb
    ensures RowLeaves(scale, tb)[i] == BalanceLeaf(scale, SortedKeys(tb.Keys)[i], tb[SortedKeys(tb.Keys)[i]])
  {
    SortedKeysList(tb.Keys);
    assert SortedKeys(tb.Keys)[i] in SortedKeys(tb.Keys);
  }

  lemma RowsAgree(scale: byte, a: TrialBalance, b: TrialBalance, i: nat)
    requires AllFit(a) && AllFit(b) && i < |a| == |b| && RowLeaves(scale, a)[i] == RowLeaves(scale, b)[i]
    ensures i < |SortedKeys(a.Keys)| && i < |SortedKeys(b.Keys)|
    ensures var k := SortedKeys(a.Keys)[i]; k == SortedKeys(b.Keys)[i] && k in a && k in b && a[k] == b[k]
  {
    RowLeafAt(scale, a, i);
    RowLeafAt(scale, b, i);
    var j, k := SortedKeys(a.Keys)[i], SortedKeys(b.Keys)[i];
    BalanceLeafInjective(scale, scale, j, k, a[j], b[k]);
  }

  /** Equal heads mean equal trial balances: same keys, same gross totals. */
  lemma TrialBalanceHeadInjective(scale: byte, a: TrialBalance, b: TrialBalance)
    requires TrialBalanceHead(scale, a) == TrialBalanceHead(scale, b) && AllFit(a) && AllFit(b)
    ensures a == b
  {
    hide RowLeaves, AllFit;
    TreeHashInjective(RowLeaves(scale, a), RowLeaves(scale, b));
    forall k
      ensures k in a ==> k in b && a[k] == b[k]
      ensures k in b ==> k in a
    {
      RowsDecide(scale, a, b, k);
      RowsDecide(scale, b, a, k);
    }
    assert a.Keys == b.Keys;
  }

  lemma RowsDecide(scale: byte, a: TrialBalance, b: TrialBalance, k: BalanceKey)
    requires AllFit(a) && AllFit(b) && RowLeaves(scale, a) == RowLeaves(scale, b)
    ensures k in a ==> k in b && a[k] == b[k]
  {
    hide RowLeaves, SortedKeys, AllFit, Ascending;
    if k in a {
      SortedKeysList(a.Keys);
      var i :| 0 <= i < |a| && SortedKeys(a.Keys)[i] == k;
      RowsAgree(scale, a, b, i);
    }
  }

  datatype BalanceProof = BalanceProof(key: BalanceKey, balance: Balance, proof: InclusionProof)
  {
    predicate Verifies(scale: byte, head: TreeHead)
    {
      proof.Verifies(BalanceLeaf(scale, key, balance), head)
    }
  }

  /** The proof of one row, if the trial balance has that row. */
  ghost function ProveRow(scale: byte, tb: TrialBalance, key: BalanceKey): Option<BalanceProof>
  {
    if key !in tb then None
    else
      SortedKeysList(tb.Keys);
      var i :| 0 <= i < |tb| && SortedKeys(tb.Keys)[i] == key;
      Some(BalanceProof(key, tb[key], InclusionProofOf(i, RowLeaves(scale, tb))))
  }

  /** A row's proof verifies, and nothing verifies but the true balance of a present row. */
  lemma BalanceProofExact(scale: byte, tb: TrialBalance, p: BalanceProof)
    requires AllFit(tb) && p.balance.Fits()
    ensures p.Verifies(scale, TrialBalanceHead(scale, tb)) <==> ProveRow(scale, tb, p.key) == Some(p)
  {
    hide RowLeaves, SortedKeys, BalanceLeaf;
    var leaves := RowLeaves(scale, tb);
    var keys := SortedKeys(tb.Keys);
    SortedKeysList(tb.Keys);
    InclusionExact(p.proof, BalanceLeaf(scale, p.key, p.balance), leaves);
    if p.proof.leafIndex < |tb| {
      var i := p.proof.leafIndex;
      RowLeafAt(scale, tb, i);
      if leaves[i] == BalanceLeaf(scale, p.key, p.balance) {
        BalanceLeafInjective(scale, scale, keys[i], p.key, tb[keys[i]], p.balance);
      }
    }
    if p.key in tb {
      var i :| 0 <= i < |tb| && keys[i] == p.key
        && ProveRow(scale, tb, p.key) == Some(BalanceProof(p.key, tb[p.key], InclusionProofOf(i, leaves)));
      RowLeafAt(scale, tb, i);
    }
  }

  // ----------------------------------------------------------------------- seals

  datatype PeriodCoverage = PeriodCoverage(firstIndex: Option<u64>, lastIndex: Option<u64>, entryCount: u64)

  datatype Seal = Seal(
    ledger: LedgerId,
    period: PeriodId,
    coverage: PeriodCoverage,
    treeHead: TreeHead,
    trialBalance: TreeHead,
    accounts: TreeHead,
    prevSeal: Option<Hash>,
    sealHash: Hash)
  {
    /** The hash over every field except the hash itself. */
    function ComputeHash(): Hash
    {
      Tagged(SealTag, PutSeal(this, []))
    }

    predicate IsSelfConsistent()
    {
      ComputeHash() == sealHash
    }
  }

  function BuildSeal(ledger: LedgerId, period: PeriodId, coverage: PeriodCoverage, treeHead: TreeHead,
    trialBalance: TreeHead, accounts: TreeHead, prevSeal: Option<Hash>): (s: Seal)
    ensures s.IsSelfConsistent() && s.ledger == ledger && s.period == period && s.coverage == coverage
    ensures s.treeHead == treeHead && s.trialBalance == trialBalance && s.accounts == accounts && s.prevSeal == prevSeal
  {
    var draft := Seal(ledger, period, coverage, treeHead, trialBalance, accounts, prevSeal, EmptyTree);
    assert PutSeal(draft, []) == PutSeal(draft.(sealHash := draft.ComputeHash()), []);
    draft.(sealHash := draft.ComputeHash())
  }

  function PutHead(h: TreeHead, rest: seq<Atom>): seq<Atom>
  {
    PutU64(h.size, PutDigest(h.root, rest))
  }

  function PutCoverage(c: PeriodCoverage, rest: seq<Atom>): seq<Atom>
  {
    PutOption(c.firstIndex, PutU64, PutOption(c.lastIndex, PutU64, PutU64(c.entryCount, rest)))
  }

  function PutSeal(s: Seal, rest: seq<Atom>): seq<Atom>
  {
    PutBytes(s.ledger, PutBytes(s.period, PutCoverage(s.coverage, PutHead(s.treeHead,
      PutHead(s.trialBalance, PutHead(s.accounts, PutOption(s.prevSeal, PutDigest, rest)))))))
  }

  lemma HeadUnique(a: TreeHead, b: TreeHead, x: seq<Atom>, y: seq<Atom>)
    requires PutHead(a, x) == PutHead(b, y)
    ensures a == b && x == y
  {
    U64Unique(a.size, b.size, PutDigest(a.root, x), PutDigest(b.root, y));
    ConsUnique(Digest(a.root), Digest(b.root), x, y);
  }

  lemma CoverageUnique(a: PeriodCoverage, b: PeriodCoverage, x: seq<Atom>, y: seq<Atom>)
    requires PutCoverage(a, x) == PutCoverage(b, y)
    ensures a == b && x == y
  {
    U64Decodable();
    var a2, b2 := PutU64(a.entryCount, x), PutU64(b.entryCount, y);
    OptionUnique(a.firstIndex, b.firstIndex, PutU64, PutOption(a.lastIndex, PutU64, a2), PutOption(b.lastIndex, PutU64, b2));
    OptionUnique(a.lastIndex, b.lastIndex, PutU64, a2, b2);
    U64Unique(a.entryCount, b.entryCount, x, y);
  }

  /** A seal's hash determines every field of it. */
  lemma SealHashInjective(a: Seal, b: Seal)
    requires a.IsSelfConsistent() && b.IsSelfConsistent() && a.sealHash == b.sealHash
    ensures a == b
  {
    var a5, b5 := PutOption(a.prevSeal, PutDigest, []), PutOption(b.prevSeal, PutDigest, []);
    var a4, b4 := PutHead(a.accounts, a5), PutHead(b.accounts, b5);
    var a3, b3 := PutHead(a.trialBalance, a4), PutHead(b.trialBalance, b4);
    var a2, b2 := PutHead(a.treeHead, a3), PutHead(b.treeHead, b3);
    var a1, b1 := PutCoverage(a.coverage, a2), PutCoverage(b.coverage, b2);
    BytesUnique(a.ledger, b.ledger, PutBytes(a.period, a1), PutBytes(b.period, b1));
    BytesUnique(a.period, b.period, a1, b1);
    CoverageUnique(a.coverage, b.coverage, a2, b2);
    HeadUnique(a.treeHead, b.treeHead, a3, b3);
    HeadUnique(a.trialBalance, b.trialBalance, a4, b4);
    HeadUnique(a.accounts, b.accounts, a5, b5);
    DigestDecodable();
    OptionUnique(a.prevSeal, b.prevSeal, PutDigest, [], []);
  }

  datatype SealChainError =
    | Tampered(period: PeriodId)
    | BrokenChain(period: PeriodId)
    | ForeignLedger(period: PeriodId, expected: LedgerId, found: LedgerId)
    | DuplicatePeriod(period: PeriodId)
    | MisplacedGenesis(period: PeriodId)
    | NonMonotonic(period: PeriodId)
    | ShrunkenRegistry(period: PeriodId, bindings: u64, foundBindings: u64)

  /** Every rule a seal must satisfy to follow `previous`. */
  function CheckLink(ledger: LedgerId, seen: set<PeriodId>, previous: Option<Seal>, s: Seal): Result<(), SealChainError>
  {
    if !s.IsSelfConsistent() then Err(Tampered(s.period))
    else if s.ledger != ledger then Err(ForeignLedger(s.period, ledger, s.ledger))
    else if s.period in seen then Err(DuplicatePeriod(s.period))
    else if previous.None? && s.prevSeal.None? then Ok(())
    else if previous.Some? && s.prevSeal.Some? then
      var prev := previous.value;
      if prev.sealHash != s.prevSeal.value then Err(BrokenChain(s.period))
      else if s.treeHead.size < prev.treeHead.size then Err(NonMonotonic(s.period))
      else if s.accounts.size < prev.accounts.size then
        Err(ShrunkenRegistry(s.period, prev.accounts.size, s.accounts.size))
      else Ok(())
    else Err(MisplacedGenesis(s.period))
  }

  /** A link is accepted exactly when every rule holds, and otherwise names the first that is broken. */
  lemma LinkIs(ledger: LedgerId, seen: set<PeriodId>, previous: Option<Seal>, s: Seal)
    ensures var r, genuine, own := CheckLink(ledger, seen, previous, s), s.sealHash == s.ComputeHash(), s.ledger == ledger;
      var follows := s.prevSeal == match previous case None => None case Some(p) => Some(p.sealHash);
      && (r.Ok? <==> genuine && own && s.period !in seen && follows && (previous.Some? ==>
           previous.value.treeHead.size <= s.treeHead.size && previous.value.accounts.size <= s.accounts.size))
      && (r == Err(Tampered(s.period)) <==> !genuine)
      && (r == Err(ForeignLedger(s.period, ledger, s.ledger)) <==> genuine && !own)
      && (r == Err(DuplicatePeriod(s.period)) <==> genuine && own && s.period in seen)
      && (r == Err(MisplacedGenesis(s.period)) <==>
            genuine && own && s.period !in seen && (previous.Some? <==> s.prevSeal.None?))
      && (r == Err(BrokenChain(s.period)) <==>
            genuine && own && s.period !in seen && (previous.Some? <==> s.prevSeal.Some?) && !follows)
      && (r == Err(NonMonotonic(s.period)) <==>
            genuine && own && s.period !in seen && follows && previous.Some?
            && s.treeHead.size < previous.value.treeHead.size)
      && (r.Err? && r.error.ShrunkenRegistry? ==>
            previous.Some? && s.accounts.size < previous.value.accounts.size
            && r.error == ShrunkenRegistry(s.period, previous.value.accounts.size, s.accounts.size))
  {
  }

  function PeriodsOf(seals: seq<Seal>): set<PeriodId>
  {
    set s | s in seals :: s.period
  }

  function LastOf(seals: seq<Seal>): Option<Seal>
  {
    if seals == [] then None else Some(seals[|seals| - 1])
  }

  /** Every seal links to the ones before it. */
  predicate Linked(ledger: LedgerId, seals: seq<Seal>)
  {
    seals == [] || (
      var front := seals[..|seals| - 1];
      Linked(ledger, front) && CheckLink(ledger, PeriodsOf(front), LastOf(front), seals[|seals| - 1]).Ok?)
  }

  lemma {:induction false} LinkedPrefix(ledger: LedgerId, seals: seq<Seal>, n: nat)
    requires Linked(ledger, seals) && n <= |seals|
    ensures Linked(ledger, seals[..n])
  {
    if n < |seals| {
      LinkedPrefix(ledger, seals[..|seals| - 1], n);
      assert seals[..|seals| - 1][..n] == seals[..n];
    } else {
      assert seals[..n] == seals;
    }
  }

  /** Two linked chains for one ledger that end in the same hash are the same chain. */
  lemma {:induction false} ChainBinding(ledger: LedgerId, a: seq<Seal>, b: seq<Seal>)
    requires Linked(ledger, a) && Linked(ledger, b) && a != [] && b != []
    requires a[|a| - 1].sealHash == b[|b| - 1].sealHash
    ensures a == b
  {
    hide Seal.ComputeHash, PeriodsOf;
    var lastA, lastB := a[|a| - 1], b[|b| - 1];
    SealHashInjective(lastA, lastB);
    var frontA, frontB := a[..|a| - 1], b[..|b| - 1];
    if frontA != [] && frontB != [] {
      ChainBinding(ledger, frontA, frontB);
    }
    assert a == frontA + [lastA] && b == frontB + [lastB];
  }

  /** The hash of the newest seal, if there is one. */
  function HeadHash(seals: seq<Seal>): (h: Option<Hash>)
    ensures h.None? <==> seals == []
    ensures seals != [] ==> h == Some(seals[|seals| - 1].sealHash)
  {
    if seals == [] then None else Some(seals[|seals| - 1].sealHash)
  }

  lemma LinkedStart(ledger: LedgerId, seals: seq<Seal>)
    ensures Linked(ledger, seals[..0]) && LastOf(seals[..0]) == None && PeriodsOf(seals[..0]) == {}
  {
  }

  lemma LastIs(seals: seq<Seal>, i: nat)
    requires i < |seals|
    ensures LastOf(seals[..i + 1]) == Some(seals[i])
  {
  }

  /** One more seal keeps a prefix linked exactly when its own link holds. */
  lemma LinkedStep(ledger: LedgerId, seals: seq<Seal>, i: nat)
    requires i < |seals|
    ensures Linked(ledger, seals[..i + 1])
      <==> (Linked(ledger, seals[..i])
            && CheckLink(ledger, PeriodsOf(seals[..i]), LastOf(seals[..i]), seals[i]).Ok?)
    ensures Linked(ledger, seals) ==> Linked(ledger, seals[..i + 1])
  {
    hide CheckLink;
    assert seals[..i + 1][..i] == seals[..i];
    if Linked(ledger, seals) {
      LinkedPrefix(ledger, seals, i + 1);
    }
  }

  /** What is asked of one seal of a chain. */
  ghost predicate LinksAt(ledger: LedgerId, seals: seq<Seal>, i: nat)
    requires i < |seals|
  {
    CheckLink(ledger, PeriodsOf(seals[..i]), LastOf(seals[..i]), seals[i]).Ok?
  }

  /** The same in plain terms: genuine, of this ledger, naming its predecessor, shrinking nothing, of a new period. */
  ghost predicate FollowsAt(ledger: LedgerId, seals: seq<Seal>, i: nat)
    requires i < |seals|
  {
    && seals[i].sealHash == seals[i].ComputeHash() && seals[i].ledger == ledger
    && (i == 0 ==> seals[i].prevSeal.None?)
    && (i > 0 ==> seals[i].prevSeal == Some(seals[i - 1].sealHash))
    && (i > 0 ==> seals[i - 1].treeHead.size <= seals[i].treeHead.size)
    && (i > 0 ==> seals[i - 1].accounts.size <= seals[i].accounts.size)
    && forall j :: 0 <= j < i ==> seals[j].period != seals[i].period
  }

  lemma LinksAtIs(ledger: LedgerId, seals: seq<Seal>, i: nat)
    requires i < |seals|
    ensures LinksAt(ledger, seals, i) <==> FollowsAt(ledger, seals, i)
  {
    hide CheckLink, Seal.ComputeHash;
    var front := seals[..i];
    LinkIs(ledger, PeriodsOf(front), LastOf(front), seals[i]);
    assert forall j :: 0 <= j < i ==> front[j] == seals[j];
    assert seals[i].period in PeriodsOf(front) <==> exists j :: 0 <= j < i && front[j].period == seals[i].period;
  }

  lemma {:induction false} LinkedEverywhere(ledger: LedgerId, seals: seq<Seal>, n: nat)
    requires n <= |seals|
    ensures Linked(ledger, seals[..n]) <==> forall i :: 0 <= i < n ==> LinksAt(ledger, seals, i)
  {
    hide CheckLink;
    if n > 0 {
      var k := n - 1;
      LinkedEverywhere(ledger, seals, k);
      LinkedStep(ledger, seals, k);
      assert Linked(ledger, seals[..n]) <==> Linked(ledger, seals[..k]) && LinksAt(ledger, seals, k);
    } else {
      LinkedStart(ledger, seals);
    }
  }

  lemma LinkedFollows(ledger: LedgerId, seals: seq<Seal>)
    ensures Linked(ledger, seals) <==> forall i :: 0 <= i < |seals| ==> FollowsAt(ledger, seals, i)
  {
    hide CheckLink, Seal.ComputeHash, Linked, LinksAt, FollowsAt;
    LinkedEverywhere(ledger, seals, |seals|);
    assert seals[..|seals|] == seals;
    forall i | 0 <= i < |seals|
      ensures LinksAt(ledger, seals, i) <==> FollowsAt(ledger, seals, i)
    {
      LinksAtIs(ledger, seals, i);
    }
  }

  /**
   What a linked chain is: every seal is genuine, of this ledger, and names the hash of the one
   before it, the first none; neither log nor registry shrinks; no period is sealed twice.
   */
  lemma LinkedExactly(ledger: LedgerId, seals: seq<Seal>)
    ensures Linked(ledger, seals) <==>
      (forall s :: s in seals ==> s.sealHash == s.ComputeHash() && s.ledger == ledger)
      && (seals != [] ==> seals[0].prevSeal.None?)
      && (forall i :: 0 <= i < |seals| - 1 ==> Succeeds(seals[i], seals[i + 1]))
      && (forall i, j :: 0 <= i < j < |seals| ==> seals[i].period != seals[j].period)
  {
    hide CheckLink, Seal.ComputeHash, Linked;
    LinkedFollows(ledger, seals);
    if Linked(ledger, seals) {
      forall i | 0 <= i < |seals|
        ensures seals[i].sealHash == seals[i].ComputeHash() && seals[i].ledger == ledger
      {
        assert FollowsAt(ledger, seals, i);
      }
      forall i | 0 <= i < |seals| - 1
        ensures Succeeds(seals[i], seals[i + 1])
      {
        assert FollowsAt(ledger, seals, i + 1);
      }
      forall i, j | 0 <= i < j < |seals|
        ensures seals[i].period != seals[j].period
      {
        assert FollowsAt(ledger, seals, j);
      }
      assert seals != [] ==> FollowsAt(ledger, seals, 0);
    }
    if (forall s :: s in seals ==> s.sealHash == s.ComputeHash() && s.ledger == ledger)
      && (seals != [] ==> seals[0].prevSeal.None?)
      && (forall i :: 0 <= i < |seals| - 1 ==> Succeeds(seals[i], seals[i + 1]))
      && (forall i, j :: 0 <= i < j < |seals| ==> seals[i].period != seals[j].period) {
      forall i | 0 <= i < |seals|
        ensures FollowsAt(ledger, seals, i)
      {
        assert i > 0 ==> Succeeds(seals[i - 1], seals[i - 1 + 1]);
      }
    }
  }

  /** A seal names the hash of the one before it, and covers no less of the log and of the registry. */
  predicate Succeeds(before: Seal, after: Seal)
  {
    after.prevSeal == Some(before.sealHash)
    && before.treeHead.size <= after.treeHead.size && before.accounts.size <= after.accounts.size
  }

  lemma LinkedIsOwn(ledger: LedgerId, seals: seq<Seal>)
    requires Linked(ledger, seals)
    ensures forall s :: s in seals ==> s.ledger == ledger
  {
    LinkedExactly(ledger, seals);
  }

  lemma LinkAt(ledger: LedgerId, seals: seq<Seal>, j: nat)
    requires Linked(ledger, seals) && j < |seals|
    ensures CheckLink(ledger, PeriodsOf(seals[..j]), LastOf(seals[..j]), seals[j]).Ok?
  {
    LinkedPrefix(ledger, seals, j + 1);
    assert seals[..j + 1][..j] == seals[..j];
  }

  /** Along a linked chain neither the log nor the registry shrinks, and no period repeats. */
  lemma {:induction false} LinkedMonotone(ledger: LedgerId, seals: seq<Seal>, i: nat, j: nat)
    requires Linked(ledger, seals) && i < j < |seals|
    ensures seals[i].treeHead.size <= seals[j].treeHead.size
    ensures seals[i].accounts.size <= seals[j].accounts.size
    ensures seals[i].period != seals[j].period
    decreases j
  {
    hide Linked, Seal.ComputeHash;
    LinkAt(ledger, seals, j);
    assert seals[..j][i] == seals[i];
    assert seals[i] in seals[..j];
    if i < j - 1 {
      LinkedMonotone(ledger, seals, i, j - 1);
    }
  }

  class SealChain {
    const ledger: LedgerId
    var seals: seq<Seal>
    var periods: set<PeriodId>

    ghost predicate Valid()
      reads this
    {
      periods == PeriodsOf(seals) && Linked(ledger, seals)
    }

    constructor (ledger: LedgerId)
      ensures Valid() && seals == [] && this.ledger == ledger
    {
      this.ledger := ledger;
      seals, periods := [], {};
    }

    /** The newest seal's hash. It pins the chain: no other linked chain of this ledger has the same head. */
    method Head() returns (h: Option<Hash>)
      ensures h == HeadHash(seals)
      ensures Valid() ==> forall other :: Linked(ledger, other) && HeadHash(other) == h ==> other == seals
    {
      hide Linked;
      h := if seals == [] then None else Some(seals[|seals| - 1].sealHash);
      if Linked(ledger, seals) {
        forall other | Linked(ledger, other) && HeadHash(other) == h
          ensures other == seals
        {
          if seals != [] {
            ChainBinding(ledger, other, seals);
          }
        }
      }
    }

    /** Appends a seal that links to the current head; a refused seal changes nothing. */
    method Push(s: Seal) returns (r: Result<(), SealChainError>)
      requires Valid()
      modifies this
      ensures Valid()
      ensures r == CheckLink(ledger, PeriodsOf(old(seals)), LastOf(old(seals)), s)
      ensures r.Ok? ==> s.ledger == ledger
      ensures s.sealHash == s.ComputeHash() && s.ledger != ledger ==> r == Err(ForeignLedger(s.period, ledger, s.ledger))
      ensures seals == if r.Ok? then old(seals) + [s] else old(seals)
    {
      r := CheckLink(ledger, periods, LastOf(seals), s);
      if r.Ok? {
        assert (seals + [s])[..|seals|] == seals;
        periods := periods + {s.period};
        seals := seals + [s];
      }
    }

    /** Re-checks every link, deriving the periods seen from the seals themselves. */
    method Verify() returns (r: Result<(), SealChainError>)
      ensures r.Ok? <==> Linked(ledger, seals)
      ensures r.Ok? ==> forall s :: s in seals ==> s.ledger == ledger
      ensures r.Err? ==> exists k ::
        0 <= k < |seals| && Linked(ledger, seals[..k])
        && CheckLink(ledger, PeriodsOf(seals[..k]), LastOf(seals[..k]), seals[k]) == r
      ensures Valid() ==> r.Ok?
    {
      hide CheckLink, LastOf, Linked;
      LinkedStart(ledger, seals);
      var seen: set<PeriodId> := {};
      var previous: Option<Seal> := None;
      for i := 0 to |seals|
        invariant seen == PeriodsOf(seals[..i]) && previous == LastOf(seals[..i])
        invariant Linked(ledger, seals[..i])
      {
        LinkedStep(ledger, seals, i);
        var link := CheckLink(ledger, seen, previous, seals[i]);
        if link.Err? {
          return link;
        }
        assert seals[..i + 1] == seals[..i] + [seals[i]];
        LastIs(seals, i);
        seen := seen + {seals[i].period};
        previous := Some(seals[i]);
      }
      assert seals[..|seals|] == seals;
      LinkedIsOwn(ledger, seals);
      return Ok(());
    }

    /** Rebuilds a chain from stored seals exactly when they are linked. */
    static method FromSeals(ledger: LedgerId, stored: seq<Seal>) returns (r: Result<SealChain, SealChainError>)
      ensures r.Ok? <==> Linked(ledger, stored)
      ensures r.Ok? ==> forall s :: s in stored ==> s.ledger == ledger
      ensures r.Err? ==> exists k ::
        0 <= k < |stored| && Linked(ledger, stored[..k])
        && CheckLink(ledger, PeriodsOf(stored[..k]), LastOf(stored[..k]), stored[k]) == Err(r.error)
      ensures r.Ok? ==> fresh(r.value) && r.value.Valid() && r.value.ledger == ledger && r.value.seals == stored
    {
      hide CheckLink, LastOf, Seal.ComputeHash;
      var chain := new SealChain(ledger);
      for i := 0 to |stored|
        invariant fresh(chain) && chain.Valid() && chain.ledger == ledger && chain.seals == stored[..i]
      {
        LinkedStep(ledger, stored, i);
        var pushed := chain.Push(stored[i]);
        if pushed.Err? {
          return Err(pushed.error);
        }
      }
      assert stored[..|stored|] == stored;
      LinkedIsOwn(ledger, stored);
      return Ok(chain);
    }
  }
}

/**
 Do the books balance as a whole?

 Validation balances an entry per currency, across both layers. The trial-balance check
 totals one currency and one layer at a time, so it asks for more. Over everything ever
 recorded each currency balances; each layer of it does exactly when the entries' own
 layer differences cancel.
 */
module BalanceLaws {
  import opened Wrappers
  import opened Canonical
  import opened Dates
  import opened Entries
  import opened Books
  import opened Validation
  import opened Seals
  import opened Ledgers
  import opened Accounts
  import opened Periods

  /** Gross totals of one currency in one layer. */
  function LayerSum(ps: seq<Posting>, c: Currency, layer: Layer): Balance
  {
    if ps == [] then ZERO
    else
      var p := ps[|ps| - 1];
      var before := LayerSum(ps[..|ps| - 1], c, layer);
      if p.currency == c && p.layer == layer then before.Added(p.direction, p.amount) else before
  }

  predicate Even(b: Balance)
  {
    b.debits == b.credits
  }

  /** Debits equal credits in every currency and layer. */
  ghost predicate LayersBalance(ps: seq<Posting>)
  {
    forall c, layer :: Even(LayerSum(ps, c, layer))
  }

  lemma {:induction false} LayerConcat(ps: seq<Posting>, qs: seq<Posting>, c: Currency, layer: Layer)
    ensures LayerSum(ps + qs, c, layer).debits == LayerSum(ps, c, layer).debits + LayerSum(qs, c, layer).debits
    ensures LayerSum(ps + qs, c, layer).credits == LayerSum(ps, c, layer).credits + LayerSum(qs, c, layer).credits
  {
    if qs == [] {
      assert ps + qs == ps;
    } else {
      LayerConcat(ps, qs[..|qs| - 1], c, layer);
      assert (ps + qs)[..|ps + qs| - 1] == ps + qs[..|qs| - 1];
    }
  }

  lemma {:induction false} CurrencyConcat(ps: seq<Posting>, qs: seq<Posting>, c: Currency)
    ensures CurrencySum(ps + qs, c).debits == CurrencySum(ps, c).debits + CurrencySum(qs, c).debits
    ensures CurrencySum(ps + qs, c).credits == CurrencySum(ps, c).credits + CurrencySum(qs, c).credits
  {
    if qs == [] {
      assert ps + qs == ps;
    } else {
      CurrencyConcat(ps, qs[..|qs| - 1], c);
      assert (ps + qs)[..|ps + qs| - 1] == ps + qs[..|qs| - 1];
    }
  }

  /** The two layers of a currency make up the currency. */
  lemma {:induction false} LayersMakeCurrency(ps: seq<Posting>, c: Currency)
    ensures CurrencySum(ps, c).debits == LayerSum(ps, c, Settled).debits + LayerSum(ps, c, Pending).debits
    ensures CurrencySum(ps, c).credits == LayerSum(ps, c, Settled).credits + LayerSum(ps, c, Pending).credits
  {
    if ps != [] {
      LayersMakeCurrency(ps[..|ps| - 1], c);
    }
  }

  /** The double-entry law: across all accounts and both layers, debits equal credits. */
  lemma {:induction false} BooksBalance(es: seq<Entry>, c: Currency)
    requires forall e :: e in es ==> WellBalanced(e)
    ensures Even(CurrencySum(Flat(es), c))
  {
    if es != [] {
      var front, last := es[..|es| - 1], es[|es| - 1];
      assert last in es;
      BooksBalance(front, c);
      CurrencyConcat(Flat(front), last.postings, c);
    }
  }

  /** So whatever one layer of a currency is out by, the other is out by in the other direction. */
  lemma LayersOffset(es: seq<Entry>, c: Currency)
    requires forall e :: e in es ==> WellBalanced(e)
    ensures LayerSum(Flat(es), c, Settled).SignedNet() == -LayerSum(Flat(es), c, Pending).SignedNet()
  {
    BooksBalance(es, c);
    LayersMakeCurrency(Flat(es), c);
  }

  /** Books whose layers balance keep them balanced exactly when the next entry's layers do. */
  lemma NextKeepsLayers(es: seq<Entry>, e: Entry)
    requires LayersBalance(Flat(es))
    ensures LayersBalance(Flat(es + [e])) <==> LayersBalance(e.postings)
  {
    FlatAppend(es, e);
    forall c, layer
      ensures Even(LayerSum(Flat(es + [e]), c, layer)) <==> Even(LayerSum(e.postings, c, layer))
    {
      LayerConcat(Flat(es), e.postings, c, layer);
      assert Even(LayerSum(Flat(es), c, layer));
    }
  }

  /** There is room in every layer total for what an entry adds to it. */
  ghost predicate LayersHaveRoom(ps: seq<Posting>, e: Entry)
  {
    forall c, layer ::
      && LayerSum(ps, c, layer).debits + LayerSum(e.postings, c, layer).debits <= I64_MAX
      && LayerSum(ps, c, layer).credits + LayerSum(e.postings, c, layer).credits <= I64_MAX
  }

  /**
   Books for which the check answers yes go on answering yes exactly when each layer of the
   next entry balances and the layer totals have room for it.
   */
  lemma NextAnswersYes(es: seq<Entry>, e: Entry)
    requires LayersBalance(Flat(es)) && LayersFit(Flat(es))
    requires (forall x :: x in es ==> WellBalanced(x)) && WellBalanced(e)
    ensures LayersBalance(Flat(es + [e])) && LayersFit(Flat(es + [e]))
      <==> LayersBalance(e.postings) && LayersHaveRoom(Flat(es), e)
  {
    hide LayerSum, LayersBalance;
    NextKeepsLayers(es, e);
    FlatAppend(es, e);
    FlatAllPositive(es + [e]);
    forall c, layer
      ensures LayerSum(Flat(es + [e]), c, layer).Fits() <==>
        && LayerSum(Flat(es), c, layer).debits + LayerSum(e.postings, c, layer).debits <= I64_MAX
        && LayerSum(Flat(es), c, layer).credits + LayerSum(e.postings, c, layer).credits <= I64_MAX
    {
      LayerConcat(Flat(es), e.postings, c, layer);
      LayerNonNegative(Flat(es + [e]), c, layer);
    }
  }

  lemma {:induction false} LayerNonNegative(ps: seq<Posting>, c: Currency, layer: Layer)
    requires AllPositive(ps)
    ensures LayerSum(ps, c, layer).debits >= 0 && LayerSum(ps, c, layer).credits >= 0
  {
    if ps != [] {
      assert ps[|ps| - 1] in ps;
      LayerNonNegative(ps[..|ps| - 1], c, layer);
    }
  }

  // ------------------------------------------------ what passes and is not balanced

  /** One debit and one credit of an amount, each on an account and a layer of its own. */
  datatype Transfer = Transfer(
    debited: u32, debitLayer: Layer, credited: u32, creditLayer: Layer, currency: Currency, amount: i64)
  {
    function Postings(): seq<Posting>
    {
      [Posting(debited, Debit, amount, currency, debitLayer, []),
       Posting(credited, Credit, amount, currency, creditLayer, [])]
    }

    function Booked(id: Id, key: Text, date: Date): Entry
    {
      Entry(id, key, date, date, [], Postings(), None, Provenance(None, None, None), None, None, None)
    }
  }

  lemma PairCurrency(a: Posting, b: Posting, c: Currency)
    ensures var first := if a.currency == c then ZERO.Added(a.direction, a.amount) else ZERO;
      CurrencySum([a, b], c) == if b.currency == c then first.Added(b.direction, b.amount) else first
  {
    assert [a, b][..1] == [a] && [a][..0] == [];
    assert CurrencySum([a], c) == if a.currency == c then ZERO.Added(a.direction, a.amount) else ZERO;
  }

  lemma PairLayer(a: Posting, b: Posting, c: Currency, layer: Layer)
    ensures var first := if a.currency == c && a.layer == layer then ZERO.Added(a.direction, a.amount) else ZERO;
      LayerSum([a, b], c, layer) == if b.currency == c && b.layer == layer then first.Added(b.direction, b.amount) else first
  {
    assert [a, b][..1] == [a] && [a][..0] == [];
    assert LayerSum([a], c, layer)
      == if a.currency == c && a.layer == layer then ZERO.Added(a.direction, a.amount) else ZERO;
  }

  /** A transfer's layers balance exactly when both its legs are on one layer. */
  lemma TransferLayers(t: Transfer)
    requires t.amount > 0
    ensures LayersBalance(t.Postings()) <==> t.debitLayer == t.creditLayer
  {
    hide LayerSum;
    var ps := t.Postings();
    forall c, layer
      ensures Even(LayerSum(ps, c, layer)) <==>
        c != t.currency || t.debitLayer == t.creditLayer || (layer != t.debitLayer && layer != t.creditLayer)
    {
      PairLayer(ps[0], ps[1], c, layer);
    }
    assert t.debitLayer != t.creditLayer ==> !Even(LayerSum(ps, t.currency, t.debitLayer));
  }

  lemma TransferBalances(t: Transfer, id: Id, key: Text, date: Date)
    requires t.amount > 0
    ensures WellBalanced(t.Booked(id, key, date))
  {
    hide CurrencySum;
    var ps := t.Postings();
    forall c
      ensures CurrencySum(ps, c).debits == CurrencySum(ps, c).credits
    {
      PairCurrency(ps[0], ps[1], c);
    }
  }

  lemma TransferRunTotal(t: Transfer)
    requires t.amount > 0
    ensures var ps := t.Postings();
      && RunTotal(ps[..0], t.currency) == ZERO && RunTotal(ps[..1], t.currency) == Balance(t.amount, 0)
      && RunTotal(ps, t.currency) == Balance(t.amount, t.amount)
  {
    var ps := t.Postings();
    assert ps[..1] == [ps[0]] && ps[..1][..0] == [] && ps[..0] == [];
    assert ps[..|ps| - 1] == ps[..1];
    assert RunTotal(ps[..1], t.currency) == Balance(t.amount, 0);
  }

  ghost predicate OpenLeaf(ctx: Context, id: u32, date: Date)
  {
    id < |ctx.accounts| && IsLeaf(ctx.accounts, id) && ctx.accounts[id].IsOpenOn(date)
  }

  /** A transfer can be booked on a date: both accounts are open leaves and nothing in the policy is against it. */
  ghost predicate Bookable(t: Transfer, ctx: Context, date: Date)
  {
    && t.amount > 0
    && OpenLeaf(ctx, t.debited, date) && OpenLeaf(ctx, t.credited, date)
    && ctx.calendar.StateOn(date) == PeriodState.Open
    && (ctx.policy.currency.Some? ==> ctx.policy.currency.value == t.currency)
    && ctx.policy.requiredDimensions == []
    && (ctx.policy.maxValueDateDrift.Some? ==> ctx.policy.maxValueDateDrift.value >= 0)
  }

  lemma LegPasses(t: Transfer, ctx: Context, e: Entry, i: nat, v: ValidationError)
    requires i < 2 && e.postings == t.Postings() && Bookable(t, ctx, e.bookingDate)
    ensures !PostingViolates(v, e, ctx, i) && !OverflowAt(v, e, i)
  {
    hide RunTotal, IsLeaf, Account.IsOpenOn, Calendar.StateOn, HasAxis;
    TransferRunTotal(t);
    var ps := t.Postings();
    assert i == 0 || i == 1;
    assert OpenLeaf(ctx, ps[i].account, e.bookingDate);
    assert !Overflows(ps, i) by {
      if i == 0 {
        assert RunTotal(ps[..0], t.currency) == ZERO;
      } else {
        assert RunTotal(ps[..1], t.currency) == Balance(t.amount, 0);
      }
    }
  }

  /** Validation lets a bookable transfer through, whichever layers its legs are on. */
  lemma TransferPasses(t: Transfer, ctx: Context, id: Id, key: Text, date: Date)
    requires Bookable(t, ctx, date)
    ensures Passes(t.Booked(id, key, date), ctx)
  {
    hide RunTotal, IsLeaf, Account.IsOpenOn, Calendar.StateOn, JulianDay;
    var e := t.Booked(id, key, date);
    TransferRunTotal(t);
    forall v
      ensures !Violates(v, e, ctx)
    {
      forall c | c in Currencies(e.postings)
        ensures c == t.currency
      {
      }
      forall i | 0 <= i < |e.postings|
        ensures !PostingViolates(v, e, ctx, i) && !OverflowAt(v, e, i)
      {
        LegPasses(t, ctx, e, i, v);
      }
      assert !EntryViolates(v, e, ctx);
    }
  }

  /** A transfer under a new key and identifier, between unlimited accounts with room for it, is recordable. */
  ghost predicate HasRoom(t: Transfer, ctx: Context, es: seq<Entry>, id: Id, key: Text)
  {
    && KeyIndex(es, key).None? && IndexOf(es, id).None?
    && LimitOf(ctx.accounts, t.debited) == LimitOf(ctx.accounts, t.credited) == Unlimited
    && AllFit(TrialOf(Flat(es) + t.Postings()))
  }

  lemma TransferRecordable(t: Transfer, ctx: Context, es: seq<Entry>, id: Id, key: Text, date: Date)
    requires HasRoom(t, ctx, es, id, key)
    ensures Recordable(ctx.accounts, es, t.Booked(id, key, date))
  {
    hide Sum, Flat, AllFit, TrialOf;
    UnlimitedAllows(ctx.accounts, es, t.Booked(id, key, date), t);
  }

  /**
   So a transfer between layers, which validation accepts and the journal records, turns the
   check's answer on balanced books into a no although nothing has drifted.
   */
  lemma AcrossLayersPasses(t: Transfer, ctx: Context, es: seq<Entry>, id: Id, key: Text, date: Date)
    requires Bookable(t, ctx, date) && HasRoom(t, ctx, es, id, key) && t.debitLayer != t.creditLayer
    ensures var e := t.Booked(id, key, date);
      && Passes(e, ctx) && Recordable(ctx.accounts, es, e)
      && (LayersBalance(Flat(es)) ==> !LayersBalance(Flat(es + [e])))
  {
    hide LayersBalance, Bookable, Passes, HasRoom, Recordable;
    var e := t.Booked(id, key, date);
    TransferPasses(t, ctx, id, key, date);
    TransferRecordable(t, ctx, es, id, key, date);
    BookableIsPositive(t, ctx, date);
    TransferLayers(t);
    if LayersBalance(Flat(es)) {
      NextKeepsLayers(es, e);
    }
  }

  lemma BookableIsPositive(t: Transfer, ctx: Context, date: Date)
    requires Bookable(t, ctx, date)
    ensures t.amount > 0
  {
  }

  lemma FlatOne(e: Entry)
    ensures Flat([e]) == e.postings
  {
    FlatAppend([], e);
    assert [] + [e] == [e] && Flat([]) + e.postings == e.postings;
  }

  // -------------------------------------------------------------- the check

  /** The rows of one currency and layer added up, key by key. */
  function KeyTotal(keys: seq<BalanceKey>, tb: TrialBalance, c: Currency, layer: Layer): Balance
  {
    if keys == [] then ZERO
    else
      var k := keys[|keys| - 1];
      var before := KeyTotal(keys[..|keys| - 1], tb, c, layer);
      if k in tb && k.currency == c && k.layer == layer
      then Balance(before.debits + tb[k].debits, before.credits + tb[k].credits) else before
  }

  ghost predicate Unrepeated(keys: seq<BalanceKey>)
  {
    forall i, j :: 0 <= i < j < |keys| ==> keys[i] != keys[j]
  }

  lemma {:induction false} KeyTotalNothing(keys: seq<BalanceKey>, c: Currency, layer: Layer)
    ensures KeyTotal(keys, map[], c, layer) == ZERO
  {
    if keys != [] {
      KeyTotalNothing(keys[..|keys| - 1], c, layer);
    }
  }

  /** One more posting moves one row, and so the total of the keys by that posting. */
  lemma {:induction false} KeyTotalStep(keys: seq<BalanceKey>, ps: seq<Posting>, p: Posting, c: Currency, layer: Layer)
    requires Unrepeated(keys)
    ensures KeyTotal(keys, TrialOf(ps + [p]), c, layer)
      == if p.Key() in keys && p.currency == c && p.layer == layer
         then KeyTotal(keys, TrialOf(ps), c, layer).Added(p.direction, p.amount) else KeyTotal(keys, TrialOf(ps), c, layer)
  {
    hide TrialOf, Rank;
    if keys != [] {
      var front, k := keys[..|keys| - 1], keys[|keys| - 1];
      assert keys == front + [k];
      KeyTotalStep(front, ps, p, c, layer);
      RowStep(ps, p, k);
      if k == p.Key() {
        assert k !in front;
      }
    }
  }

  lemma RowStep(ps: seq<Posting>, p: Posting, k: BalanceKey)
    ensures k in TrialOf(ps + [p]) <==> k in TrialOf(ps) || k == p.Key()
    ensures k != p.Key() && k in TrialOf(ps) ==> TrialOf(ps + [p])[k] == TrialOf(ps)[k]
    ensures k == p.Key() ==>
      TrialOf(ps + [p])[k] == (if k in TrialOf(ps) then TrialOf(ps)[k] else ZERO).Added(p.direction, p.amount)
  {
    assert (ps + [p])[..|ps|] == ps;
    TouchedConcat(ps, [p]);
    assert Touched([p]) == {p.Key()};
    if k !in Touched(ps) {
      SumUntouched(ps, k);
    }
  }

  /** Adding up the rows of a layer is adding up its postings. */
  lemma {:induction false} RowsMakeLayer(keys: seq<BalanceKey>, ps: seq<Posting>, c: Currency, layer: Layer)
    requires Unrepeated(keys) && forall k :: k in Touched(ps) ==> k in keys
    ensures KeyTotal(keys, TrialOf(ps), c, layer) == LayerSum(ps, c, layer)
  {
    if ps == [] {
      KeyTotalNothing(keys, c, layer);
      assert TrialOf([]) == map[];
    } else {
      var front, p := ps[..|ps| - 1], ps[|ps| - 1];
      assert ps == front + [p] && p in ps;
      TouchedConcat(front, [p]);
      RowsMakeLayer(keys, front, c, layer);
      KeyTotalStep(keys, front, p, c, layer);
    }
  }

  lemma {:induction false} KeyTotalGrows(keys: seq<BalanceKey>, n: nat, tb: TrialBalance, c: Currency, layer: Layer)
    requires n <= |keys| && forall k :: k in tb ==> tb[k].debits >= 0 && tb[k].credits >= 0
    ensures 0 <= KeyTotal(keys[..n], tb, c, layer).debits <= KeyTotal(keys, tb, c, layer).debits
    ensures 0 <= KeyTotal(keys[..n], tb, c, layer).credits <= KeyTotal(keys, tb, c, layer).credits
    decreases |keys|
  {
    if n == |keys| {
      assert keys[..n] == keys;
      if n > 0 {
        KeyTotalGrows(keys[..n - 1], n - 1, tb, c, layer);
      }
    } else {
      assert keys[..|keys| - 1][..n] == keys[..n];
      KeyTotalGrows(keys[..|keys| - 1], n, tb, c, layer);
    }
  }

  lemma KeyTotalNext(keys: seq<BalanceKey>, i: nat, tb: TrialBalance, c: Currency, layer: Layer)
    requires i < |keys| && keys[i] in tb
    ensures var before, row := KeyTotal(keys[..i], tb, c, layer), tb[keys[i]];
      KeyTotal(keys[..i + 1], tb, c, layer)
        == if keys[i].currency == c && keys[i].layer == layer
           then Balance(before.debits + row.debits, before.credits + row.credits) else before
  {
    assert keys[..i + 1][..i] == keys[..i];
  }

  lemma NoKeys(tb: TrialBalance, c: Currency, layer: Layer)
    ensures KeyTotal([], tb, c, layer) == ZERO
  {
  }

  lemma KeysOf(ps: seq<Posting>, keys: seq<BalanceKey>)
    requires keys == SortedKeys(TrialOf(ps).Keys)
    ensures Unrepeated(keys) && forall k :: k in Touched(ps) <==> k in keys
  {
    SortedKeysList(TrialOf(ps).Keys);
    AscendingDistinct(keys);
  }

  /** Totals over all accounts of one currency and layer; a total that does not fit is an overflow. */
  method TotalsOf(tb: TrialBalance, c: Currency, layer: Layer, ghost ps: seq<Posting>) returns (r: Option<Balance>)
    requires tb == TrialOf(ps) && AllPositive(ps)
    ensures r == if LayerSum(ps, c, layer).Fits() then Some(LayerSum(ps, c, layer)) else None
  {
    hide TrialOf, LayerSum, Rank, KeyTotal, SortedKeys, Touched, Unrepeated;
    var keys := SortKeys(tb.Keys);
    KeysOf(ps, keys);
    TrialKeys(ps);
    RowsMakeLayer(keys, ps, c, layer);
    NoKeys(tb, c, layer);
    var acc := ZERO;
    assert keys[..0] == [];
    for i := 0 to |keys|
      invariant acc == KeyTotal(keys[..i], tb, c, layer) && acc.Fits()
    {
      assert keys[i] in keys;
      KeyTotalNext(keys, i, tb, c, layer);
      if keys[i].currency == c && keys[i].layer == layer {
        acc := Balance(acc.debits + tb[keys[i]].debits, acc.credits + tb[keys[i]].credits);
        KeyTotalGrows(keys, i + 1, tb, c, layer);
        if !acc.Fits() {
          return None;
        }
      }
    }
    assert keys[..|keys|] == keys;
    return Some(acc);
  }

  lemma TrialKeys(ps: seq<Posting>)
    requires AllPositive(ps)
    ensures TrialOf(ps).Keys == Touched(ps)
    ensures forall k :: k in TrialOf(ps) ==> TrialOf(ps)[k].debits >= 0 && TrialOf(ps)[k].credits >= 0
  {
    forall k | k in TrialOf(ps)
      ensures TrialOf(ps)[k].debits >= 0 && TrialOf(ps)[k].credits >= 0
    {
      SumNonNegative(ps, k);
    }
  }

  lemma {:induction false} LayerAbsent(ps: seq<Posting>, c: Currency, layer: Layer)
    requires c !in Currencies(ps)
    ensures LayerSum(ps, c, layer) == ZERO
  {
    if ps != [] {
      assert ps[|ps| - 1] in ps;
      assert Currencies(ps[..|ps| - 1]) <= Currencies(ps);
      LayerAbsent(ps[..|ps| - 1], c, layer);
    }
  }

  lemma CurrenciesOfKeys(ps: seq<Posting>)
    ensures (set k | k in TrialOf(ps) :: k.currency) == Currencies(ps)
  {
    forall c
      ensures c in (set k | k in TrialOf(ps) :: k.currency) <==> c in Currencies(ps)
    {
      if k :| k in TrialOf(ps) && k.currency == c {
        var p :| p in ps && p.Key() == k;
      }
      if p :| p in ps && p.currency == c {
        assert p.Key() in TrialOf(ps);
      }
    }
  }

  /** Every layer total is in range. */
  ghost predicate LayersFit(ps: seq<Posting>)
  {
    forall c, layer :: LayerSum(ps, c, layer).Fits()
  }

  ghost predicate LayerDone(ps: seq<Posting>, c: Currency, layer: Layer)
  {
    LayerSum(ps, c, layer).Fits() && Even(LayerSum(ps, c, layer))
  }

  /** Currencies in code order, settled before pending. */
  predicate Earlier(d: Currency, other: Layer, c: Currency, layer: Layer)
  {
    CurrencyRank(d) < CurrencyRank(c) || (d == c && other == Settled && layer == Pending)
  }

  /** The first layer, in that order, that does not balance or is out of range. */
  ghost predicate FirstFault(ps: seq<Posting>, c: Currency, layer: Layer)
  {
    !LayerDone(ps, c, layer) && forall d, other :: Earlier(d, other, c, layer) ==> LayerDone(ps, d, other)
  }

  /** The layer at fault is out of balance or out of range, and none is before it by currency code, settled first. */
  lemma FirstFaultIs(ps: seq<Posting>, c: Currency, layer: Layer)
    requires FirstFault(ps, c, layer)
    ensures var b := LayerSum(ps, c, layer); !b.Fits() || b.debits != b.credits
    ensures forall d, other ::
      CurrencyRank(d) < CurrencyRank(c) || (d == c && other == Settled && layer == Pending) ==>
        var b := LayerSum(ps, d, other); b.Fits() && b.debits == b.credits
  {
    hide LayerSum, CurrencyRank;
    forall d, other | CurrencyRank(d) < CurrencyRank(c) || (d == c && other == Settled && layer == Pending)
      ensures var b := LayerSum(ps, d, other); b.Fits() && b.debits == b.credits
    {
      assert Earlier(d, other, c, layer);
    }
  }

  /**
   The trial-balance check. It answers yes exactly when every layer of every currency
   balances and is in range; otherwise the first layer at fault decides between an overflow
   and a no.
   */
  method CheckBalanced(tb: TrialBalance, ghost ps: seq<Posting>) returns (r: Option<bool>)
    requires tb == TrialOf(ps) && AllPositive(ps)
    ensures r == Some(true) <==> LayersBalance(ps) && LayersFit(ps)
    ensures r != Some(true) ==> exists c, layer ::
      FirstFault(ps, c, layer) && r == if LayerSum(ps, c, layer).Fits() then Some(false) else None
  {
    hide TrialOf, LayerSum, Currencies, SortedCurrencies, LayerDone, FirstFault, LayersBalance, LayersFit;
    var order := SortCurrencies(set k | k in tb :: k.currency);
    CurrenciesOfKeys(ps);
    for j := 0 to |order|
      invariant forall i, layer: Layer :: 0 <= i < j ==> LayerDone(ps, order[i], layer)
    {
      var c := order[j];
      var settled := TotalsOf(tb, c, Settled, ps);
      SettledDecides(ps, order, j);
      if settled.None? {
        return None;
      }
      if settled.value.debits != settled.value.credits {
        return Some(false);
      }
      var pending := TotalsOf(tb, c, Pending, ps);
      PendingDecides(ps, order, j);
      if pending.None? {
        return None;
      }
      if pending.value.debits != pending.value.credits {
        return Some(false);
      }
    }
    AllLayersDone(ps, order);
    return Some(true);
  }

  /** A layer at fault means the books as a whole are. */
  lemma FaultFails(ps: seq<Posting>, c: Currency, layer: Layer)
    requires !LayerDone(ps, c, layer)
    ensures !(LayersBalance(ps) && LayersFit(ps))
  {
    hide LayerSum;
  }

  /** Currencies not in the order have nothing booked, and those ranked before one stand before it. */
  lemma EarlierDone(ps: seq<Posting>, order: seq<Currency>, j: nat, d: Currency, other: Layer)
    requires order == SortedCurrencies(Currencies(ps)) && j < |order|
    requires forall i, layer: Layer :: 0 <= i < j ==> LayerDone(ps, order[i], layer)
    requires CurrencyRank(d) < CurrencyRank(order[j])
    ensures LayerDone(ps, d, other)
  {
    hide LayerSum, Currencies, SortedCurrencies, CurrencyRank;
    SortedCurrenciesList(Currencies(ps));
    if d in Currencies(ps) {
      forall i | 0 <= i < |order| && order[i] == d
        ensures i < j
      {
      }
      var i :| 0 <= i < |order| && order[i] == d;
      assert LayerDone(ps, order[i], other);
    } else {
      LayerAbsent(ps, d, other);
    }
  }

  lemma SettledDecides(ps: seq<Posting>, order: seq<Currency>, j: nat)
    requires order == SortedCurrencies(Currencies(ps)) && j < |order|
    requires forall i, layer: Layer :: 0 <= i < j ==> LayerDone(ps, order[i], layer)
    ensures LayerDone(ps, order[j], Settled)
      <==> LayerSum(ps, order[j], Settled).Fits() && Even(LayerSum(ps, order[j], Settled))
    ensures !LayerDone(ps, order[j], Settled) ==>
      FirstFault(ps, order[j], Settled) && !(LayersBalance(ps) && LayersFit(ps))
  {
    hide LayerSum, Currencies, SortedCurrencies, CurrencyRank, LayersBalance, LayersFit;
    forall d, other | Earlier(d, other, order[j], Settled)
      ensures LayerDone(ps, d, other)
    {
      EarlierDone(ps, order, j, d, other);
    }
    if !LayerDone(ps, order[j], Settled) {
      FaultFails(ps, order[j], Settled);
    }
  }

  lemma PendingDecides(ps: seq<Posting>, order: seq<Currency>, j: nat)
    requires order == SortedCurrencies(Currencies(ps)) && j < |order|
    requires forall i, layer: Layer :: 0 <= i < j ==> LayerDone(ps, order[i], layer)
    requires LayerDone(ps, order[j], Settled)
    ensures LayerDone(ps, order[j], Pending)
      <==> LayerSum(ps, order[j], Pending).Fits() && Even(LayerSum(ps, order[j], Pending))
    ensures !LayerDone(ps, order[j], Pending) ==>
      FirstFault(ps, order[j], Pending) && !(LayersBalance(ps) && LayersFit(ps))
    ensures LayerDone(ps, order[j], Pending) ==> forall layer: Layer :: LayerDone(ps, order[j], layer)
  {
    hide LayerSum, Currencies, SortedCurrencies, CurrencyRank, LayersBalance, LayersFit;
    forall d, other | Earlier(d, other, order[j], Pending)
      ensures LayerDone(ps, d, other)
    {
      if d != order[j] || other != Settled {
        EarlierDone(ps, order, j, d, other);
      }
    }
    if !LayerDone(ps, order[j], Pending) {
      FaultFails(ps, order[j], Pending);
    }
  }

  lemma AllLayersDone(ps: seq<Posting>, order: seq<Currency>)
    requires order == SortedCurrencies(Currencies(ps))
    requires forall i, layer: Layer :: 0 <= i < |order| ==> LayerDone(ps, order[i], layer)
    ensures LayersBalance(ps) && LayersFit(ps)
  {
    hide LayerSum, Currencies, SortedCurrencies;
    SortedCurrenciesList(Currencies(ps));
    forall c, layer
      ensures LayerDone(ps, c, layer)
    {
      if c !in Currencies(ps) {
        LayerAbsent(ps, c, layer);
      }
    }
    forall c, layer
      ensures Even(LayerSum(ps, c, layer)) && LayerSum(ps, c, layer).Fits()
    {
      assert LayerDone(ps, c, layer);
    }
  }

  // -------------------------------------------------- balanced, and an overflow

  /**
   Balanced layers are not enough. Two transfers on one layer, the greatest amount between two
   accounts and one unit between two others, are both accepted and recorded, since no single
   account overflows; the layer's total does, and the check answers with an overflow.
   */
  lemma BalancedYetOverflowing(ctx: Context, a: Transfer, b: Transfer, ids: (Id, Id), keys: (Text, Text), date: Date)
    requires Bookable(a, ctx, date) && Bookable(b, ctx, date) && ids.0 != ids.1 && keys.0 != keys.1
    requires a.amount == I64_MAX && b.amount == 1 && a.currency == b.currency
    requires a.debitLayer == a.creditLayer == b.debitLayer == b.creditLayer
    requires {a.debited, a.credited} !! {b.debited, b.credited}
    requires forall id :: id in {a.debited, a.credited, b.debited, b.credited} ==>
      LimitOf(ctx.accounts, id) == Unlimited
    ensures var e, f := a.Booked(ids.0, keys.0, date), b.Booked(ids.1, keys.1, date);
      && Passes(e, ctx) && Recordable(ctx.accounts, [], e)
      && Passes(f, ctx) && Recordable(ctx.accounts, [e], f)
      && LayersBalance(Flat([e, f])) && !LayersFit(Flat([e, f]))
  {
    hide Passes, Bookable, LayersBalance, LayerSum, AllFit, TrialOf, LimitsAllow, Flat;
    var e, f := a.Booked(ids.0, keys.0, date), b.Booked(ids.1, keys.1, date);
    TransferPasses(a, ctx, ids.0, keys.0, date);
    TransferPasses(b, ctx, ids.1, keys.1, date);
    FlatOne(e);
    FlatAppend([e], f);
    assert [e] + [f] == [e, f];
    NothingFlat();
    assert [] + e.postings == e.postings;
    DisjointFit(a, b);
    UnlimitedAllows(ctx.accounts, [], e, a);
    UnlimitedAllows(ctx.accounts, [e], f, b);
    NewKeyAndId(e, f);
    TransferLayers(a);
    TransferLayers(b);
    NextKeepsLayers([e], f);
    LayerTooGreat(a, b);
  }

  lemma NewKeyAndId(e: Entry, f: Entry)
    requires e.id != f.id && e.key != f.key
    ensures KeyIndex([], e.key).None? && IndexOf([], e.id).None?
    ensures KeyIndex([e], f.key).None? && IndexOf([e], f.id).None?
  {
    KeyIndexFacts([e], f.key);
    IndexOfFacts([e], f.id);
  }

  lemma UnlimitedAllows(accounts: seq<Account>, es: seq<Entry>, e: Entry, t: Transfer)
    requires e.postings == t.Postings()
    requires LimitOf(accounts, t.debited) == LimitOf(accounts, t.credited) == Unlimited
    ensures LimitsAllow(accounts, es, e)
  {
    hide Sum, Flat;
  }

  lemma TransferSum(t: Transfer, k: BalanceKey)
    requires t.amount > 0
    ensures Sum(t.Postings(), k) == Balance(
      if k == t.Postings()[0].Key() then t.amount else 0, if k == t.Postings()[1].Key() then t.amount else 0)
  {
    var ps := t.Postings();
    assert ps[..1] == [ps[0]] && [ps[0]][..0] == [];
    assert Sum([ps[0]], k) == if k == ps[0].Key() then Balance(t.amount, 0) else ZERO;
  }

  lemma DisjointFit(a: Transfer, b: Transfer)
    requires a.amount > 0 && b.amount > 0 && {a.debited, a.credited} !! {b.debited, b.credited}
    ensures AllFit(TrialOf(a.Postings())) && AllFit(TrialOf(a.Postings() + b.Postings()))
  {
    hide Sum;
    forall k: BalanceKey
      ensures Sum(a.Postings(), k).Fits() && Sum(a.Postings() + b.Postings(), k).Fits()
    {
      TransferSum(a, k);
      TransferSum(b, k);
      SumConcat(a.Postings(), b.Postings(), k);
    }
  }

  lemma LayerTooGreat(a: Transfer, b: Transfer)
    requires a.amount == I64_MAX && b.amount == 1 && a.currency == b.currency
    requires a.debitLayer == a.creditLayer == b.debitLayer == b.creditLayer
    ensures !LayersFit(a.Postings() + b.Postings())
  {
    hide LayerSum, Transfer.Postings;
    TransferLayerSum(a);
    TransferLayerSum(b);
    LayerConcat(a.Postings(), b.Postings(), a.currency, a.debitLayer);
    assert !LayerSum(a.Postings() + b.Postings(), a.currency, a.debitLayer).Fits();
  }

  lemma TransferLayerSum(t: Transfer)
    requires t.amount > 0 && t.debitLayer == t.creditLayer
    ensures LayerSum(t.Postings(), t.currency, t.debitLayer) == Balance(t.amount, t.amount)
  {
    hide LayerSum;
    PairLayer(t.Postings()[0], t.Postings()[1], t.currency, t.debitLayer);
  }
}

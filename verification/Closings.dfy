/**
 Closing entries: flattening every account of some kinds into equity.

 What the postings must do is stated on balances: they balance in every currency, every
 account in scope nets to zero once they are booked, equity receives the summed net, and no
 other key is touched.
 */
module Closings {
  import opened Wrappers
  import opened Entries
  import opened Accounts
  import opened Books
  import opened Validation
  import opened Seals

  datatype ClosingError =
    | UnknownEquityAccount(account: u32)
    | EquityInScope(account: u32)
    | ClosingOverflow

  /** Which keys are closed, and into what. */
  datatype Scope = Scope(accounts: seq<Account>, kinds: set<AccountKind>, equity: u32, layer: Layer)
  {
    predicate Includes(k: BalanceKey)
    {
      && k.layer == layer && k.account != equity && k.account < |accounts|
      && accounts[k.account].kind.Some? && accounts[k.account].kind.value in kinds
    }

    function EquityKey(c: Currency): BalanceKey
    {
      BalanceKey(equity, c, layer)
    }

    predicate Usable()
    {
      equity < |accounts| && !(accounts[equity].kind.Some? && accounts[equity].kind.value in kinds)
    }
  }

  /** A scope is one layer of the registered accounts of some kinds, the equity account apart. */
  lemma ScopeIs(s: Scope, k: BalanceKey)
    ensures s.Includes(k) <==>
      k.layer == s.layer && k.account != s.equity && k.account < |s.accounts|
      && exists kind :: kind in s.kinds && s.accounts[k.account].kind == Some(kind)
    ensures s.Usable() <==>
      s.equity < |s.accounts| && forall kind :: kind in s.kinds ==> s.accounts[s.equity].kind != Some(kind)
  {
  }

  function NetAt(tb: TrialBalance, k: BalanceKey): int
  {
    if k in tb then tb[k].SignedNet() else 0
  }

  /** The summed net of the keys in scope, in one currency. */
  function Moved(keys: seq<BalanceKey>, tb: TrialBalance, s: Scope, c: Currency): int
  {
    if keys == [] then 0
    else
      var k := keys[|keys| - 1];
      Moved(keys[..|keys| - 1], tb, s, c) + if s.Includes(k) && k.currency == c then NetAt(tb, k) else 0
  }

  predicate InRange(n: int)
  {
    I64_MIN <= n <= I64_MAX
  }

  /** Every net and every running sum is in range, and no final sum is the least amount. */
  ghost predicate SumsFit(keys: seq<BalanceKey>, tb: TrialBalance, s: Scope)
  {
    RunningFit(keys, |keys|, tb, s) && forall c :: Moved(keys, tb, s, c) != I64_MIN
  }

  /** No net in scope and no running sum leaves the machine's range, nor does the negation of a net or of a final sum. */
  ghost predicate NothingOverflows(keys: seq<BalanceKey>, tb: TrialBalance, s: Scope)
  {
    && (forall i :: 0 <= i < |keys| && s.Includes(keys[i]) ==> I64_MIN < NetAt(tb, keys[i]) <= I64_MAX)
    && (forall n, c :: 0 <= n <= |keys| ==> I64_MIN <= Moved(keys[..n], tb, s, c) <= I64_MAX)
    && (forall c :: I64_MIN < Moved(keys, tb, s, c))
  }

  /** Sums fit exactly when nothing the two loops compute overflows. */
  lemma SumsFitIs(keys: seq<BalanceKey>, tb: TrialBalance, s: Scope)
    ensures SumsFit(keys, tb, s) <==> NothingOverflows(keys, tb, s)
  {
    hide Scope.Includes;
    assert keys[..|keys|] == keys;
    if SumsFit(keys, tb, s) {
      forall n, c | 0 <= n <= |keys|
        ensures I64_MIN <= Moved(keys[..n], tb, s, c) <= I64_MAX
      {
        assert InRange(Moved(keys[..n], tb, s, c));
      }
    }
  }

  /** One posting for a key at most, carrying no dimension. */
  predicate OneEach(ps: seq<Posting>)
  {
    && (forall i, j :: 0 <= i < j < |ps| ==> ps[i].Key() != ps[j].Key())
    && (forall i :: 0 <= i < |ps| ==> ps[i].dimensions == [])
  }

  /** Where a closing posting stands: keys in scope in key order, then equity in currency order. */
  function Place(p: Posting, s: Scope): nat
  {
    Rank(p.Key()) + if p.account == s.equity then RANKS else 0
  }

  ghost predicate InOrder(ps: seq<Posting>, s: Scope)
  {
    forall i, j :: 0 <= i < j < |ps| ==> Place(ps[i], s) < Place(ps[j], s)
  }

  lemma OrderNext(ps: seq<Posting>, leg: Posting, s: Scope)
    requires InOrder(ps, s) && forall p :: p in ps ==> Place(p, s) < Place(leg, s)
    ensures InOrder(ps + [leg], s)
  {
    hide Place;
    forall i | 0 <= i < |ps|
      ensures Place(ps[i], s) < Place(leg, s)
    {
      assert ps[i] in ps;
    }
  }

  /** What a closing run must produce. */
  ghost predicate Closes(ps: seq<Posting>, tb: TrialBalance, s: Scope)
  {
    && AllPositive(ps) && OneEach(ps) && InOrder(ps, s)
    && (forall c :: CurrencySum(ps, c).debits == CurrencySum(ps, c).credits)
    && (forall k :: k in tb && s.Includes(k) ==> Sum(ps, k).SignedNet() == -tb[k].SignedNet())
    && (forall c :: Sum(ps, s.EquityKey(c)).SignedNet() == Moved(SortedKeys(tb.Keys), tb, s, c))
    && (forall k :: k in Touched(ps) ==> (k in tb && s.Includes(k)) || k == s.EquityKey(k.currency))
  }

  /** The leg that moves a signed net to the other side of a key. */
  function LegFor(k: BalanceKey, net: i64): Posting
    requires net > I64_MIN
  {
    Posting(k.account, if net > 0 then Credit else Debit, if net > 0 then net else -net, k.currency, k.layer, [])
  }

  lemma LegAppended(ps: seq<Posting>, k: BalanceKey, net: i64)
    requires net > I64_MIN && net != 0
    ensures AllPositive(ps) ==> AllPositive(ps + [LegFor(k, net)])
    ensures OneEach(ps) && k !in Touched(ps) ==> OneEach(ps + [LegFor(k, net)])
    ensures Touched(ps + [LegFor(k, net)]) == Touched(ps) + {k}
    ensures Sum(ps + [LegFor(k, net)], k).SignedNet() == Sum(ps, k).SignedNet() - net
    ensures forall j :: j != k ==> Sum(ps + [LegFor(k, net)], j) == Sum(ps, j)
    ensures forall c ::
      CurrencySum(ps + [LegFor(k, net)], c).SignedNet()
        == CurrencySum(ps, c).SignedNet() - if c == k.currency then net else 0
  {
    hide Sum, CurrencySum, OneEach;
    var leg := LegFor(k, net);
    LegSums(ps, leg);
    TouchedConcat(ps, [leg]);
    assert leg.Key() == k && leg in [leg];
    assert Touched([leg]) == {k};
    if OneEach(ps) && k !in Touched(ps) {
      OneMore(ps, leg);
    }
  }

  lemma LegSums(ps: seq<Posting>, leg: Posting)
    ensures forall j :: Sum(ps + [leg], j) == if leg.Key() == j then Sum(ps, j).Added(leg.direction, leg.amount) else Sum(ps, j)
    ensures forall c ::
      CurrencySum(ps + [leg], c)
        == if leg.currency == c then CurrencySum(ps, c).Added(leg.direction, leg.amount) else CurrencySum(ps, c)
  {
    assert (ps + [leg])[..|ps|] == ps;
  }

  lemma OneMore(ps: seq<Posting>, leg: Posting)
    requires OneEach(ps) && leg.Key() !in Touched(ps) && leg.dimensions == []
    ensures OneEach(ps + [leg])
  {
    forall i | 0 <= i < |ps|
      ensures ps[i].Key() != leg.Key()
    {
      assert ps[i] in ps;
    }
  }

  // ------------------------------------------------------------- the two loops

  function OffsetAt(offsets: map<Currency, int>, c: Currency): int
  {
    if c in offsets then offsets[c] else 0
  }

  /** The legs flatten exactly the keys in scope among those visited. */
  ghost predicate LegsFlatten(visited: seq<BalanceKey>, tb: TrialBalance, s: Scope, ps: seq<Posting>)
  {
    && AllPositive(ps) && OneEach(ps)
    && (forall k :: Sum(ps, k).SignedNet() == if k in visited && s.Includes(k) then -NetAt(tb, k) else 0)
    && (forall k :: k in Touched(ps) ==> k in visited && s.Includes(k))
  }

  /** The offsets are the summed nets, and what the legs are out by. */
  ghost predicate OffsetsMatch(visited: seq<BalanceKey>, tb: TrialBalance, s: Scope, ps: seq<Posting>, offsets: map<Currency, int>)
  {
    && (forall c :: OffsetAt(offsets, c) == Moved(visited, tb, s, c))
    && (forall c :: OffsetAt(offsets, c) == -CurrencySum(ps, c).SignedNet())
  }

  lemma NothingFlattened(tb: TrialBalance, s: Scope)
    ensures LegsFlatten([], tb, s, []) && OffsetsMatch([], tb, s, [], map[])
  {
    hide Sum, CurrencySum, Moved;
    forall k
      ensures Sum([], k) == ZERO
    {
      EmptySum(k);
    }
    forall c
      ensures CurrencySum([], c) == ZERO && Moved([], tb, s, c) == 0
    {
      NoCurrencySum(tb, s, c);
    }
  }

  lemma NoCurrencySum(tb: TrialBalance, s: Scope, c: Currency)
    ensures CurrencySum([], c) == ZERO && Moved([], tb, s, c) == 0
  {
  }

  lemma MovedNext(visited: seq<BalanceKey>, k: BalanceKey, tb: TrialBalance, s: Scope)
    ensures forall c ::
      Moved(visited + [k], tb, s, c)
        == Moved(visited, tb, s, c) + if s.Includes(k) && k.currency == c then NetAt(tb, k) else 0
  {
    assert (visited + [k])[..|visited|] == visited;
  }

  /** A key out of scope, or already flat, is passed over. */
  lemma FlattenSkip(visited: seq<BalanceKey>, k: BalanceKey, tb: TrialBalance, s: Scope, ps: seq<Posting>, offsets: map<Currency, int>)
    requires LegsFlatten(visited, tb, s, ps) && OffsetsMatch(visited, tb, s, ps, offsets)
    requires s.Includes(k) ==> NetAt(tb, k) == 0
    ensures LegsFlatten(visited + [k], tb, s, ps) && OffsetsMatch(visited + [k], tb, s, ps, offsets)
  {
    hide CurrencySum, Sum, Touched, Moved, AllPositive, OneEach;
    MovedNext(visited, k, tb, s);
  }

  /** A key in scope gets the leg that flattens it, and its net is carried. */
  lemma FlattenNext(visited: seq<BalanceKey>, k: BalanceKey, tb: TrialBalance, s: Scope, ps: seq<Posting>, offsets: map<Currency, int>, net: i64)
    requires k !in visited && LegsFlatten(visited, tb, s, ps) && OffsetsMatch(visited, tb, s, ps, offsets)
    requires s.Includes(k) && net == NetAt(tb, k) && net != 0 && net > I64_MIN
    ensures LegsFlatten(visited + [k], tb, s, ps + [LegFor(k, net)])
    ensures OffsetsMatch(visited + [k], tb, s, ps + [LegFor(k, net)], offsets[k.currency := OffsetAt(offsets, k.currency) + net])
  {
    hide CurrencySum, Sum, Touched, Moved, LegFor, AllPositive, OneEach;
    MovedNext(visited, k, tb, s);
    LegAppended(ps, k, net);
  }

  /** Visiting keys in order puts their legs in order. */
  lemma FlattenOrdered(keys: seq<BalanceKey>, n: nat, tb: TrialBalance, s: Scope, ps: seq<Posting>, net: i64)
    requires Ascending(keys) && n < |keys| && LegsFlatten(keys[..n], tb, s, ps) && InOrder(ps, s)
    requires s.Includes(keys[n]) && net > I64_MIN
    ensures InOrder(ps + [LegFor(keys[n], net)], s)
  {
    hide Rank, Sum, AllPositive, OneEach, InOrder;
    var leg := LegFor(keys[n], net);
    assert leg.Key() == keys[n];
    forall p | p in ps
      ensures Place(p, s) < Place(leg, s)
    {
      assert p.Key() in Touched(ps);
      var m :| 0 <= m < n && keys[m] == p.Key();
      assert Rank(keys[m]) < Rank(keys[n]);
    }
    OrderNext(ps, leg, s);
  }

  /** The running sums stay in range up to here. */
  ghost predicate RunningFit(keys: seq<BalanceKey>, n: nat, tb: TrialBalance, s: Scope)
    requires n <= |keys|
  {
    && (forall m, c :: 0 <= m <= n ==> InRange(Moved(keys[..m], tb, s, c)))
    && (forall m :: 0 <= m < n && s.Includes(keys[m]) ==> -I64_MAX <= NetAt(tb, keys[m]) <= I64_MAX)
  }

  lemma RunningNext(keys: seq<BalanceKey>, n: nat, tb: TrialBalance, s: Scope)
    requires n < |keys| && RunningFit(keys, n, tb, s)
    ensures var net, before := NetAt(tb, keys[n]), Moved(keys[..n], tb, s, keys[n].currency);
      RunningFit(keys, n + 1, tb, s) <==>
        (s.Includes(keys[n]) ==> -I64_MAX <= net <= I64_MAX && InRange(before + net))
  {
    hide Moved;
    MovedNext(keys[..n], keys[n], tb, s);
    assert keys[..n + 1] == keys[..n] + [keys[n]];
    var k := keys[n];
    assert InRange(Moved(keys[..n + 1], tb, s, k.currency)) <== RunningFit(keys, n + 1, tb, s);
    forall m, c | 0 <= m <= n + 1 && (s.Includes(k) ==> InRange(Moved(keys[..n], tb, s, k.currency) + NetAt(tb, k)))
      ensures InRange(Moved(keys[..m], tb, s, c))
    {
      assert m <= n ==> InRange(Moved(keys[..m], tb, s, c));
      assert InRange(Moved(keys[..n], tb, s, c));
    }
  }

  lemma RunningShrinks(keys: seq<BalanceKey>, n: nat, m: nat, tb: TrialBalance, s: Scope)
    requires n <= m <= |keys| && RunningFit(keys, m, tb, s)
    ensures RunningFit(keys, n, tb, s)
  {
    hide Moved;
  }

  lemma RunningStarts(keys: seq<BalanceKey>, tb: TrialBalance, s: Scope)
    ensures RunningFit(keys, 0, tb, s)
  {
  }

  /** The first loop: one leg for every key in scope with a net. */
  method FlattenAll(keys: seq<BalanceKey>, tb: TrialBalance, s: Scope)
    returns (ok: bool, ps: seq<Posting>, offsets: map<Currency, int>)
    requires Ascending(keys) && forall k :: k in keys ==> k in tb
    ensures ok ==> LegsFlatten(keys, tb, s, ps) && OffsetsMatch(keys, tb, s, ps, offsets) && InOrder(ps, s)
    ensures ok <==> RunningFit(keys, |keys|, tb, s)
    ensures (forall k :: k in keys && s.Includes(k) ==> NetAt(tb, k) == 0) ==> ps == [] && offsets == map[]
  {
    hide LegsFlatten, OffsetsMatch, Moved, LegFor, RunningFit, InOrder, Ascending;
    ps, offsets := [], map[];
    AscendingDistinct(keys);
    NothingInOrder(s);
    NothingFlattened(tb, s);
    RunningStarts(keys, tb, s);
    assert keys[..0] == [];
    for n := 0 to |keys|
      invariant LegsFlatten(keys[..n], tb, s, ps) && OffsetsMatch(keys[..n], tb, s, ps, offsets) && InOrder(ps, s)
      invariant RunningFit(keys, n, tb, s)
      invariant (forall k :: k in keys && s.Includes(k) ==> NetAt(tb, k) == 0) ==> ps == [] && offsets == map[]
    {
      var key := keys[n];
      assert key in keys && key !in keys[..n];
      assert keys[..n + 1] == keys[..n] + [key];
      RunningNext(keys, n, tb, s);
      OffsetIsMoved(keys[..n], tb, s, ps, offsets, key.currency);
      var net := tb[key].SignedNet();
      if !s.Includes(key) {
        FlattenSkip(keys[..n], key, tb, s, ps, offsets);
      } else {
        if net > I64_MAX || net < -I64_MAX {
          NotThrough(keys, n + 1, tb, s);
          return false, ps, offsets;
        }
        if net == 0 {
          FlattenSkip(keys[..n], key, tb, s, ps, offsets);
          SkipFits(keys, n, tb, s);
        } else {
          var before := OffsetAt(offsets, key.currency);
          if !InRange(before + net) {
            NotThrough(keys, n + 1, tb, s);
            return false, ps, offsets;
          }
          FlattenNext(keys[..n], key, tb, s, ps, offsets, net);
          FlattenOrdered(keys, n, tb, s, ps, net);
          ps := ps + [LegFor(key, net)];
          offsets := offsets[key.currency := before + net];
        }
      }
    }
    assert keys[..|keys|] == keys;
    return true, ps, offsets;
  }

  lemma NothingInOrder(s: Scope)
    ensures InOrder([], s)
  {
  }

  lemma SkipFits(keys: seq<BalanceKey>, n: nat, tb: TrialBalance, s: Scope)
    requires n < |keys| && RunningFit(keys, n, tb, s) && NetAt(tb, keys[n]) == 0
    ensures RunningFit(keys, n + 1, tb, s)
  {
    hide Moved;
    RunningNext(keys, n, tb, s);
    assert InRange(Moved(keys[..n], tb, s, keys[n].currency));
  }

  /** A prefix that does not fit keeps the whole from fitting. */
  lemma NotThrough(keys: seq<BalanceKey>, n: nat, tb: TrialBalance, s: Scope)
    requires n <= |keys| && !RunningFit(keys, n, tb, s)
    ensures !RunningFit(keys, |keys|, tb, s)
  {
    hide RunningFit;
    if RunningFit(keys, |keys|, tb, s) {
      RunningShrinks(keys, n, |keys|, tb, s);
    }
  }

  lemma OffsetIsMoved(visited: seq<BalanceKey>, tb: TrialBalance, s: Scope, ps: seq<Posting>, offsets: map<Currency, int>, c: Currency)
    requires OffsetsMatch(visited, tb, s, ps, offsets)
    ensures OffsetAt(offsets, c) == Moved(visited, tb, s, c)
  {
  }

  /** The currencies done have their equity leg and balance; the others are still out. */
  ghost predicate EquityDone(keys: seq<BalanceKey>, offsets: map<Currency, int>, tb: TrialBalance, s: Scope, done: set<Currency>, ps: seq<Posting>)
  {
    && AllPositive(ps) && OneEach(ps)
    && (forall k: BalanceKey :: k != s.EquityKey(k.currency) ==>
          Sum(ps, k).SignedNet() == if k in keys && s.Includes(k) then -NetAt(tb, k) else 0)
    && (forall c :: Sum(ps, s.EquityKey(c)).SignedNet() == if c in done then OffsetAt(offsets, c) else 0)
    && (forall c :: CurrencySum(ps, c).SignedNet() == if c in done then 0 else -OffsetAt(offsets, c))
    && (forall k :: k in Touched(ps) ==>
          (k in keys && s.Includes(k)) || (k == s.EquityKey(k.currency) && k.currency in done))
  }

  lemma EquityStarts(keys: seq<BalanceKey>, legs: seq<Posting>, offsets: map<Currency, int>, tb: TrialBalance, s: Scope)
    requires LegsFlatten(keys, tb, s, legs) && OffsetsMatch(keys, tb, s, legs, offsets)
    ensures EquityDone(keys, offsets, tb, s, {}, legs)
  {
    hide Sum, CurrencySum, Touched, Moved, AllPositive, OneEach;
  }

  lemma EquityNext(keys: seq<BalanceKey>, offsets: map<Currency, int>, tb: TrialBalance, s: Scope, done: set<Currency>, ps: seq<Posting>, c: Currency)
    requires EquityDone(keys, offsets, tb, s, done, ps) && c !in done
    requires I64_MIN < OffsetAt(offsets, c) <= I64_MAX
    ensures var net := OffsetAt(offsets, c);
      EquityDone(keys, offsets, tb, s, done + {c}, if net == 0 then ps else ps + [LegFor(s.EquityKey(c), -net)])
  {
    hide Sum, CurrencySum, Touched, AllPositive, LegFor, OneEach;
    if OffsetAt(offsets, c) != 0 {
      LegAppended(ps, s.EquityKey(c), -OffsetAt(offsets, c));
    }
  }

  /** Equity legs follow the legs in scope, one currency after another. */
  lemma EquityOrdered(keys: seq<BalanceKey>, offsets: map<Currency, int>, tb: TrialBalance, s: Scope,
    order: seq<BalanceKey>, n: nat, ps: seq<Posting>, net: i64)
    requires Ascending(order) && n < |order| && net > I64_MIN
    requires order[n] == s.EquityKey(order[n].currency)
    requires EquityDone(keys, offsets, tb, s, Visited(offsets, s, order[..n]), ps) && InOrder(ps, s)
    ensures InOrder(ps + [LegFor(order[n], net)], s)
  {
    hide Rank, Sum, CurrencySum, AllPositive, OneEach, InOrder;
    var leg := LegFor(order[n], net);
    assert leg.Key() == order[n];
    forall p | p in ps
      ensures Place(p, s) < Place(leg, s)
    {
      assert p.Key() in Touched(ps);
      RankBound(p.Key());
      if p.Key() == s.EquityKey(p.currency) {
        var m :| 0 <= m < n && order[m] == p.Key();
        assert Rank(order[m]) < Rank(order[n]);
      }
    }
    OrderNext(ps, leg, s);
  }

  lemma RankBound(k: BalanceKey)
    ensures Rank(k) < RANKS
  {
  }

  lemma VisitedNext(offsets: map<Currency, int>, s: Scope, order: seq<BalanceKey>, n: nat)
    requires n < |order| && Ascending(order) && order[n].currency in offsets && order[n] == s.EquityKey(order[n].currency)
    ensures order[n].currency !in Visited(offsets, s, order[..n])
    ensures Visited(offsets, s, order[..n + 1]) == Visited(offsets, s, order[..n]) + {order[n].currency}
  {
    hide Rank;
    assert order[..n + 1] == order[..n] + [order[n]];
    AscendingDistinct(order);
  }

  /** The second loop: one equity leg for every currency that is out, in currency order. */
  method EquityLegs(keys: seq<BalanceKey>, legs: seq<Posting>, offsets: map<Currency, int>, tb: TrialBalance, s: Scope)
    returns (ok: bool, ps: seq<Posting>)
    requires LegsFlatten(keys, tb, s, legs) && OffsetsMatch(keys, tb, s, legs, offsets)
    requires InOrder(legs, s) && forall c :: InRange(OffsetAt(offsets, c))
    ensures ok <==> forall c :: OffsetAt(offsets, c) != I64_MIN
    ensures ok ==> EquityDone(keys, offsets, tb, s, offsets.Keys, ps) && InOrder(ps, s)
    ensures offsets == map[] ==> ps == legs
  {
    hide LegsFlatten, OffsetsMatch, LegFor, EquityDone, SortedKeys, InOrder, Ascending;
    ps := legs;
    var pending := set c | c in offsets :: s.EquityKey(c);
    var order := SortKeys(pending);
    SortedKeysList(pending);
    EquityStarts(keys, legs, offsets, tb, s);
    assert Visited(offsets, s, order[..0]) == {};
    for n := 0 to |order|
      invariant EquityDone(keys, offsets, tb, s, Visited(offsets, s, order[..n]), ps) && InOrder(ps, s)
      invariant forall m :: 0 <= m < n ==> OffsetAt(offsets, order[m].currency) != I64_MIN
      invariant n == 0 ==> ps == legs
    {
      var c := order[n].currency;
      assert order[n] in pending;
      VisitedNext(offsets, s, order, n);
      var net := OffsetAt(offsets, c);
      if net == I64_MIN {
        return false, ps;
      }
      EquityNext(keys, offsets, tb, s, Visited(offsets, s, order[..n]), ps, c);
      if net != 0 {
        EquityOrdered(keys, offsets, tb, s, order, n, ps, -net);
        ps := ps + [LegFor(s.EquityKey(c), -net)];
      }
    }
    assert order[..|order|] == order;
    assert Visited(offsets, s, order) == offsets.Keys by {
      forall c | c in offsets
        ensures c in Visited(offsets, s, order)
      {
        assert s.EquityKey(c) in order;
      }
    }
    return true, ps;
  }

  /** The currencies whose equity key has been visited. */
  function Visited(offsets: map<Currency, int>, s: Scope, order: seq<BalanceKey>): set<Currency>
  {
    set c | c in offsets && s.EquityKey(c) in order
  }

  lemma {:induction false} ZeroNetsMoveNothing(keys: seq<BalanceKey>, tb: TrialBalance, s: Scope, c: Currency)
    requires forall k :: k in keys && s.Includes(k) ==> NetAt(tb, k) == 0
    ensures Moved(keys, tb, s, c) == 0
  {
    if keys != [] {
      assert keys[|keys| - 1] in keys;
      ZeroNetsMoveNothing(keys[..|keys| - 1], tb, s, c);
    }
  }

  lemma ZeroNetsFit(keys: seq<BalanceKey>, tb: TrialBalance, s: Scope)
    requires forall k :: k in keys && s.Includes(k) ==> NetAt(tb, k) == 0
    ensures SumsFit(keys, tb, s)
  {
    hide Moved;
    forall n, c | 0 <= n <= |keys|
      ensures Moved(keys[..n], tb, s, c) == 0
    {
      ZeroNetsMoveNothing(keys[..n], tb, s, c);
    }
    forall c
      ensures Moved(keys, tb, s, c) == 0
    {
      ZeroNetsMoveNothing(keys, tb, s, c);
    }
    assert forall n :: 0 <= n < |keys| ==> keys[n] in keys;
  }

  lemma EquityCloses(tb: TrialBalance, s: Scope, keys: seq<BalanceKey>, offsets: map<Currency, int>, ps: seq<Posting>)
    requires keys == SortedKeys(tb.Keys) && EquityDone(keys, offsets, tb, s, offsets.Keys, ps) && InOrder(ps, s)
    requires forall c :: OffsetAt(offsets, c) == Moved(keys, tb, s, c)
    ensures Closes(ps, tb, s)
  {
    hide Sum, CurrencySum, Touched, AllPositive, Moved, SortedKeys, OneEach, InOrder;
    SortedKeysList(tb.Keys);
    forall c
      ensures CurrencySum(ps, c).SignedNet() == 0
    {
      assert CurrencySum(ps, c).SignedNet() == if c in offsets.Keys then 0 else -OffsetAt(offsets, c);
    }
    forall k | k in tb && s.Includes(k)
      ensures Sum(ps, k).SignedNet() == -tb[k].SignedNet()
    {
      assert k != s.EquityKey(k.currency) && k in keys;
    }
  }

  /**
   Builds the closing postings. They are given exactly when the equity account is registered and
   outside the scope and every sum fits, in one order; when nothing in scope has a net there are none.
   */
  method ClosingPostings(tb: TrialBalance, s: Scope) returns (r: Result<seq<Posting>, ClosingError>)
    ensures s.equity >= |s.accounts| ==> r == Err(UnknownEquityAccount(s.equity))
    ensures s.equity < |s.accounts| && !s.Usable() ==> r == Err(EquityInScope(s.equity))
    ensures s.Usable() <==>
      s.equity < |s.accounts| && !(s.accounts[s.equity].kind.Some? && s.accounts[s.equity].kind.value in s.kinds)
    ensures s.Usable() ==>
      (r.Ok? <==> SumsFit(SortedKeys(tb.Keys), tb, s)) && (r.Err? ==> r.error == ClosingOverflow)
    ensures r.Ok? ==> s.Usable() && Closes(r.value, tb, s)
    ensures s.Usable() && (forall k :: k in tb && s.Includes(k) ==> tb[k].SignedNet() == 0) ==> r == Ok([])
  {
    hide LegsFlatten, OffsetsMatch, EquityDone, Closes, SortedKeys, Moved, InOrder, Ascending;
    if s.equity >= |s.accounts| {
      return Err(UnknownEquityAccount(s.equity));
    }
    if s.accounts[s.equity].kind.Some? && s.accounts[s.equity].kind.value in s.kinds {
      return Err(EquityInScope(s.equity));
    }
    var keys := SortKeys(tb.Keys);
    SortedKeysList(tb.Keys);
    if forall k :: k in keys && s.Includes(k) ==> NetAt(tb, k) == 0 {
      ZeroNetsFit(keys, tb, s);
    }
    var flat, legs, offsets := FlattenAll(keys, tb, s);
    if !flat {
      return Err(ClosingOverflow);
    }
    forall c
      ensures OffsetAt(offsets, c) == Moved(keys, tb, s, c) && InRange(OffsetAt(offsets, c))
    {
      OffsetIsMoved(keys, tb, s, legs, offsets, c);
      assert keys[..|keys|] == keys;
      assert InRange(Moved(keys[..|keys|], tb, s, c));
    }
    var done, ps := EquityLegs(keys, legs, offsets, tb, s);
    if !done {
      return Err(ClosingOverflow);
    }
    EquityCloses(tb, s, keys, offsets, ps);
    return Ok(ps);
  }

  /** Closing postings are none or at least two, since they balance: an entry of them has enough legs to be booked. */
  lemma ClosingHasLegs(ps: seq<Posting>, tb: TrialBalance, s: Scope)
    requires Closes(ps, tb, s) && ps != []
    ensures |ps| >= 2
  {
    hide Moved, SortedKeys, Sum, Touched, CurrencySum;
    assert ps[0] in ps;
    if |ps| == 1 {
      OneLegAlone(ps);
    }
  }

  lemma {:induction false} OnlyLeg(ps: seq<Posting>, i: nat)
    requires OneEach(ps) && i < |ps|
    ensures Sum(ps, ps[i].Key()) == ZERO.Added(ps[i].direction, ps[i].amount)
  {
    hide OneEach, Touched;
    var k := ps[i].Key();
    assert ps == ps[..i] + [ps[i]] + ps[i + 1..];
    OthersElsewhere(ps, i);
    SumAt(ps[..i], k);
    SumAt(ps[i + 1..], k);
    SumLast(ps[..i], ps[i], k);
    SumConcat(ps[..i] + [ps[i]], ps[i + 1..], k);
  }

  lemma OthersElsewhere(ps: seq<Posting>, i: nat)
    requires OneEach(ps) && i < |ps|
    ensures ps[i].Key() !in Touched(ps[..i]) && ps[i].Key() !in Touched(ps[i + 1..])
  {
  }

  /**
   The closing postings one by one: first those in scope in key order, each moving exactly the
   net of its row to the other side, then one to equity per currency, by code, for what moved.
   */
  lemma ClosingLegsAre(ps: seq<Posting>, tb: TrialBalance, s: Scope)
    requires Closes(ps, tb, s)
    ensures forall i :: 0 <= i < |ps| ==>
      ps[i].amount > 0 && ps[i].layer == s.layer && ps[i].dimensions == []
    ensures forall i :: 0 <= i < |ps| && ps[i].account != s.equity ==>
      ps[i].Key() in tb && s.Includes(ps[i].Key())
      && tb[ps[i].Key()].SignedNet() == if ps[i].direction == Credit then ps[i].amount else -ps[i].amount
    ensures forall i :: 0 <= i < |ps| && ps[i].account == s.equity ==>
      Moved(SortedKeys(tb.Keys), tb, s, ps[i].currency) == if ps[i].direction == Debit then ps[i].amount else -ps[i].amount
    ensures forall i, j :: 0 <= i < j < |ps| ==>
      if ps[i].account == s.equity
      then ps[j].account == s.equity && CurrencyRank(ps[i].currency) < CurrencyRank(ps[j].currency)
      else ps[j].account == s.equity || Rank(ps[i].Key()) < Rank(ps[j].Key())
  {
    hide CurrencySum, SortedKeys, Moved, Sum, OneEach, Rank, Touched, InOrder, CurrencyRank, Scope.Includes;
    forall i | 0 <= i < |ps|
      ensures LegStands(ps[i], tb, s)
    {
      LegIsNet(ps, tb, s, i);
    }
    forall i, j | 0 <= i < j < |ps|
      ensures LegsOrdered(ps[i], ps[j], s)
    {
      LegPlaces(ps, tb, s, i, j);
    }
  }

  /** A leg in scope moves its row's net, and a leg on equity what was moved in its currency. */
  ghost predicate LegStands(leg: Posting, tb: TrialBalance, s: Scope)
  {
    && leg.amount > 0 && leg.layer == s.layer && leg.dimensions == []
    && (leg.account != s.equity ==>
          leg.Key() in tb && s.Includes(leg.Key())
          && tb[leg.Key()].SignedNet() == if leg.direction == Credit then leg.amount else -leg.amount)
    && (leg.account == s.equity ==>
          Moved(SortedKeys(tb.Keys), tb, s, leg.currency) == if leg.direction == Debit then leg.amount else -leg.amount)
  }

  ghost predicate LegsOrdered(a: Posting, b: Posting, s: Scope)
  {
    if a.account == s.equity
    then b.account == s.equity && CurrencyRank(a.currency) < CurrencyRank(b.currency)
    else b.account == s.equity || Rank(a.Key()) < Rank(b.Key())
  }

  lemma LegIsNet(ps: seq<Posting>, tb: TrialBalance, s: Scope, i: nat)
    requires Closes(ps, tb, s) && i < |ps|
    ensures LegStands(ps[i], tb, s)
  {
    hide CurrencySum, SortedKeys, Moved, Sum;
    assert ps[i] in ps && ps[i].Key() in Touched(ps);
    OnlyLeg(ps, i);
  }

  lemma LegPlaces(ps: seq<Posting>, tb: TrialBalance, s: Scope, i: nat, j: nat)
    requires Closes(ps, tb, s) && i < j < |ps|
    ensures LegsOrdered(ps[i], ps[j], s)
  {
    hide CurrencySum, SortedKeys, Moved, Sum, OneEach, Rank;
    assert ps[i] in ps && ps[j] in ps && ps[i].Key() in Touched(ps) && ps[j].Key() in Touched(ps);
    RankBound(ps[i].Key());
    RankBound(ps[j].Key());
    RankOrders(ps[i].Key(), ps[j].Key());
  }

  lemma OneLegAlone(ps: seq<Posting>)
    requires |ps| == 1 && ps[0].amount > 0
    ensures CurrencySum(ps, ps[0].currency).debits != CurrencySum(ps, ps[0].currency).credits
  {
    assert ps[..0] == [];
  }

  lemma TrialRow(ps: seq<Posting>, k: BalanceKey)
    ensures k in TrialOf(ps) <==> k in Touched(ps)
    ensures k in TrialOf(ps) ==> TrialOf(ps)[k] == Sum(ps, k)
  {
  }

  lemma ClosesAt(ps: seq<Posting>, tb: TrialBalance, s: Scope, k: BalanceKey)
    requires Closes(ps, tb, s)
    ensures k in tb && s.Includes(k) ==> Sum(ps, k).SignedNet() == -tb[k].SignedNet()
    ensures k in Touched(ps) ==> (k in tb && s.Includes(k)) || k == s.EquityKey(k.currency)
  {
    hide Moved, CurrencySum, SortedKeys, Sum, AllPositive, Touched;
  }

  lemma NetConcat(ps: seq<Posting>, qs: seq<Posting>, k: BalanceKey)
    ensures Sum(ps + qs, k).SignedNet() == Sum(ps, k).SignedNet() + Sum(qs, k).SignedNet()
    ensures k !in Touched(qs) ==> Sum(ps + qs, k) == Sum(ps, k)
  {
    hide Sum, Touched;
    SumConcat(ps, qs, k);
    SumAt(qs, k);
    NetAdds(Sum(ps, k), Sum(qs, k), Sum(ps + qs, k));
  }

  lemma NetAdds(a: Balance, b: Balance, total: Balance)
    requires total.debits == a.debits + b.debits && total.credits == a.credits + b.credits
    ensures total.SignedNet() == a.SignedNet() + b.SignedNet()
    ensures b == ZERO ==> total == a
  {
  }

  lemma RowCancelled(before: seq<Posting>, ps: seq<Posting>, s: Scope, k: BalanceKey)
    requires Closes(ps, TrialOf(before), s) && s.Includes(k) && k in TrialOf(before)
    ensures Sum(ps, k).SignedNet() == -Sum(before, k).SignedNet()
  {
    hide Closes, Sum, Touched, TrialOf, Scope.Includes;
    ClosesAt(ps, TrialOf(before), s, k);
    TrialRow(before, k);
  }

  lemma NoRowNoLeg(before: seq<Posting>, ps: seq<Posting>, s: Scope, k: BalanceKey)
    requires Closes(ps, TrialOf(before), s) && s.Includes(k) && k !in TrialOf(before)
    ensures Sum(ps, k) == ZERO && Sum(before, k) == ZERO
  {
    hide Closes, Sum, Touched, TrialOf;
    ClosesAt(ps, TrialOf(before), s, k);
    assert k != s.EquityKey(k.currency);
    SumAt(ps, k);
    TrialRow(before, k);
    SumAt(before, k);
  }

  /** The closing legs of a key in scope cancel its net; one without a row has neither. */
  lemma LegsCancel(before: seq<Posting>, ps: seq<Posting>, s: Scope, k: BalanceKey)
    requires Closes(ps, TrialOf(before), s) && s.Includes(k)
    ensures Sum(ps, k).SignedNet() == -Sum(before, k).SignedNet()
  {
    hide Closes, Sum, Touched, TrialOf, Scope.Includes;
    if k in TrialOf(before) {
      RowCancelled(before, ps, s, k);
    } else {
      NoRowNoLeg(before, ps, s, k);
    }
  }

  lemma ClosingAt(before: seq<Posting>, ps: seq<Posting>, s: Scope, k: BalanceKey)
    requires Closes(ps, TrialOf(before), s)
    ensures Sum(before + ps, k).SignedNet() == Sum(before, k).SignedNet() + Sum(ps, k).SignedNet()
    ensures s.Includes(k) ==> Sum(before + ps, k).SignedNet() == 0
    ensures !s.Includes(k) && k != s.EquityKey(k.currency) ==> Sum(before + ps, k) == Sum(before, k)
  {
    hide Closes, Sum, Touched, TrialOf, Scope.Includes, Scope.EquityKey;
    NetConcat(before, ps, k);
    ClosesAt(ps, TrialOf(before), s, k);
    if s.Includes(k) {
      LegsCancel(before, ps, s, k);
    }
  }

  lemma SumAt(ps: seq<Posting>, k: BalanceKey)
    ensures k !in Touched(ps) ==> Sum(ps, k) == ZERO
  {
    if k !in Touched(ps) {
      SumUntouched(ps, k);
    }
  }

  lemma EquityGains(before: seq<Posting>, ps: seq<Posting>, s: Scope, c: Currency)
    requires Closes(ps, TrialOf(before), s)
    ensures Sum(ps, s.EquityKey(c)).SignedNet() == Moved(SortedKeys(TrialOf(before).Keys), TrialOf(before), s, c)
  {
    hide Moved, CurrencySum, SortedKeys, Sum, AllPositive, TrialOf, Touched;
  }

  /**
   Booking the closing postings of some books: every key in scope nets to zero, equity takes
   over the summed net, no other key moves, and a second run finds nothing to close.
   */
  lemma ClosingFlattens(before: seq<Posting>, ps: seq<Posting>, s: Scope)
    requires Closes(ps, TrialOf(before), s)
    ensures forall k :: s.Includes(k) ==> Sum(before + ps, k).SignedNet() == 0
    ensures forall k :: k in TrialOf(before + ps) && s.Includes(k) ==> TrialOf(before + ps)[k].SignedNet() == 0
    ensures forall c ::
      Sum(before + ps, s.EquityKey(c)).SignedNet()
        == Sum(before, s.EquityKey(c)).SignedNet() + Moved(SortedKeys(TrialOf(before).Keys), TrialOf(before), s, c)
    ensures forall k: BalanceKey :: !s.Includes(k) && k != s.EquityKey(k.currency) ==>
      Sum(before + ps, k) == Sum(before, k)
  {
    hide Moved, SortedKeys, Sum, Closes, Touched;
    forall k: BalanceKey
      ensures s.Includes(k) ==> Sum(before + ps, k).SignedNet() == 0
      ensures !s.Includes(k) && k != s.EquityKey(k.currency) ==> Sum(before + ps, k) == Sum(before, k)
    {
      ClosingAt(before, ps, s, k);
    }
    forall c
      ensures Sum(before + ps, s.EquityKey(c)).SignedNet()
        == Sum(before, s.EquityKey(c)).SignedNet() + Moved(SortedKeys(TrialOf(before).Keys), TrialOf(before), s, c)
    {
      ClosingAt(before, ps, s, s.EquityKey(c));
      EquityGains(before, ps, s, c);
    }
  }
}

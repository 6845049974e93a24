/**
 Validating an entry against the accounts, the calendar and the policy.

 `Violates` says which violations an entry has. The validator must report all of them
 and nothing else, so an entry passes exactly when it has none.
 */
module Validation {
  import opened Wrappers
  import opened Dates
  import opened Entries
  import opened Periods
  import opened Accounts
  import opened Books
  import opened Seals

  const MAX_POSTINGS: nat := 0x7FFF

  datatype LedgerPolicy = LedgerPolicy(
    currency: Option<Currency>, requiredDimensions: seq<Label>, maxValueDateDrift: Option<int>)

  /** What validation consults, as plain values. */
  datatype Context = Context(accounts: Chart, calendar: Calendar, policy: LedgerPolicy, scale: byte)

  datatype ValidationError =
    | TooFewPostings(count: nat)
    | TooManyPostings(count: nat)
    | ZeroAmount(index: nat)
    | NegativeAmount(index: nat)
    | UnregisteredAccount(index: nat, account: u32)
    | NonLeafAccount(index: nat, account: u32)
    | AccountNotOpen(index: nat, account: u32, on: Date)
    | Unbalanced(currency: Currency, debits: int, credits: int, difference: i64, scale: byte)
    | ClosedPeriod(on: Date, state: PeriodState)
    | CurrencyNotAllowed(currency: Currency)
    | MissingDimension(index: nat, axis: Label)
    | ValueDateDrift(booking: Date, value: Date, maxDays: int)
    | Overflow(currency: Currency)

  function Abs(n: int): nat { if n < 0 then -n else n }

  predicate HasAxis(d: Dimensions, axis: Label)
  {
    exists i :: 0 <= i < |d| && d[i].0 == axis
  }

  function Clamped(n: int): i64
  {
    if n > I64_MAX then I64_MAX else if n < I64_MIN then I64_MIN else n
  }

  /** Gross totals of one currency, leaving out any posting that would overflow them. */
  function RunTotal(ps: seq<Posting>, c: Currency): (b: Balance)
    ensures b.Fits()
  {
    if ps == [] then ZERO
    else
      var p := ps[|ps| - 1];
      var before := RunTotal(ps[..|ps| - 1], c);
      var next := before.Added(p.direction, p.amount);
      if p.currency == c && next.Fits() then next else before
  }

  predicate Overflows(ps: seq<Posting>, i: nat)
    requires i < |ps|
  {
    !RunTotal(ps[..i], ps[i].currency).Added(ps[i].direction, ps[i].amount).Fits()
  }

  function Currencies(ps: seq<Posting>): set<Currency>
  {
    set p | p in ps :: p.currency
  }

  /** What is wrong with posting i on its own. */
  ghost predicate PostingViolates(v: ValidationError, e: Entry, ctx: Context, i: nat)
    requires i < |e.postings|
  {
    var p := e.postings[i];
    match v
    case ZeroAmount(j) => j == i && p.amount == 0
    case NegativeAmount(j) => j == i && p.amount < 0
    case UnregisteredAccount(j, a) => j == i && a == p.account && a >= |ctx.accounts|
    case NonLeafAccount(j, a) => j == i && a == p.account && a < |ctx.accounts| && !IsLeaf(ctx.accounts, a)
    case AccountNotOpen(j, a, on) => j == i && a == p.account && a < |ctx.accounts|
      && on == e.bookingDate && !ctx.accounts[a].IsOpenOn(on)
    case CurrencyNotAllowed(c) => c == p.currency && ctx.policy.currency.Some? && c != ctx.policy.currency.value
    case MissingDimension(j, axis) => j == i && axis in ctx.policy.requiredDimensions && !HasAxis(p.dimensions, axis)
    case _ => false
  }

  /** What is wrong with the entry as a whole. */
  ghost predicate EntryViolates(v: ValidationError, e: Entry, ctx: Context)
  {
    match v
    case TooFewPostings(n) => n == |e.postings| && n < 2
    case TooManyPostings(n) => n == |e.postings| && n > MAX_POSTINGS
    case Unbalanced(c, d, cr, difference, scale) => c in Currencies(e.postings)
      && RunTotal(e.postings, c) == Balance(d, cr) && d != cr && difference == Clamped(d - cr) && scale == ctx.scale
    case ClosedPeriod(on, state) => on == e.bookingDate && state == ctx.calendar.StateOn(on) && state != Open
    case ValueDateDrift(b, v, max) => b == e.bookingDate && v == e.valueDate
      && ctx.policy.maxValueDateDrift == Some(max) && Abs(JulianDay(v) - JulianDay(b)) > max
    case _ => false
  }

  ghost predicate OverflowAt(v: ValidationError, e: Entry, i: nat)
    requires i < |e.postings|
  {
    v == Overflow(e.postings[i].currency) && Overflows(e.postings, i)
  }

  ghost predicate Violates(v: ValidationError, e: Entry, ctx: Context)
  {
    || EntryViolates(v, e, ctx)
    || exists i :: 0 <= i < |e.postings| && (PostingViolates(v, e, ctx, i) || OverflowAt(v, e, i))
  }

  /** An entry with nothing wrong. */
  ghost predicate Passes(e: Entry, ctx: Context)
  {
    forall v :: !Violates(v, e, ctx)
  }

  // -------------------------------------------------------------- consequences

  function CurrencySum(ps: seq<Posting>, c: Currency): Balance
  {
    if ps == [] then ZERO
    else
      var p := ps[|ps| - 1];
      var before := CurrencySum(ps[..|ps| - 1], c);
      if p.currency == c then before.Added(p.direction, p.amount) else before
  }

  lemma {:induction false} NoOverflowMeansExact(ps: seq<Posting>, n: nat, c: Currency)
    requires n <= |ps| && forall i :: 0 <= i < n ==> !Overflows(ps, i)
    ensures RunTotal(ps[..n], c) == CurrencySum(ps[..n], c)
  {
    if n > 0 {
      assert ps[..n][..n - 1] == ps[..n - 1];
      NoOverflowMeansExact(ps, n - 1, c);
      assert !Overflows(ps, n - 1);
    }
  }

  lemma {:induction false} CurrencySumAbsent(ps: seq<Posting>, c: Currency)
    requires c !in Currencies(ps)
    ensures CurrencySum(ps, c) == ZERO
  {
    if ps != [] {
      assert ps[|ps| - 1] in ps;
      assert Currencies(ps[..|ps| - 1]) <= Currencies(ps);
      CurrencySumAbsent(ps[..|ps| - 1], c);
    }
  }

  /** What an entry that is balanced in itself satisfies, whatever the context. */
  ghost predicate WellBalanced(e: Entry)
  {
    && 2 <= |e.postings| <= MAX_POSTINGS
    && AllPositive(e.postings)
    && forall c :: CurrencySum(e.postings, c).debits == CurrencySum(e.postings, c).credits
  }

  /** A passing entry is double-entry: two legs, positive amounts, every currency balanced. */
  lemma PassingIsBalanced(e: Entry, ctx: Context)
    requires Passes(e, ctx)
    ensures WellBalanced(e)
  {
    var ps := e.postings;
    assert !Violates(TooFewPostings(|ps|), e, ctx) && !Violates(TooManyPostings(|ps|), e, ctx);
    forall i | 0 <= i < |ps|
      ensures ps[i].amount > 0 && !Overflows(ps, i)
    {
      assert !Violates(ZeroAmount(i), e, ctx) && !Violates(NegativeAmount(i), e, ctx);
      assert !PostingViolates(ZeroAmount(i), e, ctx, i) && !PostingViolates(NegativeAmount(i), e, ctx, i);
      assert !Violates(Overflow(ps[i].currency), e, ctx);
      assert !OverflowAt(Overflow(ps[i].currency), e, i);
    }
    forall c
      ensures CurrencySum(ps, c).debits == CurrencySum(ps, c).credits
    {
      if c in Currencies(ps) {
        assert ps[..|ps|] == ps;
        NoOverflowMeansExact(ps, |ps|, c);
        var b := RunTotal(ps, c);
        assert !Violates(Unbalanced(c, b.debits, b.credits, Clamped(b.debits - b.credits), ctx.scale), e, ctx);
      } else {
        CurrencySumAbsent(ps, c);
      }
    }
  }

  /** A passing entry books leaf accounts between the days they opened and closed, past the watermark. */
  lemma PassingIsInContext(e: Entry, ctx: Context)
    requires Passes(e, ctx)
    ensures ctx.calendar.StateOn(e.bookingDate) == Open && !ctx.calendar.FrozenOn(e.bookingDate)
    ensures forall p :: p in e.postings ==>
      p.account < |ctx.accounts| && IsLeaf(ctx.accounts, p.account)
      && ctx.accounts[p.account].openedOn <= e.bookingDate
      && (ctx.accounts[p.account].closedOn.Some? ==> e.bookingDate <= ctx.accounts[p.account].closedOn.value)
  {
    assert !Violates(ClosedPeriod(e.bookingDate, ctx.calendar.StateOn(e.bookingDate)), e, ctx);
    forall p | p in e.postings
      ensures p.account < |ctx.accounts| && IsLeaf(ctx.accounts, p.account)
        && ctx.accounts[p.account].IsOpenOn(e.bookingDate)
    {
      var i :| 0 <= i < |e.postings| && e.postings[i] == p;
      var unknown := UnregisteredAccount(i, p.account);
      var inner := NonLeafAccount(i, p.account);
      var closedThen := AccountNotOpen(i, p.account, e.bookingDate);
      assert !Violates(unknown, e, ctx) && !PostingViolates(unknown, e, ctx, i);
      assert !Violates(inner, e, ctx) && !PostingViolates(inner, e, ctx, i);
      assert !Violates(closedThen, e, ctx) && !PostingViolates(closedThen, e, ctx, i);
    }
  }

  /** The difference reported for an unbalanced currency is exact, and names the side that is short by its sign. */
  lemma DifferenceIsExact(v: ValidationError, e: Entry, ctx: Context)
    requires v.Unbalanced? && Violates(v, e, ctx) && AllPositive(e.postings)
    ensures RunTotal(e.postings, v.currency) == Balance(v.debits, v.credits)
    ensures v.difference == v.debits - v.credits != 0 && v.scale == ctx.scale
  {
    hide RunTotal;
    assert EntryViolates(v, e, ctx);
    RunTotalPositive(e.postings, v.currency);
  }

  lemma {:induction false} RunTotalPositive(ps: seq<Posting>, c: Currency)
    requires AllPositive(ps)
    ensures RunTotal(ps, c).debits >= 0 && RunTotal(ps, c).credits >= 0
  {
    if ps != [] {
      assert ps[|ps| - 1] in ps;
      RunTotalPositive(ps[..|ps| - 1], c);
    }
  }

  // -------------------------------------------------- what passing amounts to

  lemma {:induction false} CurrencySumPrefix(ps: seq<Posting>, n: nat, c: Currency)
    requires AllPositive(ps) && n <= |ps|
    ensures 0 <= CurrencySum(ps[..n], c).debits <= CurrencySum(ps, c).debits
    ensures 0 <= CurrencySum(ps[..n], c).credits <= CurrencySum(ps, c).credits
  {
    if n < |ps| {
      var front := ps[..|ps| - 1];
      assert ps[|ps| - 1] in ps;
      assert front[..n] == ps[..n];
      CurrencySumPrefix(front, n, c);
    } else if n > 0 {
      assert ps[n - 1] in ps;
      assert ps[..n] == ps;
      CurrencySumPrefix(ps[..n - 1], n - 1, c);
    }
  }

  /** Positive amounts whose totals fit never overflow on the way to them. */
  lemma {:induction false} FittingNeverOverflows(ps: seq<Posting>, n: nat)
    requires AllPositive(ps) && n <= |ps| && TotalsFit(ps)
    ensures forall i :: 0 <= i < n ==> !Overflows(ps, i)
  {
    if n > 0 {
      var k := n - 1;
      var c := ps[k].currency;
      FittingNeverOverflows(ps, k);
      NoOverflowMeansExact(ps, k, c);
      CurrencySumPrefix(ps, n, c);
      assert CurrencySum(ps, c).Fits();
      assert ps[..n][..k] == ps[..k];
    }
  }

  lemma TotalIsExact(ps: seq<Posting>, c: Currency)
    requires forall i :: 0 <= i < |ps| ==> !Overflows(ps, i)
    ensures RunTotal(ps, c) == CurrencySum(ps, c) && CurrencySum(ps, c).Fits()
  {
    assert ps[..|ps|] == ps;
    NoOverflowMeansExact(ps, |ps|, c);
  }

  ghost predicate TotalsFit(ps: seq<Posting>)
  {
    forall c :: CurrencySum(ps, c).Fits()
  }

  /** No currency overflows exactly when every currency's totals fit. */
  lemma FittingIs(ps: seq<Posting>)
    requires AllPositive(ps)
    ensures (forall i :: 0 <= i < |ps| ==> !Overflows(ps, i)) <==> TotalsFit(ps)
  {
    hide Overflows;
    if forall i :: 0 <= i < |ps| ==> !Overflows(ps, i) {
      forall c
        ensures CurrencySum(ps, c).Fits()
      {
        TotalIsExact(ps, c);
      }
    } else if TotalsFit(ps) {
      FittingNeverOverflows(ps, |ps|);
    }
  }

  ghost predicate RunsBalance(ps: seq<Posting>)
  {
    forall c :: c in Currencies(ps) ==> RunTotal(ps, c).debits == RunTotal(ps, c).credits
  }

  ghost predicate SumsBalance(ps: seq<Posting>)
  {
    forall c :: CurrencySum(ps, c).debits == CurrencySum(ps, c).credits
  }

  /** Then the running totals balance exactly when the sums do. */
  lemma BalancedIs(ps: seq<Posting>)
    requires forall i :: 0 <= i < |ps| ==> !Overflows(ps, i)
    ensures RunsBalance(ps) <==> SumsBalance(ps)
  {
    hide Overflows, Currencies;
    if RunsBalance(ps) {
      forall c
        ensures CurrencySum(ps, c).debits == CurrencySum(ps, c).credits
      {
        TotalIsExact(ps, c);
        if c !in Currencies(ps) {
          CurrencySumAbsent(ps, c);
        }
      }
    }
    if SumsBalance(ps) {
      forall c | c in Currencies(ps)
        ensures RunTotal(ps, c).debits == RunTotal(ps, c).credits
      {
        TotalIsExact(ps, c);
        assert CurrencySum(ps, c).debits == CurrencySum(ps, c).credits;
      }
    }
  }

  /** A positive amount to a leaf that is open on the day, in the ledger's currency and with every axis required. */
  ghost predicate PostingInOrder(p: Posting, on: Date, ctx: Context)
  {
    && p.amount > 0 && p.account < |ctx.accounts| && IsLeaf(ctx.accounts, p.account)
    && ctx.accounts[p.account].openedOn <= on
    && (ctx.accounts[p.account].closedOn.Some? ==> on <= ctx.accounts[p.account].closedOn.value)
    && (ctx.policy.currency.Some? ==> p.currency == ctx.policy.currency.value)
    && forall axis :: axis in ctx.policy.requiredDimensions ==> exists d :: d in p.dimensions && d.0 == axis
  }

  lemma PostingPasses(e: Entry, ctx: Context, i: nat)
    requires i < |e.postings|
    ensures (forall v :: !PostingViolates(v, e, ctx, i)) <==> PostingInOrder(e.postings[i], e.bookingDate, ctx)
    ensures PostingInOrder(e.postings[i], e.bookingDate, ctx) <==>
      var p := e.postings[i];
      && p.amount > 0 && p.account < |ctx.accounts| && IsLeaf(ctx.accounts, p.account)
      && ctx.accounts[p.account].openedOn <= e.bookingDate
      && (ctx.accounts[p.account].closedOn.Some? ==> e.bookingDate <= ctx.accounts[p.account].closedOn.value)
      && (ctx.policy.currency.Some? ==> p.currency == ctx.policy.currency.value)
      && forall axis :: axis in ctx.policy.requiredDimensions ==> exists d :: d in p.dimensions && d.0 == axis
  {
    hide IsLeaf;
    var p := e.postings[i];
    forall axis
      ensures HasAxis(p.dimensions, axis) <==> exists d :: d in p.dimensions && d.0 == axis
    {
      HasAxisIs(p.dimensions, axis);
    }
    if forall v :: !PostingViolates(v, e, ctx, i) {
      assert !PostingViolates(ZeroAmount(i), e, ctx, i) && !PostingViolates(NegativeAmount(i), e, ctx, i);
      assert !PostingViolates(UnregisteredAccount(i, p.account), e, ctx, i);
      assert !PostingViolates(NonLeafAccount(i, p.account), e, ctx, i);
      assert !PostingViolates(AccountNotOpen(i, p.account, e.bookingDate), e, ctx, i);
      assert !PostingViolates(CurrencyNotAllowed(p.currency), e, ctx, i);
      forall axis | axis in ctx.policy.requiredDimensions
        ensures HasAxis(p.dimensions, axis)
      {
        assert !PostingViolates(MissingDimension(i, axis), e, ctx, i);
      }
    }
  }

  lemma PostingsPass(e: Entry, ctx: Context)
    ensures (forall v, i :: 0 <= i < |e.postings| ==> !PostingViolates(v, e, ctx, i)) <==>
      forall p :: p in e.postings ==> PostingInOrder(p, e.bookingDate, ctx)
    ensures (forall p :: p in e.postings ==> PostingInOrder(p, e.bookingDate, ctx)) ==> AllPositive(e.postings)
  {
    hide PostingViolates, PostingInOrder;
    if forall v, i :: 0 <= i < |e.postings| ==> !PostingViolates(v, e, ctx, i) {
      forall p | p in e.postings
        ensures PostingInOrder(p, e.bookingDate, ctx)
      {
        var i :| 0 <= i < |e.postings| && e.postings[i] == p;
        PostingPasses(e, ctx, i);
      }
    }
    if forall p :: p in e.postings ==> PostingInOrder(p, e.bookingDate, ctx) {
      forall v, i | 0 <= i < |e.postings|
        ensures !PostingViolates(v, e, ctx, i)
      {
        assert e.postings[i] in e.postings;
        PostingPasses(e, ctx, i);
      }
      forall p | p in e.postings
        ensures p.amount > 0
      {
        var i :| 0 <= i < |e.postings| && e.postings[i] == p;
        PostingPasses(e, ctx, i);
      }
    }
  }

  lemma HasAxisIs(d: Dimensions, axis: Label)
    ensures HasAxis(d, axis) <==> exists pair :: pair in d && pair.0 == axis
  {
  }

  lemma EntryPasses(e: Entry, ctx: Context)
    ensures (forall v :: !EntryViolates(v, e, ctx)) <==>
      && 2 <= |e.postings| <= 32767
      && RunsBalance(e.postings)
      && ctx.calendar.StateOn(e.bookingDate) == Open
      && (ctx.policy.maxValueDateDrift.Some? ==>
            var max := ctx.policy.maxValueDateDrift.value;
            -max <= JulianDay(e.valueDate) - JulianDay(e.bookingDate) <= max)
  {
    hide RunTotal, JulianDay, Calendar.StateOn, Currencies, Clamped;
    if forall v :: !EntryViolates(v, e, ctx) {
      var n := |e.postings|;
      assert !EntryViolates(TooFewPostings(n), e, ctx) && !EntryViolates(TooManyPostings(n), e, ctx);
      assert !EntryViolates(ClosedPeriod(e.bookingDate, ctx.calendar.StateOn(e.bookingDate)), e, ctx);
      forall c | c in Currencies(e.postings)
        ensures RunTotal(e.postings, c).debits == RunTotal(e.postings, c).credits
      {
        var b := RunTotal(e.postings, c);
        assert !EntryViolates(Unbalanced(c, b.debits, b.credits, Clamped(b.debits - b.credits), ctx.scale), e, ctx);
      }
      if ctx.policy.maxValueDateDrift.Some? {
        assert !EntryViolates(ValueDateDrift(e.bookingDate, e.valueDate, ctx.policy.maxValueDateDrift.value), e, ctx);
      }
    }
  }

  lemma PassesInParts(e: Entry, ctx: Context)
    ensures Passes(e, ctx) <==>
      && (forall v :: !EntryViolates(v, e, ctx))
      && (forall v, i :: 0 <= i < |e.postings| ==> !PostingViolates(v, e, ctx, i))
      && (forall i :: 0 <= i < |e.postings| ==> !Overflows(e.postings, i))
  {
    hide EntryViolates, PostingViolates, Overflows;
    if Passes(e, ctx) {
      forall v
        ensures !EntryViolates(v, e, ctx)
      {
        assert !Violates(v, e, ctx);
      }
      forall v, i | 0 <= i < |e.postings|
        ensures !PostingViolates(v, e, ctx, i)
      {
        assert !Violates(v, e, ctx);
      }
      forall i | 0 <= i < |e.postings|
        ensures !Overflows(e.postings, i)
      {
        assert !Violates(Overflow(e.postings[i].currency), e, ctx);
        assert !OverflowAt(Overflow(e.postings[i].currency), e, i);
      }
    }
  }

  /**
   An entry passes exactly when it has at least two postings and no more than a 16-bit count
   holds, each of a positive amount to a leaf open that day, in the ledger's currency and with
   every axis required, every currency balances and fits, its period is open, and its value date
   is near enough.
   */
  lemma PassesExactly(e: Entry, ctx: Context)
    ensures Passes(e, ctx) <==>
      && 2 <= |e.postings| <= 32767
      && (forall p :: p in e.postings ==> PostingInOrder(p, e.bookingDate, ctx))
      && TotalsFit(e.postings)
      && SumsBalance(e.postings)
      && ctx.calendar.StateOn(e.bookingDate) == Open
      && (ctx.policy.maxValueDateDrift.Some? ==>
            var max := ctx.policy.maxValueDateDrift.value;
            -max <= JulianDay(e.valueDate) - JulianDay(e.bookingDate) <= max)
  {
    hide Passes, EntryViolates, PostingViolates, PostingInOrder, Overflows, TotalsFit, Currencies, Calendar.StateOn, JulianDay;
    PassesInParts(e, ctx);
    EntryPasses(e, ctx);
    PostingsPass(e, ctx);
    if AllPositive(e.postings) {
      FittingIs(e.postings);
      if forall i :: 0 <= i < |e.postings| ==> !Overflows(e.postings, i) {
        BalancedIs(e.postings);
      }
    }
  }

  // ------------------------------------------------------------- the validator

  function When(fault: bool, v: ValidationError): seq<ValidationError>
  {
    if fault then [v] else []
  }

  /** Each required axis the posting lacks, in the policy's order. */
  function AxisErrors(d: Dimensions, required: seq<Label>, i: nat): seq<ValidationError>
  {
    if required == [] then []
    else
      var axis := required[|required| - 1];
      AxisErrors(d, required[..|required| - 1], i) + When(!HasAxis(d, axis), MissingDimension(i, axis))
  }

  ghost function AccountErrors(e: Entry, ctx: Context, i: nat): seq<ValidationError>
    requires i < |e.postings|
  {
    var id := e.postings[i].account;
    if id >= |ctx.accounts| then [UnregisteredAccount(i, id)]
    else
      When(!IsLeaf(ctx.accounts, id), NonLeafAccount(i, id))
      + When(!ctx.accounts[id].IsOpenOn(e.bookingDate), AccountNotOpen(i, id, e.bookingDate))
  }

  ghost function PostingErrors(e: Entry, ctx: Context, i: nat): seq<ValidationError>
    requires i < |e.postings|
  {
    var p := e.postings[i];
    When(p.amount == 0, ZeroAmount(i)) + When(p.amount < 0, NegativeAmount(i))
    + AccountErrors(e, ctx, i)
    + When(ctx.policy.currency.Some? && p.currency != ctx.policy.currency.value, CurrencyNotAllowed(p.currency))
    + AxisErrors(p.dimensions, ctx.policy.requiredDimensions, i)
  }

  /** The first `n` postings' errors, each posting's overflow after its own. */
  ghost function PostingsErrors(e: Entry, ctx: Context, n: nat): seq<ValidationError>
    requires n <= |e.postings|
  {
    if n == 0 then []
    else
      PostingsErrors(e, ctx, n - 1) + PostingErrors(e, ctx, n - 1)
      + When(Overflows(e.postings, n - 1), Overflow(e.postings[n - 1].currency))
  }

  function CurrencyErrors(ps: seq<Posting>, scale: byte, order: seq<Currency>): seq<ValidationError>
  {
    if order == [] then []
    else
      var c := order[|order| - 1];
      var b := RunTotal(ps, c);
      CurrencyErrors(ps, scale, order[..|order| - 1])
      + When(b.debits != b.credits, Unbalanced(c, b.debits, b.credits, Clamped(b.debits - b.credits), scale))
  }

  function CountErrors(e: Entry): seq<ValidationError>
  {
    When(|e.postings| < 2, TooFewPostings(|e.postings|)) + When(|e.postings| > MAX_POSTINGS, TooManyPostings(|e.postings|))
  }

  function DriftErrors(e: Entry, policy: LedgerPolicy): seq<ValidationError>
  {
    match policy.maxValueDateDrift
    case None => []
    case Some(max) => When(Abs(JulianDay(e.valueDate) - JulianDay(e.bookingDate)) > max,
      ValueDateDrift(e.bookingDate, e.valueDate, max))
  }

  ghost function PeriodErrors(on: Date, calendar: Calendar): seq<ValidationError>
  {
    When(calendar.StateOn(on) != Open, ClosedPeriod(on, calendar.StateOn(on)))
  }

  /** Every error in the order it is reported: posting by posting, then currency by currency in code order. */
  ghost function ErrorsOf(e: Entry, ctx: Context): seq<ValidationError>
  {
    CountErrors(e) + PostingsErrors(e, ctx, |e.postings|)
    + CurrencyErrors(e.postings, ctx.scale, SortedCurrencies(Currencies(e.postings)))
    + PeriodErrors(e.bookingDate, ctx.calendar) + DriftErrors(e, ctx.policy)
  }

  lemma {:induction false} AxisErrorsExact(v: ValidationError, d: Dimensions, required: seq<Label>, i: nat)
    ensures v in AxisErrors(d, required, i) <==>
      v.MissingDimension? && v.index == i && v.axis in required && !HasAxis(d, v.axis)
  {
    hide HasAxis;
    if required != [] {
      AxisErrorsExact(v, d, required[..|required| - 1], i);
      assert required == required[..|required| - 1] + [required[|required| - 1]];
    }
  }

  lemma AccountErrorsExact(v: ValidationError, e: Entry, ctx: Context, i: nat)
    requires i < |e.postings|
    ensures v in AccountErrors(e, ctx, i) <==>
      (v.UnregisteredAccount? || v.NonLeafAccount? || v.AccountNotOpen?) && PostingViolates(v, e, ctx, i)
  {
    hide IsLeaf, HasAxis, Account.IsOpenOn;
  }

  /** Which checks report an error of a posting. */
  lemma PostingErrorsAre(v: ValidationError, e: Entry, ctx: Context, i: nat)
    requires i < |e.postings|
    ensures var p := e.postings[i];
      v in PostingErrors(e, ctx, i) <==>
        || (p.amount == 0 && v == ZeroAmount(i)) || (p.amount < 0 && v == NegativeAmount(i))
        || v in AccountErrors(e, ctx, i)
        || (ctx.policy.currency.Some? && p.currency != ctx.policy.currency.value && v == CurrencyNotAllowed(p.currency))
        || v in AxisErrors(p.dimensions, ctx.policy.requiredDimensions, i)
  {
    hide AxisErrors, AccountErrors;
  }

  /** What is reported of a posting is what is wrong with it. */
  lemma PostingErrorsExact(v: ValidationError, e: Entry, ctx: Context, i: nat)
    requires i < |e.postings|
    ensures v in PostingErrors(e, ctx, i) <==> PostingViolates(v, e, ctx, i)
  {
    hide IsLeaf, HasAxis, Account.IsOpenOn, AxisErrors, AccountErrors, PostingErrors;
    PostingErrorsAre(v, e, ctx, i);
    AccountErrorsExact(v, e, ctx, i);
    AxisErrorsExact(v, e.postings[i].dimensions, ctx.policy.requiredDimensions, i);
  }

  lemma {:induction false} PostingsErrorsExact(v: ValidationError, e: Entry, ctx: Context, n: nat)
    requires n <= |e.postings|
    ensures v in PostingsErrors(e, ctx, n) <==>
      exists i :: 0 <= i < n && (PostingViolates(v, e, ctx, i) || OverflowAt(v, e, i))
  {
    hide PostingViolates, PostingErrors, Overflows;
    if n > 0 {
      PostingsErrorsExact(v, e, ctx, n - 1);
      PostingErrorsExact(v, e, ctx, n - 1);
    }
  }

  ghost predicate UnbalancedIn(v: ValidationError, ps: seq<Posting>, scale: byte)
  {
    v.Unbalanced? && RunTotal(ps, v.currency) == Balance(v.debits, v.credits) && v.debits != v.credits
    && v.difference == Clamped(v.debits - v.credits) && v.scale == scale
  }

  lemma {:induction false} CurrencyErrorsExact(v: ValidationError, ps: seq<Posting>, scale: byte, order: seq<Currency>)
    ensures v in CurrencyErrors(ps, scale, order) <==> UnbalancedIn(v, ps, scale) && v.currency in order
  {
    hide RunTotal, UnbalancedIn, When;
    if order != [] {
      var front, c := order[..|order| - 1], order[|order| - 1];
      CurrencyErrorsExact(v, ps, scale, front);
      CurrencyErrorExact(v, ps, scale, c);
      assert order == front + [c];
    }
  }

  lemma CurrencyErrorExact(v: ValidationError, ps: seq<Posting>, scale: byte, c: Currency)
    ensures var b := RunTotal(ps, c);
      v in When(b.debits != b.credits, Unbalanced(c, b.debits, b.credits, Clamped(b.debits - b.credits), scale)) <==>
        UnbalancedIn(v, ps, scale) && v.currency == c
  {
    hide RunTotal, Clamped;
  }

  lemma EntryErrorsExact(v: ValidationError, e: Entry, ctx: Context)
    ensures EntryViolates(v, e, ctx) <==>
      || v in CountErrors(e)
      || (UnbalancedIn(v, e.postings, ctx.scale) && v.currency in Currencies(e.postings))
      || v in PeriodErrors(e.bookingDate, ctx.calendar)
      || v in DriftErrors(e, ctx.policy)
  {
    hide RunTotal, JulianDay, Calendar.StateOn;
  }

  /** Everything wrong with the entry is reported, and nothing else is. */
  lemma ErrorsExact(e: Entry, ctx: Context)
    ensures forall v :: v in ErrorsOf(e, ctx) <==> Violates(v, e, ctx)
    ensures ErrorsOf(e, ctx) == [] <==> Passes(e, ctx)
  {
    hide CountErrors, PostingsErrors, CurrencyErrors, PeriodErrors, DriftErrors, EntryViolates, PostingViolates;
    hide UnbalancedIn, OverflowAt, SortedCurrencies, Currencies;
    var order := SortedCurrencies(Currencies(e.postings));
    SortedCurrenciesList(Currencies(e.postings));
    forall v
      ensures v in ErrorsOf(e, ctx) <==> Violates(v, e, ctx)
    {
      PostingsErrorsExact(v, e, ctx, |e.postings|);
      CurrencyErrorsExact(v, e.postings, ctx.scale, order);
      EntryErrorsExact(v, e, ctx);
    }
    if ErrorsOf(e, ctx) != [] {
      assert ErrorsOf(e, ctx)[0] in ErrorsOf(e, ctx);
    }
  }

  method CheckAccount(e: Entry, i: nat, accounts: AccountRegistry, ghost ctx: Context) returns (errors: seq<ValidationError>)
    requires i < |e.postings| && accounts.Valid() && ctx.accounts == accounts.accounts
    ensures errors == AccountErrors(e, ctx, i)
  {
    hide IsLeaf, HasAxis, Account.IsOpenOn, AccountRegistry.Valid;
    var p := e.postings[i];
    errors := [];
    if p.account >= |accounts.accounts| {
      errors := errors + [UnregisteredAccount(i, p.account)];
    } else {
      var leaf := accounts.IsLeafHandle(p.account);
      if !leaf {
        errors := errors + [NonLeafAccount(i, p.account)];
      }
      if !accounts.accounts[p.account].IsOpenOn(e.bookingDate) {
        errors := errors + [AccountNotOpen(i, p.account, e.bookingDate)];
      }
    }
  }

  /** The errors of one posting, in order. */
  method CheckPosting(e: Entry, i: nat, accounts: AccountRegistry, policy: LedgerPolicy, ghost ctx: Context)
    returns (errors: seq<ValidationError>)
    requires i < |e.postings| && accounts.Valid() && ctx.accounts == accounts.accounts && ctx.policy == policy
    ensures errors == PostingErrors(e, ctx, i)
    ensures forall v :: v in errors <==> PostingViolates(v, e, ctx, i)
  {
    hide AccountErrors, AxisErrors, AccountRegistry.Valid, PostingViolates;
    var p := e.postings[i];
    errors := [];
    if p.amount == 0 {
      errors := errors + [ZeroAmount(i)];
    }
    if p.amount < 0 {
      errors := errors + [NegativeAmount(i)];
    }
    var account := CheckAccount(e, i, accounts, ctx);
    errors := errors + account;
    if policy.currency.Some? && p.currency != policy.currency.value {
      errors := errors + [CurrencyNotAllowed(p.currency)];
    }
    var missing := MissingAxes(p.dimensions, policy.requiredDimensions, i);
    errors := errors + missing;
    forall v
      ensures v in PostingErrors(e, ctx, i) <==> PostingViolates(v, e, ctx, i)
    {
      PostingErrorsExact(v, e, ctx, i);
    }
  }

  method MissingAxes(d: Dimensions, required: seq<Label>, i: nat) returns (errors: seq<ValidationError>)
    ensures errors == AxisErrors(d, required, i)
  {
    hide HasAxis;
    errors := [];
    for j := 0 to |required|
      invariant errors == AxisErrors(d, required[..j], i)
    {
      assert required[..j + 1][..j] == required[..j];
      if !HasAxis(d, required[j]) {
        errors := errors + [MissingDimension(i, required[j])];
      }
    }
    assert required[..|required|] == required;
  }

  /** The running totals of the first `n` postings. */
  ghost predicate Totalled(totals: map<Currency, Balance>, ps: seq<Posting>)
  {
    totals.Keys == Currencies(ps) && forall c :: c in totals ==> totals[c] == RunTotal(ps, c)
  }

  /** Adds a posting to its currency's total; one that would overflow is left out and reported. */
  method Tally(totals: map<Currency, Balance>, ps: seq<Posting>, i: nat)
    returns (after: map<Currency, Balance>, overflow: bool)
    requires i < |ps| && Totalled(totals, ps[..i])
    ensures Totalled(after, ps[..i + 1]) && overflow == Overflows(ps, i)
  {
    hide RunTotal, Currencies;
    TotalsStep(ps, i);
    var p := ps[i];
    var before := if p.currency in totals then totals[p.currency] else ZERO;
    var next := before.Added(p.direction, p.amount);
    overflow := !next.Fits();
    after := totals[p.currency := if overflow then before else next];
  }

  lemma TotalsStep(ps: seq<Posting>, i: nat)
    requires i < |ps|
    ensures Currencies(ps[..i + 1]) == Currencies(ps[..i]) + {ps[i].currency}
    ensures ps[i].currency !in Currencies(ps[..i]) ==> RunTotal(ps[..i], ps[i].currency) == ZERO
    ensures forall c :: c != ps[i].currency ==> RunTotal(ps[..i + 1], c) == RunTotal(ps[..i], c)
    ensures var next := RunTotal(ps[..i], ps[i].currency).Added(ps[i].direction, ps[i].amount);
      RunTotal(ps[..i + 1], ps[i].currency) == if next.Fits() then next else RunTotal(ps[..i], ps[i].currency)
  {
    assert ps[..i + 1][..i] == ps[..i];
    assert ps[..i + 1] == ps[..i] + [ps[i]];
    FreshCurrency(ps[..i], ps[i].currency);
  }

  lemma {:induction false} FreshCurrency(ps: seq<Posting>, c: Currency)
    ensures c !in Currencies(ps) ==> RunTotal(ps, c) == ZERO
  {
    if ps != [] && c !in Currencies(ps) {
      assert ps[|ps| - 1] in ps;
      assert Currencies(ps[..|ps| - 1]) <= Currencies(ps);
      FreshCurrency(ps[..|ps| - 1], c);
    }
  }

  /** Each currency that is out of balance, in code order. */
  method CheckCurrencies(totals: map<Currency, Balance>, scale: byte, ghost ps: seq<Posting>)
    returns (errors: seq<ValidationError>)
    requires Totalled(totals, ps)
    ensures errors == CurrencyErrors(ps, scale, SortedCurrencies(Currencies(ps)))
  {
    hide RunTotal, Currencies, SortedCurrencies;
    var order := SortCurrencies(totals.Keys);
    SortedCurrenciesList(totals.Keys);
    errors := [];
    for j := 0 to |order|
      invariant errors == CurrencyErrors(ps, scale, order[..j])
    {
      assert order[..j + 1][..j] == order[..j];
      var c := order[j];
      assert c in order;
      var b := totals[c];
      if b.debits != b.credits {
        errors := errors + [Unbalanced(c, b.debits, b.credits, Clamped(b.debits - b.credits), scale)];
      }
    }
    assert order[..|order|] == order;
  }

  method CheckCounts(e: Entry) returns (errors: seq<ValidationError>)
    ensures errors == CountErrors(e)
  {
    errors := [];
    if |e.postings| < 2 {
      errors := errors + [TooFewPostings(|e.postings|)];
    }
    if |e.postings| > MAX_POSTINGS {
      errors := errors + [TooManyPostings(|e.postings|)];
    }
  }

  /** Checks the postings one by one, totalling them per currency on the way. */
  method CheckPostings(e: Entry, accounts: AccountRegistry, policy: LedgerPolicy, ghost ctx: Context)
    returns (errors: seq<ValidationError>, totals: map<Currency, Balance>)
    requires accounts.Valid() && ctx.accounts == accounts.accounts && ctx.policy == policy
    ensures errors == PostingsErrors(e, ctx, |e.postings|) && Totalled(totals, e.postings)
  {
    hide AccountRegistry.Valid, PostingErrors, PostingViolates, Totalled, Overflows;
    errors, totals := [], map[];
    NothingTotalled(e.postings);
    for i := 0 to |e.postings|
      invariant Totalled(totals, e.postings[..i]) && errors == PostingsErrors(e, ctx, i)
    {
      var faults := CheckPosting(e, i, accounts, policy, ctx);
      errors := errors + faults;
      var overflow;
      totals, overflow := Tally(totals, e.postings, i);
      if overflow {
        errors := errors + [Overflow(e.postings[i].currency)];
      }
    }
    assert e.postings[..|e.postings|] == e.postings;
  }

  /** Runs every check and reports every violation found, in one order. */
  method SealEntry(e: Entry, accounts: AccountRegistry, calendar: PeriodCalendar, policy: LedgerPolicy, scale: byte)
    returns (r: Result<Entry, seq<ValidationError>>)
    requires accounts.Valid() && calendar.Valid()
    ensures var ctx := Context(accounts.accounts, calendar.Table(), policy, scale);
      && (r.Ok? <==> Passes(e, ctx))
      && (r.Ok? ==> r.value == e)
      && (r.Ok? ==> forall p :: p in e.postings ==> PostingInOrder(p, e.bookingDate, ctx))
      && (r.Err? ==> r.error != [] && r.error == ErrorsOf(e, ctx) && forall v :: v in r.error <==> Violates(v, e, ctx))
  {
    hide AccountRegistry.Valid, PeriodCalendar.Valid, PeriodCalendar.Table, Passes, Violates, Totalled, PostingInOrder;
    hide CountErrors, PostingsErrors, CurrencyErrors, PeriodErrors, DriftErrors, Currencies;
    accounts.Sized();
    ghost var ctx := Context(accounts.accounts, calendar.Table(), policy, scale);
    ErrorsExact(e, ctx);
    PassesExactly(e, ctx);
    var counts := CheckCounts(e);
    var faults, totals := CheckPostings(e, accounts, policy, ctx);
    var unbalanced := CheckCurrencies(totals, scale, e.postings);
    var period := CheckPeriod(e.bookingDate, calendar);
    var errors := counts + faults + unbalanced + period + DriftErrors(e, policy);
    return if errors == [] then Ok(e) else Err(errors);
  }

  lemma NothingTotalled(ps: seq<Posting>)
    ensures Totalled(map[], ps[..0])
  {
  }

  method CheckPeriod(on: Date, calendar: PeriodCalendar) returns (errors: seq<ValidationError>)
    requires calendar.Valid()
    ensures errors == PeriodErrors(on, calendar.Table())
  {
    var state := calendar.StateOn(on);
    return if state != Open then [ClosedPeriod(on, state)] else [];
  }
}

/**
 Open-item clearing.

 A clearing applies amounts to postings that offset one another; a reset releases what
 it applied. `Active` is the meaning of the register: what the clearings not yet reset
 apply to a posting. The register keeps that per posting in a map, and the laws below say
 that nothing is over-applied and that clearing never moves an account's balance.
 */
module Clearings {
  import opened Wrappers
  import opened Entries
  import opened Books

  /** Names one posting: its entry, and its position there. */
  datatype PostingRef = PostingRef(entry: Id, index: nat)

  /** Resolves references against the books. */
  type PostingLookup = PostingRef -> Option<Posting>

  datatype ClearedItem = ClearedItem(posting: PostingRef, applied: i64)

  datatype Clearing = Clearing(id: Id, key: BalanceKey, clearedOn: Date, items: seq<ClearedItem>)

  datatype ClearingEvent = Cleared(clearing: Clearing) | Released(id: Id, on: Date)

  datatype ClearingError =
    | TooFewItems(count: nat)
    | DuplicateItem(posting: PostingRef)
    | UnknownPosting(posting: PostingRef)
    | WrongAccount(posting: PostingRef, account: u32)
    | WrongCurrency(posting: PostingRef, currency: Currency)
    | WrongLayer(posting: PostingRef, layer: Layer)
    | NonPositiveApplication(posting: PostingRef)
    | OverApplied(posting: PostingRef, requested: i64, residual: int)
    | Unbalanced(debits: int, credits: int)
    | DuplicateId(id: Id)
    | UnknownClearing(id: Id)
    | AlreadyReset(id: Id)
    | Overflow

  datatype OpenItem = OpenItem(
    position: Site, posting: PostingRef, direction: Direction, original: int, applied: int, residual: int)

  /** What some items apply to one posting. */
  function ItemSum(items: seq<ClearedItem>, r: PostingRef): int
  {
    if items == [] then 0
    else
      var last := items[|items| - 1];
      ItemSum(items[..|items| - 1], r) + if last.posting == r then last.applied else 0
  }

  /** What the clearings not reset apply to one posting. */
  function Active(events: seq<ClearingEvent>, resets: set<Id>, r: PostingRef): int
  {
    if events == [] then 0
    else
      var last := events[|events| - 1];
      Active(events[..|events| - 1], resets, r)
        + if last.Cleared? && last.clearing.id !in resets then ItemSum(last.clearing.items, r) else 0
  }

  function ActiveOf(events: seq<ClearingEvent>, resets: set<Id>): PostingRef -> int
  {
    r => Active(events, resets, r)
  }

  /** Debits and credits some items apply. */
  function Sides(items: seq<ClearedItem>, lookup: PostingLookup): Balance
  {
    if items == [] then ZERO
    else
      var last := items[|items| - 1];
      var before := Sides(items[..|items| - 1], lookup);
      match lookup(last.posting)
      case None => before
      case Some(p) => before.Added(p.direction, last.applied)
  }

  predicate Distinct(items: seq<ClearedItem>)
  {
    forall i, j :: 0 <= i < j < |items| ==> items[i].posting != items[j].posting
  }

  /** An item that resolves on the clearing's own key, for a positive amount. */
  predicate OnKey(item: ClearedItem, key: BalanceKey, lookup: PostingLookup)
  {
    item.applied > 0 && lookup(item.posting).Some? && lookup(item.posting).value.Key() == key
  }

  /** A clearing whose items are distinct postings of its key and offset one another. */
  predicate Sound(c: Clearing, lookup: PostingLookup)
  {
    && |c.items| >= 2 && Distinct(c.items)
    && (forall i :: 0 <= i < |c.items| ==> OnKey(c.items[i], c.key, lookup))
    && Sides(c.items, lookup).debits == Sides(c.items, lookup).credits
  }

  /** Later books resolve everything earlier books did, to the same posting. */
  ghost predicate LookupExtends(earlier: PostingLookup, later: PostingLookup)
  {
    forall r :: earlier(r).Some? ==> later(r) == earlier(r)
  }

  /** No posting is applied more than its amount, and nothing is applied elsewhere. */
  ghost predicate WithinAmounts(events: seq<ClearingEvent>, resets: set<Id>, lookup: PostingLookup)
  {
    forall r :: 0 <= Active(events, resets, r) <= match lookup(r) case None => 0 case Some(p) => p.amount
  }

  ghost predicate AllSound(events: seq<ClearingEvent>, lookup: PostingLookup)
  {
    forall i :: 0 <= i < |events| && events[i].Cleared? ==> Sound(events[i].clearing, lookup)
  }

  lemma {:induction false} ItemSumBounds(items: seq<ClearedItem>, r: PostingRef)
    requires Distinct(items)
    ensures (forall i :: 0 <= i < |items| ==> items[i].posting != r) ==> ItemSum(items, r) == 0
    ensures forall i :: 0 <= i < |items| && items[i].posting == r ==> ItemSum(items, r) == items[i].applied
  {
    if items != [] {
      ItemSumBounds(items[..|items| - 1], r);
    }
  }

  lemma {:induction false} SidesLocal(items: seq<ClearedItem>, a: PostingLookup, b: PostingLookup)
    requires forall i :: 0 <= i < |items| ==> a(items[i].posting) == b(items[i].posting)
    ensures Sides(items, a) == Sides(items, b)
  {
    if items != [] {
      SidesLocal(items[..|items| - 1], a, b);
    }
  }

  /** Growing books keep every recorded clearing sound and within bounds. */
  lemma GrowthKeepsClearings(events: seq<ClearingEvent>, resets: set<Id>, a: PostingLookup, b: PostingLookup)
    requires AllSound(events, a) && WithinAmounts(events, resets, a) && LookupExtends(a, b)
    requires forall r :: b(r).Some? ==> b(r).value.amount > 0
    ensures AllSound(events, b) && WithinAmounts(events, resets, b)
  {
    forall i | 0 <= i < |events| && events[i].Cleared?
      ensures Sound(events[i].clearing, b)
    {
      var c := events[i].clearing;
      assert forall j :: 0 <= j < |c.items| ==> OnKey(c.items[j], c.key, a);
      SidesLocal(c.items, a, b);
    }
    forall r
      ensures 0 <= Active(events, resets, r) <= match b(r) case None => 0 case Some(p) => p.amount
    {
      assert a(r).Some? ==> b(r) == a(r);
    }
  }

  /** Resetting one clearing releases exactly what it applied. */
  lemma {:induction false} ResetReleases(events: seq<ClearingEvent>, resets: set<Id>, at: nat, r: PostingRef)
    requires at < |events| && events[at].Cleared? && events[at].clearing.id !in resets
    requires forall i :: 0 <= i < |events| && events[i].Cleared? && i != at ==>
      events[i].clearing.id != events[at].clearing.id
    ensures Active(events, resets + {events[at].clearing.id}, r)
      == Active(events, resets, r) - ItemSum(events[at].clearing.items, r)
  {
    var n := |events| - 1;
    if at < n {
      ResetReleases(events[..n], resets, at, r);
    } else {
      ResetElsewhere(events[..n], resets, events[at].clearing.id, r);
    }
  }

  lemma {:induction false} ResetElsewhere(events: seq<ClearingEvent>, resets: set<Id>, id: Id, r: PostingRef)
    requires forall i :: 0 <= i < |events| && events[i].Cleared? ==> events[i].clearing.id != id
    ensures Active(events, resets + {id}, r) == Active(events, resets, r)
  {
    if events != [] {
      ResetElsewhere(events[..|events| - 1], resets, id, r);
    }
  }

  // ------------------------------------------------------------- conservation

  function Signed(p: Posting, amount: int): int
  {
    if p.direction.Debit? then amount else -amount
  }

  /** The gross totals of a per-posting amount over some references. */
  function GrossTotal(refs: seq<PostingRef>, lookup: PostingLookup, amount: PostingRef -> int): Balance
  {
    if refs == [] then ZERO
    else
      var r := refs[|refs| - 1];
      var before := GrossTotal(refs[..|refs| - 1], lookup, amount);
      match lookup(r) case None => before case Some(p) => before.Added(p.direction, amount(r))
  }

  /** Their debits less their credits. */
  function SignedTotal(refs: seq<PostingRef>, lookup: PostingLookup, amount: PostingRef -> int): int
  {
    GrossTotal(refs, lookup, amount).SignedNet()
  }

  /** The references are those of one key, each once. */
  ghost predicate ListsKey(refs: seq<PostingRef>, key: BalanceKey, lookup: PostingLookup)
  {
    && (forall r :: r in refs <==> lookup(r).Some? && lookup(r).value.Key() == key)
    && (forall i, j :: 0 <= i < j < |refs| ==> refs[i] != refs[j])
  }

  lemma {:induction false} TotalAdds(refs: seq<PostingRef>, lookup: PostingLookup, a: PostingRef -> int, b: PostingRef -> int, c: PostingRef -> int)
    requires forall r :: c(r) == a(r) + b(r)
    ensures var x, y, z := GrossTotal(refs, lookup, a), GrossTotal(refs, lookup, b), GrossTotal(refs, lookup, c);
      z.debits == x.debits + y.debits && z.credits == x.credits + y.credits
  {
    if refs != [] {
      TotalAdds(refs[..|refs| - 1], lookup, a, b, c);
    }
  }

  lemma {:induction false} TotalOfZero(refs: seq<PostingRef>, lookup: PostingLookup, a: PostingRef -> int)
    requires forall i :: 0 <= i < |refs| ==> a(refs[i]) == 0
    ensures GrossTotal(refs, lookup, a) == ZERO
  {
    if refs != [] {
      TotalOfZero(refs[..|refs| - 1], lookup, a);
    }
  }

  /** Less on every reference is less in all. */
  lemma {:induction false} TotalMonotone(refs: seq<PostingRef>, lookup: PostingLookup, a: PostingRef -> int, b: PostingRef -> int)
    requires forall i :: 0 <= i < |refs| ==> 0 <= a(refs[i]) <= b(refs[i])
    ensures 0 <= GrossTotal(refs, lookup, a).debits <= GrossTotal(refs, lookup, b).debits
    ensures 0 <= GrossTotal(refs, lookup, a).credits <= GrossTotal(refs, lookup, b).credits
  {
    if refs != [] {
      TotalMonotone(refs[..|refs| - 1], lookup, a, b);
    }
  }

  /** An amount on one reference counts once, if the reference is listed. */
  lemma {:induction false} TotalOfOne(refs: seq<PostingRef>, lookup: PostingLookup, a: PostingRef -> int, one: PostingRef)
    requires forall r :: r != one ==> a(r) == 0
    requires forall i, j :: 0 <= i < j < |refs| ==> refs[i] != refs[j]
    ensures GrossTotal(refs, lookup, a)
      == if one in refs && lookup(one).Some? then ZERO.Added(lookup(one).value.direction, a(one)) else ZERO
  {
    if refs != [] {
      var front := refs[..|refs| - 1];
      assert refs == front + [refs[|refs| - 1]];
      TotalOfOne(front, lookup, a, one);
      if refs[|refs| - 1] == one {
        assert one !in front;
      }
    }
  }

  /** Over one key, a clearing's items total to its two sides, or to nothing. */
  lemma {:induction false} ItemsTotal(items: seq<ClearedItem>, key: BalanceKey, refs: seq<PostingRef>, on: BalanceKey, lookup: PostingLookup)
    requires ListsKey(refs, on, lookup)
    requires forall i :: 0 <= i < |items| ==> OnKey(items[i], key, lookup)
    ensures GrossTotal(refs, lookup, r => ItemSum(items, r)) == if key == on then Sides(items, lookup) else ZERO
  {
    if items == [] {
      TotalOfZero(refs, lookup, r => ItemSum(items, r));
    } else {
      var front, last := items[..|items| - 1], items[|items| - 1];
      assert OnKey(last, key, lookup);
      ItemsTotal(front, key, refs, on, lookup);
      var single := r => if r == last.posting then last.applied else 0;
      TotalOfOne(refs, lookup, single, last.posting);
      TotalAdds(refs, lookup, r => ItemSum(front, r), single, r => ItemSum(items, r));
    }
  }

  /** Over one key, everything applied offsets: clearing never moves a balance. */
  lemma {:induction false} AppliedNetsToZero(events: seq<ClearingEvent>, resets: set<Id>,
    refs: seq<PostingRef>, on: BalanceKey, lookup: PostingLookup)
    requires AllSound(events, lookup) && ListsKey(refs, on, lookup)
    ensures SignedTotal(refs, lookup, ActiveOf(events, resets)) == 0
  {
    if events == [] {
      TotalOfZero(refs, lookup, ActiveOf(events, resets));
    } else {
      var front, last := events[..|events| - 1], events[|events| - 1];
      AppliedNetsToZero(front, resets, refs, on, lookup);
      var step := r => if last.Cleared? && last.clearing.id !in resets then ItemSum(last.clearing.items, r) else 0;
      TotalAdds(refs, lookup, ActiveOf(front, resets), step, ActiveOf(events, resets));
      if last.Cleared? && last.clearing.id !in resets {
        assert Sound(last.clearing, lookup);
        ItemsTotal(last.clearing.items, last.clearing.key, refs, on, lookup);
        TotalAdds(refs, lookup, _ => 0, r => ItemSum(last.clearing.items, r), step);
        TotalOfZero(refs, lookup, _ => 0);
      } else {
        TotalOfZero(refs, lookup, step);
      }
    }
  }

  /** The open items among some candidates, in their order. */
  function OpenOf(candidates: seq<(Site, PostingRef)>, lookup: PostingLookup, applied: PostingRef -> int): seq<OpenItem>
  {
    if candidates == [] then []
    else
      var (site, r) := candidates[|candidates| - 1];
      var before := OpenOf(candidates[..|candidates| - 1], lookup, applied);
      match lookup(r)
      case None => before
      case Some(p) =>
        if p.amount > applied(r) then
          before + [OpenItem(site, r, p.direction, p.amount, applied(r), p.amount - applied(r))]
        else before
  }

  /** What is listed as open: every posting not fully applied, with its amount, what is applied and what is left. */
  lemma {:induction false} OpenExactly(candidates: seq<(Site, PostingRef)>, lookup: PostingLookup, applied: PostingRef -> int, item: OpenItem)
    ensures item in OpenOf(candidates, lookup, applied) <==>
      (item.position, item.posting) in candidates
      && match lookup(item.posting)
         case None => false
         case Some(p) =>
           p.amount > applied(item.posting) && item.direction == p.direction && item.original == p.amount
           && item.applied == applied(item.posting) && item.residual == item.original - item.applied
  {
    if candidates != [] {
      var front, last := candidates[..|candidates| - 1], candidates[|candidates| - 1];
      OpenExactly(front, lookup, applied, item);
      assert candidates == front + [last];
      assert (item.position, item.posting) in candidates <==>
        (item.position, item.posting) in front || (item.position == last.0 && item.posting == last.1);
    }
  }

  function SignedResidual(items: seq<OpenItem>): int
  {
    if items == [] then 0
    else
      var last := items[|items| - 1];
      SignedResidual(items[..|items| - 1]) + if last.direction.Debit? then last.residual else -last.residual
  }

  function Refs(candidates: seq<(Site, PostingRef)>): seq<PostingRef>
  {
    seq(|candidates|, i requires 0 <= i < |candidates| => candidates[i].1)
  }

  function AmountOf(lookup: PostingLookup): PostingRef -> int
  {
    r => match lookup(r) case None => 0 case Some(p) => p.amount
  }

  lemma RefsNext(candidates: seq<(Site, PostingRef)>, lookup: PostingLookup, amount: PostingRef -> int)
    requires candidates != []
    ensures var front, r := candidates[..|candidates| - 1], candidates[|candidates| - 1].1;
      var before := GrossTotal(Refs(front), lookup, amount);
      GrossTotal(Refs(candidates), lookup, amount)
        == match lookup(r) case None => before case Some(p) => before.Added(p.direction, amount(r))
  {
    assert Refs(candidates)[..|candidates| - 1] == Refs(candidates[..|candidates| - 1]);
  }

  lemma OpenNext(candidates: seq<(Site, PostingRef)>, lookup: PostingLookup, applied: PostingRef -> int)
    requires candidates != []
    requires var r := candidates[|candidates| - 1].1; lookup(r).Some? ==> applied(r) <= lookup(r).value.amount
    ensures var front, r := candidates[..|candidates| - 1], candidates[|candidates| - 1].1;
      SignedResidual(OpenOf(candidates, lookup, applied))
        == SignedResidual(OpenOf(front, lookup, applied))
           + match lookup(r) case None => 0 case Some(p) => Signed(p, p.amount - applied(r))
  {
    var before := OpenOf(candidates[..|candidates| - 1], lookup, applied);
    var after := OpenOf(candidates, lookup, applied);
    if |after| > |before| {
      assert after[..|after| - 1] == before;
    }
  }

  /** Residuals total to the amounts less what is applied. */
  lemma {:induction false} ResidualsTotal(candidates: seq<(Site, PostingRef)>, lookup: PostingLookup, applied: PostingRef -> int)
    requires forall r :: applied(r) <= match lookup(r) case None => applied(r) case Some(p) => p.amount
    ensures SignedResidual(OpenOf(candidates, lookup, applied))
      == SignedTotal(Refs(candidates), lookup, AmountOf(lookup)) - SignedTotal(Refs(candidates), lookup, applied)
  {
    hide OpenOf, SignedResidual, GrossTotal, Refs;
    if candidates == [] {
      NothingOpen(lookup, applied);
    } else {
      var r := candidates[|candidates| - 1].1;
      ResidualsTotal(candidates[..|candidates| - 1], lookup, applied);
      RefsNext(candidates, lookup, AmountOf(lookup));
      RefsNext(candidates, lookup, applied);
      assert applied(r) <= match lookup(r) case None => applied(r) case Some(p) => p.amount;
      OpenNext(candidates, lookup, applied);
    }
  }

  lemma NothingOpen(lookup: PostingLookup, applied: PostingRef -> int)
    ensures SignedResidual(OpenOf([], lookup, applied)) == 0
    ensures SignedTotal(Refs([]), lookup, AmountOf(lookup)) == 0 && SignedTotal(Refs([]), lookup, applied) == 0
  {
  }

  // ------------------------------------------------------------- the register

  lemma {:induction false} SidesGrow(items: seq<ClearedItem>, n: nat, key: BalanceKey, lookup: PostingLookup)
    requires n <= |items| && forall i :: 0 <= i < |items| ==> OnKey(items[i], key, lookup)
    ensures 0 <= Sides(items[..n], lookup).debits <= Sides(items, lookup).debits
    ensures 0 <= Sides(items[..n], lookup).credits <= Sides(items, lookup).credits
  {
    if n == |items| {
      assert items[..n] == items;
      if n > 0 {
        assert OnKey(items[n - 1], key, lookup);
        SidesGrow(items[..n - 1], n - 1, key, lookup);
      }
    } else {
      var front := items[..|items| - 1];
      assert front[..n] == items[..n];
      assert OnKey(items[|items| - 1], key, lookup);
      SidesGrow(front, n, key, lookup);
    }
  }

  lemma NothingYet(items: seq<ClearedItem>, lookup: PostingLookup)
    ensures Named(items[..0]) == {} && Distinct(items[..0]) && Sides(items[..0], lookup) == ZERO
  {
  }

  lemma SidesStep(items: seq<ClearedItem>, i: nat, lookup: PostingLookup)
    requires i < |items| && lookup(items[i].posting).Some?
    ensures Sides(items[..i + 1], lookup)
      == Sides(items[..i], lookup).Added(lookup(items[i].posting).value.direction, items[i].applied)
  {
    assert items[..i + 1][..i] == items[..i];
  }

  lemma {:induction false} ItemSumStep(items: seq<ClearedItem>, i: nat, r: PostingRef)
    requires i < |items|
    ensures ItemSum(items[..i + 1], r) == ItemSum(items[..i], r) + if items[i].posting == r then items[i].applied else 0
  {
    assert items[..i + 1][..i] == items[..i];
  }

  /** What is wrong with one item. */
  predicate ItemFault(error: ClearingError, item: ClearedItem, key: BalanceKey, lookup: PostingLookup, applied: int)
  {
    var found := lookup(item.posting);
    match error
    case NonPositiveApplication(p) => p == item.posting && item.applied <= 0
    case UnknownPosting(p) => p == item.posting && found.None?
    case WrongAccount(p, a) => p == item.posting && found.Some? && found.value.account != a == key.account
    case WrongCurrency(p, c) => p == item.posting && found.Some? && found.value.currency != c == key.currency
    case WrongLayer(p, l) => p == item.posting && found.Some? && found.value.layer != l == key.layer
    case OverApplied(p, requested, residual) => p == item.posting && found.Some?
      && requested == item.applied > residual == found.value.amount - applied
    case _ => false
  }

  /** Distinct items on a key, none beyond what its posting has open. */
  ghost predicate Applicable(items: seq<ClearedItem>, key: BalanceKey, lookup: PostingLookup, applied: PostingRef -> int)
  {
    && Distinct(items)
    && forall i :: 0 <= i < |items| ==>
         OnKey(items[i], key, lookup)
         && items[i].applied <= lookup(items[i].posting).value.amount - applied(items[i].posting)
  }

  /** The first `n` items could all be applied, but a side of them does not fit. */
  ghost predicate OverflowsAt(c: Clearing, n: nat, lookup: PostingLookup, applied: PostingRef -> int)
  {
    n <= |c.items| && Applicable(c.items[..n], c.key, lookup, applied) && !Sides(c.items[..n], lookup).Fits()
  }

  /**
   The sides of such items are within everything posted to the key: over a list of its
   postings, what the items apply is at most what the postings amount to.
   */
  lemma SidesWithin(items: seq<ClearedItem>, key: BalanceKey, refs: seq<PostingRef>, lookup: PostingLookup, applied: PostingRef -> int)
    requires ListsKey(refs, key, lookup) && Applicable(items, key, lookup, applied)
    requires forall r :: lookup(r).Some? ==> applied(r) >= 0 && lookup(r).value.amount >= 0
    ensures var all := GrossTotal(refs, lookup, AmountOf(lookup));
      && 0 <= Sides(items, lookup).debits <= all.debits && 0 <= Sides(items, lookup).credits <= all.credits
  {
    hide GrossTotal, Sides;
    ItemsTotal(items, key, refs, key, lookup);
    forall i | 0 <= i < |refs|
      ensures 0 <= ItemSum(items, refs[i]) <= AmountOf(lookup)(refs[i])
    {
      assert refs[i] in refs;
      ItemSumBounds(items, refs[i]);
      if j :| 0 <= j < |items| && items[j].posting == refs[i] {
        assert OnKey(items[j], key, lookup);
      }
    }
    TotalMonotone(refs, lookup, r => ItemSum(items, r), AmountOf(lookup));
  }

  /** Why a clearing is refused. */
  ghost predicate Explains(error: ClearingError, c: Clearing, lookup: PostingLookup, applied: PostingRef -> int)
  {
    match error
    case TooFewItems(n) => n == |c.items| && n < 2
    case DuplicateItem(p) => exists i, j :: 0 <= i < j < |c.items| && c.items[i].posting == c.items[j].posting == p
    case Unbalanced(d, cr) => Sides(c.items, lookup) == Balance(d, cr) && d != cr
    case Overflow => exists n :: OverflowsAt(c, n, lookup, applied)
    case _ => exists i ::
      0 <= i < |c.items| && ItemFault(error, c.items[i], c.key, lookup, applied(c.items[i].posting))
  }

  function Named(items: seq<ClearedItem>): set<PostingRef>
  {
    set item | item in items :: item.posting
  }

  /** The next item repeats a posting exactly when that posting has been named before. */
  lemma NamedStep(items: seq<ClearedItem>, i: nat)
    requires i < |items| && Distinct(items[..i])
    ensures Named(items[..i + 1]) == Named(items[..i]) + {items[i].posting}
    ensures Distinct(items[..i + 1]) <==> items[i].posting !in Named(items[..i])
    ensures items[i].posting in Named(items[..i]) ==>
      !Distinct(items) && exists j :: 0 <= j < i && items[j].posting == items[i].posting
  {
    assert items[..i + 1] == items[..i] + [items[i]];
    assert forall j :: 0 <= j < i ==> items[..i][j] in items[..i];
    if items[i].posting in Named(items[..i]) {
      var j :| 0 <= j < i && items[..i][j].posting == items[i].posting;
      assert items[..i + 1][j].posting == items[..i + 1][i].posting;
    }
  }

  /** Every clearing is filed once under its identifier, and every release is on record. */
  ghost predicate Catalogued(events: seq<ClearingEvent>, byId: map<Id, nat>, reset: map<Id, Date>)
  {
    && (forall id :: id in byId ==>
          byId[id] < |events| && events[byId[id]].Cleared? && events[byId[id]].clearing.id == id)
    && (forall i :: 0 <= i < |events| && events[i].Cleared? ==>
          events[i].clearing.id in byId && byId[events[i].clearing.id] == i)
    && (forall id :: id in reset ==> id in byId && Released(id, reset[id]) in events)
    && (forall i :: 0 <= i < |events| && events[i].Released? ==> events[i].id in reset)
  }

  lemma CatalogueCleared(events: seq<ClearingEvent>, byId: map<Id, nat>, reset: map<Id, Date>, c: Clearing)
    requires Catalogued(events, byId, reset) && c.id !in byId
    ensures Catalogued(events + [Cleared(c)], byId[c.id := |events|], reset)
  {
  }

  lemma CataloguedAt(events: seq<ClearingEvent>, byId: map<Id, nat>, reset: map<Id, Date>, id: Id, lookup: PostingLookup)
    requires Catalogued(events, byId, reset) && AllSound(events, lookup) && id in byId
    ensures byId[id] < |events| && events[byId[id]].Cleared? && events[byId[id]].clearing.id == id
    ensures Distinct(events[byId[id]].clearing.items)
    ensures forall i :: 0 <= i < |events| && events[i].Cleared? && i != byId[id] ==> events[i].clearing.id != id
  {
    assert Sound(events[byId[id]].clearing, lookup);
  }

  lemma CatalogueReleased(events: seq<ClearingEvent>, byId: map<Id, nat>, reset: map<Id, Date>, id: Id, on: Date)
    requires Catalogued(events, byId, reset) && id in byId && id !in reset
    ensures Catalogued(events + [Released(id, on)], byId, reset[id := on])
  {
    var after := events + [Released(id, on)];
    assert after[|events|] == Released(id, on);
    forall other | other in reset
      ensures Released(other, reset[other]) in after
    {
      assert Released(other, reset[other]) in events;
    }
  }

  /** What recording a sound clearing within the open amounts does to every posting. */
  lemma ClearingKeeps(events: seq<ClearingEvent>, resets: set<Id>, c: Clearing, lookup: PostingLookup)
    requires AllSound(events, lookup) && WithinAmounts(events, resets, lookup)
    requires Sound(c, lookup) && c.id !in resets
    requires forall i :: 0 <= i < |c.items| ==>
      c.items[i].applied <= lookup(c.items[i].posting).value.amount - Active(events, resets, c.items[i].posting)
    ensures forall r :: Active(events + [Cleared(c)], resets, r) == Active(events, resets, r) + ItemSum(c.items, r)
    ensures AllSound(events + [Cleared(c)], lookup) && WithinAmounts(events + [Cleared(c)], resets, lookup)
  {
    var after := events + [Cleared(c)];
    assert after[..|events|] == events;
    forall r
      ensures Active(after, resets, r) == Active(events, resets, r) + ItemSum(c.items, r)
      ensures 0 <= Active(after, resets, r) <= match lookup(r) case None => 0 case Some(q) => q.amount
    {
      ItemSumBounds(c.items, r);
      assert 0 <= Active(events, resets, r);
      if i :| 0 <= i < |c.items| && c.items[i].posting == r {
        assert OnKey(c.items[i], c.key, lookup);
      }
    }
  }

  /** What releasing one does. */
  lemma ReleaseKeeps(events: seq<ClearingEvent>, resets: set<Id>, at: nat, on: Date, lookup: PostingLookup)
    requires AllSound(events, lookup) && WithinAmounts(events, resets, lookup)
    requires at < |events| && events[at].Cleared? && events[at].clearing.id !in resets
    requires forall i :: 0 <= i < |events| && events[i].Cleared? && i != at ==>
      events[i].clearing.id != events[at].clearing.id
    ensures var c := events[at].clearing; var after, later := events + [Released(c.id, on)], resets + {c.id};
      && (forall r :: Active(after, later, r) == Active(events, resets, r) - ItemSum(c.items, r))
      && AllSound(after, lookup) && WithinAmounts(after, later, lookup)
  {
    var c := events[at].clearing;
    var after, later := events + [Released(c.id, on)], resets + {c.id};
    assert after[..|events|] == events;
    assert Sound(c, lookup);
    forall r
      ensures Active(after, later, r) == Active(events, resets, r) - ItemSum(c.items, r)
      ensures 0 <= Active(after, later, r) <= match lookup(r) case None => 0 case Some(q) => q.amount
    {
      ResetReleases(events, resets, at, r);
      ItemSumWithin(events, later, lookup, r);
      assert forall i :: 0 <= i < |c.items| ==> OnKey(c.items[i], c.key, lookup);
      ItemSumNonNegative(c.items, r);
      assert Active(events, resets, r) <= match lookup(r) case None => 0 case Some(q) => q.amount;
    }
  }

  /** How much a register carries for a posting. */
  function Carried(applied: map<PostingRef, int>, r: PostingRef): int
  {
    if r in applied then applied[r] else 0
  }

  function CarriedOf(applied: map<PostingRef, int>): PostingRef -> int
  {
    r => Carried(applied, r)
  }

  /** What remains open on a posting. */
  function Residual(applied: map<PostingRef, int>, r: PostingRef, lookup: PostingLookup): int
  {
    match lookup(r) case None => 0 case Some(p) => p.amount - Carried(applied, r)
  }

  /** A clearing that may be recorded leaves catalogue, soundness and amounts as they must be. */
  lemma ClearedKeeps(events: seq<ClearingEvent>, byId: map<Id, nat>, reset: map<Id, Date>,
    applied: map<PostingRef, int>, c: Clearing, lookup: PostingLookup)
    requires Catalogued(events, byId, reset) && AllSound(events, lookup) && WithinAmounts(events, reset.Keys, lookup)
    requires forall r :: Carried(applied, r) == Active(events, reset.Keys, r)
    requires c.id !in byId && Sound(c, lookup)
    requires forall i :: 0 <= i < |c.items| ==> c.items[i].applied <= Residual(applied, c.items[i].posting, lookup)
    ensures var after := events + [Cleared(c)];
      && Distinct(c.items) && Catalogued(after, byId[c.id := |events|], reset)
      && AllSound(after, lookup) && WithinAmounts(after, reset.Keys, lookup)
      && forall r :: Active(after, reset.Keys, r) == Carried(applied, r) + ItemSum(c.items, r)
  {
    hide AllSound, WithinAmounts, Sides, Active;
    CatalogueCleared(events, byId, reset, c);
    ClearingKeeps(events, reset.Keys, c, lookup);
  }

  lemma ReleaseAgrees(events: seq<ClearingEvent>, resets: set<Id>, at: nat, on: Date,
    before: map<PostingRef, int>, after: map<PostingRef, int>, lookup: PostingLookup)
    requires AllSound(events, lookup) && WithinAmounts(events, resets, lookup)
    requires at < |events| && events[at].Cleared? && events[at].clearing.id !in resets
    requires forall i :: 0 <= i < |events| && events[i].Cleared? && i != at ==>
      events[i].clearing.id != events[at].clearing.id
    requires forall r :: Carried(before, r) == Active(events, resets, r)
    requires forall r :: Carried(after, r) == Carried(before, r) + -1 * ItemSum(events[at].clearing.items, r)
    ensures var id := events[at].clearing.id;
      forall r :: Carried(after, r) == Active(events + [Released(id, on)], resets + {id}, r)
  {
    ReleaseKeeps(events, resets, at, on, lookup);
  }

  class ClearingRegister {
    var events: seq<ClearingEvent>
    var applied: map<PostingRef, int>
    var reset: map<Id, Date>
    var byId: map<Id, nat>

    /** The indexes and the applied amounts agree with the events. */
    ghost predicate Indexed()
      reads this
    {
      Catalogued(events, byId, reset) && forall r :: Carried(applied, r) == Active(events, reset.Keys, r)
    }

    ghost predicate Valid(lookup: PostingLookup)
      reads this
    {
      Indexed() && AllSound(events, lookup) && WithinAmounts(events, reset.Keys, lookup)
    }

    /** Everything a clearing must satisfy to be recorded now. */
    ghost predicate CanClear(c: Clearing, lookup: PostingLookup)
      reads this
    {
      && c.id !in byId && Sound(c, lookup) && Sides(c.items, lookup).Fits()
      && forall i :: 0 <= i < |c.items| ==> c.items[i].applied <= Residual(applied, c.items[i].posting, lookup)
    }

    constructor ()
      ensures events == [] && reset == map[] && Indexed()
    {
      events, applied, reset, byId := [], map[], map[], map[];
    }

    /** Checks one item against the clearing's key and what its posting has open. */
    method CheckItem(item: ClearedItem, key: BalanceKey, lookup: PostingLookup) returns (r: Result<Posting, ClearingError>)
      ensures r.Ok? <==> OnKey(item, key, lookup) && item.applied <= Residual(applied, item.posting, lookup)
      ensures r.Ok? ==> lookup(item.posting) == Some(r.value)
      ensures r.Err? ==> ItemFault(r.error, item, key, lookup, Carried(applied, item.posting))
    {
      var name := item.posting;
      if item.applied <= 0 {
        return Err(NonPositiveApplication(name));
      }
      var found := lookup(name);
      if found.None? {
        return Err(UnknownPosting(name));
      }
      var posting := found.value;
      if posting.account != key.account {
        return Err(WrongAccount(name, key.account));
      }
      if posting.currency != key.currency {
        return Err(WrongCurrency(name, key.currency));
      }
      if posting.layer != key.layer {
        return Err(WrongLayer(name, key.layer));
      }
      var residual := posting.amount - Carried(applied, name);
      if item.applied > residual {
        return Err(OverApplied(name, item.applied, residual));
      }
      return Ok(posting);
    }

    lemma OverflowFound(c: Clearing, n: nat, lookup: PostingLookup, carried: map<PostingRef, int>)
      requires n <= |c.items| && Distinct(c.items[..n]) && !Sides(c.items[..n], lookup).Fits()
      requires forall j :: 0 <= j < n ==>
        OnKey(c.items[j], c.key, lookup) && c.items[j].applied <= Residual(carried, c.items[j].posting, lookup)
      ensures Explains(Overflow, c, lookup, CarriedOf(carried))
    {
      hide Distinct, Sides;
      assert OverflowsAt(c, n, lookup, CarriedOf(carried));
    }

    /** Checks the items one by one, accumulating both sides. */
    method CheckItems(c: Clearing, lookup: PostingLookup) returns (r: Result<(), ClearingError>)
      requires c.id !in byId
      ensures r.Ok? <==> CanClear(c, lookup)
      ensures r.Err? ==> Explains(r.error, c, lookup, CarriedOf(old(applied)))
    {
      hide ItemFault, Residual, Distinct, Named, Sides, OverflowsAt;
      if |c.items| < 2 {
        return Err(TooFewItems(|c.items|));
      }
      var seen: set<PostingRef> := {};
      var sides := ZERO;
      NothingYet(c.items, lookup);
      for i := 0 to |c.items|
        invariant seen == Named(c.items[..i]) && Distinct(c.items[..i])
        invariant forall j :: 0 <= j < i ==>
          OnKey(c.items[j], c.key, lookup) && c.items[j].applied <= Residual(applied, c.items[j].posting, lookup)
        invariant sides == Sides(c.items[..i], lookup) && sides.Fits()
      {
        var item := c.items[i];
        NamedStep(c.items, i);
        if item.posting in seen {
          return Err(DuplicateItem(item.posting));
        }
        seen := seen + {item.posting};
        var checked := CheckItem(item, c.key, lookup);
        if checked.Err? {
          return Err(checked.error);
        }
        SidesStep(c.items, i, lookup);
        sides := sides.Added(checked.value.direction, item.applied);
        if !sides.Fits() {
          if Sound(c, lookup) {
            SidesGrow(c.items, i + 1, c.key, lookup);
          }
          OverflowFound(c, i + 1, lookup, applied);
          return Err(Overflow);
        }
      }
      assert c.items[..|c.items|] == c.items;
      if sides.debits != sides.credits {
        return Err(Unbalanced(sides.debits, sides.credits));
      }
      return Ok(());
    }

    /** Adds each item to what its posting already carries, or takes it away again. */
    method Apply(items: seq<ClearedItem>, sign: int)
      requires Distinct(items) && (sign == 1 || sign == -1)
      modifies this`applied
      ensures forall r :: Carried(applied, r) == Carried(old(applied), r) + sign * ItemSum(items, r)
    {
      var staged: seq<(PostingRef, int)> := [];
      for i := 0 to |items|
        invariant |staged| == i
        invariant forall j :: 0 <= j < i ==>
          staged[j] == (items[j].posting, Carried(applied, items[j].posting) + sign * items[j].applied)
      {
        staged := staged + [(items[i].posting, Carried(applied, items[i].posting) + sign * items[i].applied)];
      }
      for i := 0 to |items|
        invariant forall r :: Carried(applied, r) == Carried(old(applied), r) + sign * ItemSum(items[..i], r)
      {
        ghost var before := applied;
        applied := applied[staged[i].0 := staged[i].1];
        forall r
          ensures Carried(applied, r) == Carried(old(applied), r) + sign * ItemSum(items[..i + 1], r)
        {
          ItemSumStep(items, i, r);
          ItemSumBounds(items[..i], r);
        }
      }
      assert items[..|items|] == items;
    }

    /**
     Records a clearing. It is accepted exactly when it is sound, its sides fit, and no item
     asks for more than its posting has open; a refused clearing changes nothing.
     */
    method Clear(c: Clearing, lookup: PostingLookup) returns (r: Result<(), ClearingError>)
      requires Valid(lookup)
      modifies this
      ensures Valid(lookup)
      ensures r.Ok? <==> old(CanClear(c, lookup))
      ensures events == if r.Ok? then old(events) + [Cleared(c)] else old(events)
      ensures reset == old(reset)
      ensures forall p :: Carried(applied, p) == Carried(old(applied), p) + if r.Ok? then ItemSum(c.items, p) else 0
      ensures r.Err? ==> applied == old(applied) && byId == old(byId)
      ensures r.Err? ==> if c.id in old(byId) then r.error == DuplicateId(c.id)
        else Explains(r.error, c, lookup, CarriedOf(old(applied)))
    {
      hide Explains, Sides, AllSound, WithinAmounts, Catalogued, Active, ItemSum, Carried, Sound, Distinct, Residual;
      if c.id in byId {
        return Err(DuplicateId(c.id));
      }
      r := CheckItems(c, lookup);
      if r.Err? {
        return r;
      }
      ClearedKeeps(events, byId, reset, applied, c, lookup);
      Apply(c.items, 1);
      byId := byId[c.id := |events|];
      events := events + [Cleared(c)];
    }

    /** Releases a clearing once; what it applied is open again and the record stays. */
    method Reset(id: Id, on: Date, ghost lookup: PostingLookup) returns (r: Result<(), ClearingError>)
      requires Valid(lookup)
      modifies this
      ensures Valid(lookup)
      ensures r == if id !in old(byId) then Err(UnknownClearing(id))
        else if id in old(reset) then Err(AlreadyReset(id)) else Ok(())
      ensures r.Ok? ==> events == old(events) + [Released(id, on)] && reset == old(reset)[id := on]
      ensures r.Ok? ==> forall p ::
        Carried(applied, p) == Carried(old(applied), p) - ItemSum(old(events)[old(byId)[id]].clearing.items, p)
      ensures r.Err? ==> events == old(events) && reset == old(reset) && applied == old(applied)
    {
      hide AllSound, WithinAmounts, Catalogued, Active, ItemSum, Distinct, Carried;
      if id !in byId {
        return Err(UnknownClearing(id));
      }
      if id in reset {
        return Err(AlreadyReset(id));
      }
      CataloguedAt(events, byId, reset, id, lookup);
      CatalogueReleased(events, byId, reset, id, on);
      var at := byId[id];
      ghost var before := applied;
      ReleaseKeeps(events, reset.Keys, at, on, lookup);
      Apply(events[at].clearing.items, -1);
      ReleaseAgrees(events, reset.Keys, at, on, before, applied, lookup);
      events := events + [Released(id, on)];
      reset := reset[id := on];
      assert reset.Keys == old(reset).Keys + {id};
      return Ok(());
    }

    /** Lists what is open among some candidates, keeping their order. */
    method OpenItems(candidates: seq<(Site, PostingRef)>, lookup: PostingLookup)
      returns (r: Result<seq<OpenItem>, ClearingError>)
      requires Valid(lookup)
      ensures r.Ok? <==> forall i :: 0 <= i < |candidates| ==> lookup(candidates[i].1).Some?
      ensures r.Ok? ==> r.value == OpenOf(candidates, lookup, ActiveOf(events, reset.Keys))
      ensures r.Ok? ==> forall item :: item in r.value <==>
        (item.position, item.posting) in candidates && lookup(item.posting).Some?
        && var p, applied := lookup(item.posting).value, Active(events, reset.Keys, item.posting);
           applied < p.amount && item.direction == p.direction && item.original == p.amount
           && item.applied == applied && item.residual == p.amount - applied
      ensures r.Err? ==> r.error.UnknownPosting? && lookup(r.error.posting).None?
    {
      ghost var active := ActiveOf(events, reset.Keys);
      var out: seq<OpenItem> := [];
      for i := 0 to |candidates|
        invariant forall j :: 0 <= j < i ==> lookup(candidates[j].1).Some?
        invariant out == OpenOf(candidates[..i], lookup, active)
      {
        var (site, reference) := candidates[i];
        assert candidates[..i + 1][..i] == candidates[..i];
        var found := lookup(reference);
        if found.None? {
          return Err(UnknownPosting(reference));
        }
        var p := found.value;
        var applied := Carried(applied, reference);
        assert applied == active(reference);
        var residual := p.amount - applied;
        if residual > 0 {
          out := out + [OpenItem(site, reference, p.direction, p.amount, applied, residual)];
        }
      }
      assert candidates[..|candidates|] == candidates;
      forall item
        ensures item in out <==>
          (item.position, item.posting) in candidates && lookup(item.posting).Some?
          && var p, applied := lookup(item.posting).value, Active(events, reset.Keys, item.posting);
             applied < p.amount && item.direction == p.direction && item.original == p.amount
             && item.applied == applied && item.residual == p.amount - applied
      {
        OpenExactly(candidates, lookup, active, item);
      }
      return Ok(out);
    }
  }

  lemma {:induction false} ItemSumNonNegative(items: seq<ClearedItem>, r: PostingRef)
    requires forall i :: 0 <= i < |items| ==> items[i].applied > 0
    ensures ItemSum(items, r) >= 0
  {
    if items != [] {
      ItemSumNonNegative(items[..|items| - 1], r);
    }
  }

  /** What sound clearings apply is never negative. */
  lemma {:induction false} ItemSumWithin(events: seq<ClearingEvent>, resets: set<Id>, lookup: PostingLookup, r: PostingRef)
    requires AllSound(events, lookup)
    ensures Active(events, resets, r) >= 0
  {
    if events != [] {
      var last := events[|events| - 1];
      ItemSumWithin(events[..|events| - 1], resets, lookup, r);
      if last.Cleared? {
        assert Sound(last.clearing, lookup);
        assert forall i :: 0 <= i < |last.clearing.items| ==> OnKey(last.clearing.items[i], last.clearing.key, lookup);
        ItemSumNonNegative(last.clearing.items, r);
      }
    }
  }
}

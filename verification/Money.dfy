/**
 Exact splits of an amount of minor units.

 The largest-remainder rule is stated on its own: every part is its exact share rounded
 down or that plus one, the parts add up to the whole, and no part is rounded up before one
 with a larger remainder, or an equal remainder and a lower index. Such a split is unique.
 */
module Money {
  import opened Wrappers

  datatype MoneyError = Overflow | ZeroWeight | InvalidLiteral | PrecisionLoss(scale: nat)

  const U128_MAX: nat := U64_MAX * U64_MAX + 2 * U64_MAX

  /** The magnitude of the least amount, which no positive amount reaches. */
  const MIN_MAGNITUDE: nat := 0x8000_0000_0000_0000

  /** A slice of weights, whose length a machine word holds. */
  type Weights = s: seq<u64> | |s| <= U64_MAX

  function Magnitude(n: int): nat
  {
    if n < 0 then -n else n
  }

  /** How far apart two amounts are. */
  function Gap(a: int, b: int): (n: nat)
    ensures n == a - b || n == b - a
  {
    if a < b then b - a else a - b
  }

  function WithSign(negative: bool, n: int): int
  {
    if negative then -n else n
  }

  function Total(ns: seq<nat>): nat
  {
    if ns == [] then 0 else Total(ns[..|ns| - 1]) + ns[|ns| - 1]
  }

  function SignedSum(ns: seq<int>): int
  {
    if ns == [] then 0 else SignedSum(ns[..|ns| - 1]) + ns[|ns| - 1]
  }

  /** A part's exact share rounded down, and what rounding leaves, in units of one over the total weight. */
  function Floor(m: nat, w: nat, total: nat): nat
    requires total > 0
  {
    m * w / total
  }

  function Remainder(m: nat, w: nat, total: nat): (r: nat)
    requires total > 0
    ensures r < total
  {
    m * w % total
  }

  /** A larger remainder goes first, and of equal ones the lower index. */
  predicate Before(a: (nat, nat), b: (nat, nat))
  {
    a.0 > b.0 || (a.0 == b.0 && a.1 < b.1)
  }

  predicate RoundedUp(m: nat, ws: seq<nat>, parts: seq<nat>, i: nat)
    requires Total(ws) > 0 && i < |ws| == |parts|
  {
    parts[i] > Floor(m, ws[i], Total(ws))
  }

  /** The split by largest remainders. */
  ghost predicate IsAllocation(m: nat, ws: seq<nat>, parts: seq<nat>)
    requires Total(ws) > 0
  {
    var total := Total(ws);
    && |parts| == |ws| && Total(parts) == m
    && (forall i :: 0 <= i < |ws| ==>
          parts[i] == Floor(m, ws[i], total) || parts[i] == Floor(m, ws[i], total) + 1)
    && (forall i, j :: 0 <= i < |ws| && 0 <= j < |ws| && RoundedUp(m, ws, parts, i) && !RoundedUp(m, ws, parts, j) ==>
          Before((Remainder(m, ws[i], total), i), (Remainder(m, ws[j], total), j)))
  }

  lemma {:induction false} TotalMonotone(a: seq<nat>, b: seq<nat>)
    requires |a| == |b| && forall i :: 0 <= i < |a| ==> a[i] <= b[i]
    ensures Total(a) <= Total(b)
    ensures Total(a) == Total(b) ==> a == b
  {
    if a != [] {
      TotalMonotone(a[..|a| - 1], b[..|b| - 1]);
      assert a == a[..|a| - 1] + [a[|a| - 1]] && b == b[..|b| - 1] + [b[|b| - 1]];
    }
  }

  /**
   The largest-remainder rule in plain arithmetic: every part is its exact share rounded down or
   one more, the parts add up, and the extra units go to the largest remainders, of equal ones to
   the lower index.
   */
  lemma AllocationIs(m: nat, ws: seq<nat>, parts: seq<nat>)
    requires Total(ws) > 0
    ensures IsAllocation(m, ws, parts) <==>
      && |parts| == |ws| && Total(parts) == m
      && (forall i :: 0 <= i < |ws| ==> parts[i] == m * ws[i] / Total(ws) || parts[i] == m * ws[i] / Total(ws) + 1)
      && (forall i, j :: 0 <= i < |ws| && 0 <= j < |ws| && parts[i] > m * ws[i] / Total(ws) && parts[j] == m * ws[j] / Total(ws) ==>
            m * ws[i] % Total(ws) > m * ws[j] % Total(ws) || (m * ws[i] % Total(ws) == m * ws[j] % Total(ws) && i < j))
  {
    hide Total;
  }

  lemma AllocationTotal(m: nat, ws: seq<nat>, parts: seq<nat>)
    requires Total(ws) > 0 && IsAllocation(m, ws, parts)
    ensures Total(parts) == m && |parts| == |ws|
  {
  }

  /** The rule leaves no choice. */
  lemma AllocationUnique(m: nat, ws: seq<nat>, p: seq<nat>, q: seq<nat>)
    requires Total(ws) > 0 && IsAllocation(m, ws, p) && IsAllocation(m, ws, q)
    ensures p == q
  {
    hide Total, Floor, Remainder, IsAllocation, RoundedUp;
    AllocationTotal(m, ws, p);
    AllocationTotal(m, ws, q);
    if forall i :: 0 <= i < |p| ==> p[i] <= q[i] {
      TotalMonotone(p, q);
    } else if forall i :: 0 <= i < |p| ==> q[i] <= p[i] {
      TotalMonotone(q, p);
    } else {
      var i :| 0 <= i < |p| && p[i] > q[i];
      var j :| 0 <= j < |p| && q[j] > p[j];
      Differs(m, ws, p, q, i);
      Differs(m, ws, q, p, j);
      GoesFirst(m, ws, p, i, j);
      GoesFirst(m, ws, q, j, i);
    }
  }

  /** Two splits can differ on a part only in whether it is rounded up. */
  lemma Differs(m: nat, ws: seq<nat>, p: seq<nat>, q: seq<nat>, i: nat)
    requires Total(ws) > 0 && IsAllocation(m, ws, p) && IsAllocation(m, ws, q)
    requires i < |ws| == |p| == |q| && p[i] > q[i]
    ensures RoundedUp(m, ws, p, i) && !RoundedUp(m, ws, q, i)
  {
    hide Total, Floor, Remainder;
  }

  lemma GoesFirst(m: nat, ws: seq<nat>, parts: seq<nat>, i: nat, j: nat)
    requires Total(ws) > 0 && IsAllocation(m, ws, parts) && i < |ws| == |parts| && j < |ws|
    requires RoundedUp(m, ws, parts, i) && !RoundedUp(m, ws, parts, j)
    ensures Before((Remainder(m, ws[i], Total(ws)), i), (Remainder(m, ws[j], Total(ws)), j))
  {
    hide Total, Floor, Remainder, RoundedUp;
  }

  function Floors(m: nat, ws: seq<nat>, total: nat): seq<nat>
    requires total > 0
  {
    seq(|ws|, i requires 0 <= i < |ws| => Floor(m, ws[i], total))
  }

  function Remainders(m: nat, ws: seq<nat>, total: nat): seq<nat>
    requires total > 0
  {
    seq(|ws|, i requires 0 <= i < |ws| => Remainder(m, ws[i], total))
  }

  lemma Divide(m: nat, w: nat, total: nat)
    requires total > 0
    ensures m * w == Floor(m, w, total) * total + Remainder(m, w, total)
  {
  }

  lemma Distributive(a: nat, b: nat, c: nat)
    ensures (a + b) * c == a * c + b * c
  {
  }

  /** Shares and remainders account for the whole amount. */
  lemma {:induction false} SharesAndRemainders(m: nat, ws: seq<nat>, total: nat)
    requires total > 0
    ensures Total(Floors(m, ws, total)) * total + Total(Remainders(m, ws, total)) == m * Total(ws)
  {
    hide Floor, Remainder, Floors, Remainders, Total;
    if ws == [] {
      Nothing(m, ws, total);
    } else {
      var front, w := ws[..|ws| - 1], ws[|ws| - 1];
      SharesAndRemainders(m, front, total);
      TotalsNext(m, ws, total);
      Divide(m, w, total);
      OneMoreShare(Total(Floors(m, front, total)), Floor(m, w, total),
        Total(Remainders(m, front, total)), Remainder(m, w, total), Total(front), w, m, total);
    }
  }

  lemma TotalsNext(m: nat, ws: seq<nat>, total: nat)
    requires ws != [] && total > 0
    ensures var front, w := ws[..|ws| - 1], ws[|ws| - 1];
      && Total(Floors(m, ws, total)) == Total(Floors(m, front, total)) + Floor(m, w, total)
      && Total(Remainders(m, ws, total)) == Total(Remainders(m, front, total)) + Remainder(m, w, total)
      && Total(ws) == Total(front) + w
  {
    hide Floor, Remainder;
    assert Floors(m, ws, total)[..|ws| - 1] == Floors(m, ws[..|ws| - 1], total);
    assert Remainders(m, ws, total)[..|ws| - 1] == Remainders(m, ws[..|ws| - 1], total);
  }

  lemma OneMoreShare(floors: nat, f: nat, remainders: nat, r: nat, weights: nat, w: nat, m: nat, total: nat)
    requires floors * total + remainders == m * weights && m * w == f * total + r
    ensures (floors + f) * total + (remainders + r) == m * (weights + w)
  {
    Distributive(floors, f, total);
    Distributive(weights, w, m);
  }

  lemma Nothing(m: nat, ws: seq<nat>, total: nat)
    requires ws == [] && total > 0
    ensures Total(Floors(m, ws, total)) == 0 && Total(Remainders(m, ws, total)) == 0 && Total(ws) == 0
  {
  }

  /** How much is left after rounding every part down. */
  function Leftover(m: nat, ws: seq<nat>): int
    requires Total(ws) > 0
  {
    m - Total(Floors(m, ws, Total(ws)))
  }

  lemma LeftoverTimesTotal(m: nat, ws: seq<nat>)
    requires Total(ws) > 0
    ensures Leftover(m, ws) * Total(ws) == Total(Remainders(m, ws, Total(ws)))
    ensures Leftover(m, ws) >= 0
  {
    hide Floor, Remainder, Total;
    var total := Total(ws);
    var floors := Total(Floors(m, ws, total));
    SharesAndRemainders(m, ws, total);
    assert Leftover(m, ws) * total == m * total - floors * total;
    if Leftover(m, ws) < 0 {
      Negative(Leftover(m, ws), total);
    }
  }

  lemma Negative(a: int, b: nat)
    requires a < 0 < b
    ensures a * b < 0
  {
  }

  /** Which parts are rounded up, as ones and zeros. */
  function Ups(m: nat, ws: seq<nat>, parts: seq<nat>): seq<nat>
    requires Total(ws) > 0 && |parts| == |ws|
  {
    seq(|ws|, i requires 0 <= i < |ws| => if RoundedUp(m, ws, parts, i) then 1 else 0)
  }

  lemma {:induction false} TotalSum(a: seq<nat>, b: seq<nat>, c: seq<nat>)
    requires |a| == |b| == |c| && forall i :: 0 <= i < |a| ==> c[i] == a[i] + b[i]
    ensures Total(c) == Total(a) + Total(b)
  {
    if a != [] {
      TotalSum(a[..|a| - 1], b[..|b| - 1], c[..|c| - 1]);
    }
  }

  /** A weighted count bounds the sum it dominates. */
  lemma {:induction false} TotalBound(rems: seq<nat>, ups: seq<nat>, cap: nat)
    requires |rems| == |ups| && forall i :: 0 <= i < |rems| ==> rems[i] <= ups[i] * cap
    ensures Total(rems) <= Total(ups) * cap
  {
    if rems != [] {
      TotalBound(rems[..|rems| - 1], ups[..|ups| - 1], cap);
      Distributive(Total(ups[..|ups| - 1]), ups[|ups| - 1], cap);
    }
  }

  lemma {:induction false} TotalAtLeast(ns: seq<nat>, i: nat)
    requires i < |ns|
    ensures Total(ns) >= ns[i]
  {
    if i < |ns| - 1 {
      TotalAtLeast(ns[..|ns| - 1], i);
    }
  }

  lemma UpsCountLeftover(m: nat, ws: seq<nat>, parts: seq<nat>)
    requires Total(ws) > 0 && IsAllocation(m, ws, parts)
    ensures Total(Ups(m, ws, parts)) == Leftover(m, ws)
  {
    hide Floor, Remainder, Total;
    TotalSum(Floors(m, ws, Total(ws)), Ups(m, ws, parts), parts);
  }

  /** Only a part with something left over is rounded up; a part of no weight gets nothing. */
  lemma RoundedUpHasRemainder(m: nat, ws: seq<nat>, parts: seq<nat>, i: nat)
    requires Total(ws) > 0 && IsAllocation(m, ws, parts) && i < |ws|
    ensures RoundedUp(m, ws, parts, i) ==> Remainder(m, ws[i], Total(ws)) > 0
    ensures ws[i] == 0 ==> parts[i] == 0
  {
    var total := Total(ws);
    assert ws[i] == 0 ==> Remainder(m, ws[i], total) == 0 && Floor(m, ws[i], total) == 0;
    if RoundedUp(m, ws, parts, i) && Remainder(m, ws[i], total) == 0 {
      NoRemainderNoUnit(m, ws, parts, i);
    }
  }

  lemma NoRemainderNoUnit(m: nat, ws: seq<nat>, parts: seq<nat>, i: nat)
    requires Total(ws) > 0 && IsAllocation(m, ws, parts) && i < |ws|
    requires Remainder(m, ws[i], Total(ws)) == 0
    ensures !RoundedUp(m, ws, parts, i)
  {
    hide Floor, Total;
    if RoundedUp(m, ws, parts, i) {
      var total := Total(ws);
      var rems, ups := Remainders(m, ws, total), Ups(m, ws, parts);
      UpsBoundRemainders(m, ws, parts, i);
      TotalBound(rems, ups, total - 1);
      UpsCountLeftover(m, ws, parts);
      LeftoverTimesTotal(m, ws);
      TotalAtLeast(ups, i);
      Shortfall(Total(ups), total);
    }
  }

  lemma Shortfall(count: nat, total: nat)
    requires count > 0 && total > 0
    ensures count * (total - 1) < count * total
  {
  }

  lemma UpsBoundRemainders(m: nat, ws: seq<nat>, parts: seq<nat>, i: nat)
    requires Total(ws) > 0 && IsAllocation(m, ws, parts) && i < |ws|
    requires Remainder(m, ws[i], Total(ws)) == 0 && RoundedUp(m, ws, parts, i)
    ensures var rems, ups := Remainders(m, ws, Total(ws)), Ups(m, ws, parts);
      forall j :: 0 <= j < |ws| ==> rems[j] <= ups[j] * (Total(ws) - 1)
  {
    hide Floor, Remainder, Total;
    forall j | 0 <= j < |ws|
      ensures Remainders(m, ws, Total(ws))[j] <= Ups(m, ws, parts)[j] * (Total(ws) - 1)
    {
      if !RoundedUp(m, ws, parts, j) {
        assert Before((Remainder(m, ws[i], Total(ws)), i), (Remainder(m, ws[j], Total(ws)), j));
      }
    }
  }

  /** The quota rule: every part is less than one unit away from its exact share. */
  lemma WithinOneUnit(m: nat, ws: seq<nat>, parts: seq<nat>, i: nat)
    requires Total(ws) > 0 && IsAllocation(m, ws, parts) && i < |ws|
    ensures Gap(m * ws[i], parts[i] * Total(ws)) < Total(ws)
  {
    hide Floor, Remainder, Total;
    var total := Total(ws);
    RoundedUpHasRemainder(m, ws, parts, i);
    Divide(m, ws[i], total);
    Distributive(Floor(m, ws[i], total), 1, total);
  }

  // ------------------------------------------------------- the only failure

  ghost predicate OthersZero(ws: seq<nat>, i: nat, j: nat)
  {
    forall k :: 0 <= k < |ws| && k != i && k != j ==> ws[k] == 0
  }

  /** One weight alone, or the greatest possible weight followed by a weight of one. */
  ghost predicate OneTakesAll(ws: seq<nat>)
  {
    || (exists i :: 0 <= i < |ws| && ws[i] > 0 && OthersZero(ws, i, i))
    || (exists i, j :: 0 <= i < j < |ws| && ws[i] == U64_MAX && ws[j] == 1 && OthersZero(ws, i, j))
  }

  lemma {:induction false} TotalZeros(ns: seq<nat>)
    requires forall i :: 0 <= i < |ns| ==> ns[i] == 0
    ensures Total(ns) == 0
  {
    if ns != [] {
      TotalZeros(ns[..|ns| - 1]);
    }
  }

  /** A total whose other terms are zero. */
  lemma {:induction false} TotalOfTwo(ns: seq<nat>, i: nat, j: nat)
    requires i <= j < |ns| && OthersZero(ns, i, j)
    ensures Total(ns) == if i == j then ns[i] else ns[i] + ns[j]
  {
    var front := ns[..|ns| - 1];
    if j < |ns| - 1 {
      TotalOfTwo(front, i, j);
    } else if i < j {
      TotalOfTwo(front, i, i);
    } else {
      TotalZeros(front);
    }
  }

  /** Two terms never exceed a total. */
  lemma {:induction false} TotalAtLeastTwo(ns: seq<nat>, i: nat, j: nat)
    requires i < j < |ns|
    ensures Total(ns) >= ns[i] + ns[j]
  {
    if j < |ns| - 1 {
      TotalAtLeastTwo(ns[..|ns| - 1], i, j);
    } else {
      TotalAtLeast(ns[..|ns| - 1], i);
    }
  }

  /** A part that is everything leaves nothing for the others. */
  lemma AllToOne(parts: seq<nat>, i: nat)
    requires i < |parts| && parts[i] == Total(parts)
    ensures OthersZero(parts, i, i)
  {
    hide Total;
    forall k | 0 <= k < |parts| && k != i
      ensures parts[k] == 0
    {
      TotalAtLeastTwo(parts, if k < i then k else i, if k < i then i else k);
    }
  }

  lemma FloorIs(m: nat, w: nat, total: nat, q: nat, r: nat)
    requires total > 0 && m * w == q * total + r && r < total
    ensures Floor(m, w, total) == q && Remainder(m, w, total) == r
  {
    hide Floor, Remainder;
    Divide(m, w, total);
    DivisionUnique(Floor(m, w, total), Remainder(m, w, total), q, r, total);
  }

  lemma NextMultiple(a: nat, b: nat, total: nat)
    requires a < b
    ensures a * total + total <= b * total
  {
    var gap := b - a - 1;
    assert b == a + 1 + gap && gap * total >= 0;
    Distributive(a + 1, gap, total);
    Distributive(a, 1, total);
  }

  lemma DivisionUnique(a: nat, r: nat, b: nat, s: nat, total: nat)
    requires a * total + r == b * total + s && r < total && s < total
    ensures a == b && r == s
  {
    if a != b {
      NextMultiple(if a < b then a else b, if a < b then b else a, total);
    }
  }

  /** With these weights one part is the whole of the least amount's magnitude. */
  lemma TakesAll(ws: seq<nat>, parts: seq<nat>)
    requires Total(ws) > 0 && IsAllocation(MIN_MAGNITUDE, ws, parts) && OneTakesAll(ws)
    ensures exists i :: 0 <= i < |ws| && parts[i] == MIN_MAGNITUDE
  {
    hide Floor, Remainder, Total;
    if i :| 0 <= i < |ws| && ws[i] > 0 && OthersZero(ws, i, i) {
      ZerosFollow(MIN_MAGNITUDE, ws, parts, i, i);
      TotalOfTwo(parts, i, i);
    } else {
      var i, j :| 0 <= i < j < |ws| && ws[i] == U64_MAX && ws[j] == 1 && OthersZero(ws, i, j);
      ZerosFollow(MIN_MAGNITUDE, ws, parts, i, j);
      TotalOfTwo(parts, i, j);
      TotalOfTwo(ws, i, j);
      FloorIs(MIN_MAGNITUDE, U64_MAX, U64_MAX + 1, MIN_MAGNITUDE - 1, MIN_MAGNITUDE);
      FloorIs(MIN_MAGNITUDE, 1, U64_MAX + 1, 0, MIN_MAGNITUDE);
    }
  }

  lemma ZerosFollow(m: nat, ws: seq<nat>, parts: seq<nat>, i: nat, j: nat)
    requires Total(ws) > 0 && IsAllocation(m, ws, parts) && OthersZero(ws, i, j)
    ensures OthersZero(parts, i, j)
  {
    hide Floor, Remainder, Total;
    forall k | 0 <= k < |parts| && k != i && k != j
      ensures parts[k] == 0
    {
      RoundedUpHasRemainder(m, ws, parts, k);
    }
  }

  /** Nothing but these weights makes one part the whole of it. */
  lemma OnlyThenAll(ws: seq<nat>, parts: seq<nat>, i: nat)
    requires Total(ws) > 0 && IsAllocation(MIN_MAGNITUDE, ws, parts)
    requires forall k :: 0 <= k < |ws| ==> ws[k] <= U64_MAX
    requires i < |ws| && parts[i] == MIN_MAGNITUDE
    ensures OneTakesAll(ws)
  {
    hide Floor, Remainder, Total;
    AllToOne(parts, i);
    if j :| 0 <= j < |ws| && j != i && ws[j] > 0 {
      SecondWeight(ws, parts, i, j);
      TotalIsTwo(ws, i, j);
    } else {
      if ws[i] == 0 {
        RoundedUpHasRemainder(MIN_MAGNITUDE, ws, parts, i);
      }
      assert OthersZero(ws, i, i);
    }
  }

  lemma TotalIsTwo(ws: seq<nat>, i: nat, j: nat)
    requires i < j < |ws| && Total(ws) == ws[i] + ws[j]
    ensures OthersZero(ws, i, j)
  {
    var cleared := ws[i := 0];
    hide Total;
    forall k | 0 <= k < |ws| && k != i && k != j
      ensures ws[k] == 0
    {
      TotalWithout(ws, i);
      TotalAtLeastTwo(cleared, if k < j then k else j, if k < j then j else k);
    }
  }

  lemma {:induction false} TotalWithout(ns: seq<nat>, i: nat)
    requires i < |ns|
    ensures Total(ns[i := 0]) == Total(ns) - ns[i]
  {
    if i < |ns| - 1 {
      TotalWithout(ns[..|ns| - 1], i);
      assert ns[i := 0][..|ns| - 1] == ns[..|ns| - 1][i := 0];
    } else {
      assert ns[i := 0][..|ns| - 1] == ns[..|ns| - 1];
    }
  }

  /** A second weight beside one that takes everything is a single unit beside the greatest weight. */
  lemma SecondWeight(ws: seq<nat>, parts: seq<nat>, i: nat, j: nat)
    requires Total(ws) > 0 && IsAllocation(MIN_MAGNITUDE, ws, parts)
    requires forall k :: 0 <= k < |ws| ==> ws[k] <= U64_MAX
    requires i < |ws| && j < |ws| && i != j && parts[i] == MIN_MAGNITUDE && parts[j] == 0 && ws[j] > 0
    ensures ws[i] == U64_MAX && ws[j] == 1 && Total(ws) == U64_MAX + 1 && i < j
  {
    hide Floor, Remainder, Total;
    var m, total := MIN_MAGNITUDE, Total(ws);
    TotalAtLeastTwo(ws, if i < j then i else j, if i < j then j else i);
    Divide(m, ws[i], total);
    Divide(m, ws[j], total);
    FullShare(ws[i], total, Floor(m, ws[i], total), Remainder(m, ws[i], total));
    assert RoundedUp(m, ws, parts, i) && !RoundedUp(m, ws, parts, j);
    assert Before((Remainder(m, ws[i], total), i), (Remainder(m, ws[j], total), j));
  }

  lemma FullShare(w: nat, total: nat, q: nat, r: nat)
    requires w < total && MIN_MAGNITUDE * w == q * total + r && r < total
    requires q == MIN_MAGNITUDE || q + 1 == MIN_MAGNITUDE
    ensures q + 1 == MIN_MAGNITUDE && r == total - MIN_MAGNITUDE * (total - w)
  {
  }

  // ----------------------------------------------------------- ranking parts

  function Inserted(x: (nat, nat), ranked: seq<(nat, nat)>): seq<(nat, nat)>
  {
    if ranked == [] then [x]
    else if Before(x, ranked[0]) then [x] + ranked
    else [ranked[0]] + Inserted(x, ranked[1..])
  }

  /** Remainders with their indices, in the order leftover units are handed out. */
  function Ranked(items: seq<(nat, nat)>): seq<(nat, nat)>
  {
    if items == [] then [] else Inserted(items[|items| - 1], Ranked(items[..|items| - 1]))
  }

  ghost predicate InOrder(ranked: seq<(nat, nat)>)
  {
    forall i, j :: 0 <= i < j < |ranked| ==> Before(ranked[i], ranked[j])
  }

  lemma {:induction false} InsertedFacts(x: (nat, nat), ranked: seq<(nat, nat)>)
    requires InOrder(ranked) && forall i :: 0 <= i < |ranked| ==> ranked[i].1 != x.1
    ensures InOrder(Inserted(x, ranked)) && |Inserted(x, ranked)| == |ranked| + 1
    ensures forall y :: y in Inserted(x, ranked) <==> y == x || y in ranked
  {
    if ranked != [] && !Before(x, ranked[0]) {
      var rest := ranked[1..];
      InsertedFacts(x, rest);
      assert ranked == [ranked[0]] + rest;
      forall j | 0 <= j < |Inserted(x, rest)|
        ensures Before(ranked[0], Inserted(x, rest)[j])
      {
        assert Inserted(x, rest)[j] in Inserted(x, rest);
      }
    }
  }

  lemma {:induction false} RankedFacts(items: seq<(nat, nat)>)
    requires forall i :: 0 <= i < |items| ==> items[i].1 == i
    ensures InOrder(Ranked(items)) && |Ranked(items)| == |items|
    ensures forall y :: y in Ranked(items) <==> y in items
  {
    if items != [] {
      var front, x := items[..|items| - 1], items[|items| - 1];
      RankedFacts(front);
      forall i | 0 <= i < |Ranked(front)|
        ensures Ranked(front)[i].1 != x.1
      {
        assert Ranked(front)[i] in front;
      }
      InsertedFacts(x, Ranked(front));
      assert items == front + [x];
    }
  }

  // ------------------------------------------------------------ the algorithm

  lemma TotalStep(ns: seq<nat>, i: nat)
    requires i < |ns|
    ensures Total(ns[..i + 1]) == Total(ns[..i]) + ns[i]
  {
    assert ns[..i + 1][..i] == ns[..i];
  }

  lemma {:induction false} TotalFits(ws: seq<u64>, n: nat)
    requires n <= |ws|
    ensures Total(ws[..n]) <= n * U64_MAX
  {
    if n > 0 {
      TotalStep(ws, n - 1);
      TotalFits(ws, n - 1);
    }
  }

  /** Adds up the weights; a slice of them cannot overflow 128 bits. */
  method TotalWeight(ws: Weights) returns (r: Option<nat>)
    ensures r == Some(Total(ws))
  {
    hide Total;
    var total := 0;
    NoWeights(ws);
    for i := 0 to |ws|
      invariant total == Total(ws[..i])
    {
      TotalStep(ws, i);
      TotalFits(ws, i + 1);
      total := total + ws[i];
      if total > U128_MAX {
        return None;
      }
    }
    assert ws[..|ws|] == ws;
    return Some(total);
  }

  lemma NoWeights(ws: seq<nat>)
    ensures Total(ws[..0]) == 0
  {
  }

  /** Each part rounded down, what that leaves of it, and how much is given out so far. */
  method Shares(m: nat, ws: Weights, total: nat) returns (r: Option<(seq<nat>, seq<(nat, nat)>, nat)>)
    requires m <= MIN_MAGNITUDE && total == Total(ws) > 0
    ensures r.Some? && r.value.0 == Floors(m, ws, total) && r.value.2 == Total(Floors(m, ws, total))
    ensures |r.value.1| == |ws|
    ensures forall i :: 0 <= i < |ws| ==> r.value.1[i] == (Remainder(m, ws[i], total), i)
  {
    hide Total, Floor, Remainder;
    var parts: seq<nat> := [];
    var remainders: seq<(nat, nat)> := [];
    var given := 0;
    NoWeights(parts);
    LeftoverTimesTotal(m, ws);
    for i := 0 to |ws|
      invariant parts == Floors(m, ws, total)[..i] && given == Total(parts)
      invariant |remainders| == i
      invariant forall j :: 0 <= j < i ==> remainders[j] == (Remainder(m, ws[j], total), j)
    {
      var w := ws[i];
      ProductFits(m, w);
      if m * w > U128_MAX {
        return None;
      }
      var share, rem := Floor(m, w, total), Remainder(m, w, total);
      TotalStep(Floors(m, ws, total), i);
      PartialTotal(Floors(m, ws, total), i + 1);
      if given + share > U128_MAX {
        return None;
      }
      given := given + share;
      parts := parts + [share];
      remainders := remainders + [(rem, i)];
    }
    return Some((parts, remainders, given));
  }

  lemma ProductFits(m: nat, w: u64)
    requires m <= MIN_MAGNITUDE
    ensures m * w <= U128_MAX
  {
    ProductMonotone(m, MIN_MAGNITUDE, w);
    ProductMonotone(w, U64_MAX, MIN_MAGNITUDE);
  }

  lemma ProductMonotone(a: nat, b: nat, c: nat)
    requires a <= b
    ensures a * c <= b * c
  {
    var gap := b - a;
    assert gap * c >= 0;
    Distributive(a, gap, c);
  }

  lemma {:induction false} PartialTotal(ns: seq<nat>, n: nat)
    requires n <= |ns|
    ensures Total(ns[..n]) <= Total(ns)
    decreases |ns|
  {
    if n < |ns| {
      assert ns[..|ns| - 1][..n] == ns[..n];
      PartialTotal(ns[..|ns| - 1], n);
    } else {
      assert ns[..n] == ns;
    }
  }

  lemma {:induction false} TotalUpdate(ns: seq<nat>, i: nat, v: nat)
    requires i < |ns|
    ensures Total(ns[i := v]) == Total(ns) - ns[i] + v
  {
    if i < |ns| - 1 {
      TotalUpdate(ns[..|ns| - 1], i, v);
      assert ns[i := v][..|ns| - 1] == ns[..|ns| - 1][i := v];
    } else {
      assert ns[i := v][..|ns| - 1] == ns[..|ns| - 1];
    }
  }

  /** One unit for every part is more than rounding down can have left. */
  lemma LeftoverSmall(m: nat, ws: seq<nat>)
    requires Total(ws) > 0
    ensures 0 <= Leftover(m, ws) < |ws|
  {
    hide Floor, Total;
    var total := Total(ws);
    LeftoverTimesTotal(m, ws);
    var ones := seq(|ws|, _ => 1);
    TotalOfOnes(|ws|);
    TotalBound(Remainders(m, ws, total), ones, total - 1);
    SomeWeight(ws);
    TooMany(Leftover(m, ws), |ws|, total);
  }

  lemma SomeWeight(ws: seq<nat>)
    requires Total(ws) > 0
    ensures ws != []
  {
  }

  lemma TooMany(count: nat, n: nat, total: nat)
    requires total > 0 && n > 0 && count * total <= n * (total - 1)
    ensures count < n
  {
    if count >= n {
      Shortfall(n, total);
      NextMultiple(n - 1, count, total);
      Distributive(n - 1, 1, total);
    }
  }

  lemma {:induction false} TotalOfOnes(n: nat)
    ensures Total(seq(n, _ => 1)) == n
  {
    if n > 0 {
      TotalOfOnes(n - 1);
      assert seq(n, _ => 1)[..n - 1] == seq(n - 1, _ => 1);
    }
  }

  /** The parts after the first `k` in rank order have been given a unit. */
  ghost predicate HandedOut(floors: seq<nat>, ranked: seq<(nat, nat)>, k: nat, parts: seq<nat>)
  {
    && |parts| == |floors| && k <= |ranked|
    && forall j :: 0 <= j < |ranked| ==>
      ranked[j].1 < |floors| && parts[ranked[j].1] == floors[ranked[j].1] + if j < k then 1 else 0
  }

  lemma HandOutNext(floors: seq<nat>, ranked: seq<(nat, nat)>, k: nat, parts: seq<nat>)
    requires HandedOut(floors, ranked, k, parts) && k < |ranked| && InOrder(ranked)
    requires forall i, j :: 0 <= i < j < |ranked| ==> ranked[i].1 != ranked[j].1
    ensures var i := ranked[k].1;
      HandedOut(floors, ranked, k + 1, parts[i := parts[i] + 1]) && Total(parts[i := parts[i] + 1]) == Total(parts) + 1
  {
    hide Total;
    TotalUpdate(parts, ranked[k].1, parts[ranked[k].1] + 1);
  }

  ghost predicate Listed(ranked: seq<(nat, nat)>, i: nat)
  {
    exists j :: 0 <= j < |ranked| && ranked[j].1 == i
  }

  lemma RankedIndices(m: nat, ws: seq<nat>, items: seq<(nat, nat)>)
    requires Total(ws) > 0 && |items| == |ws|
    requires forall i :: 0 <= i < |ws| ==> items[i] == (Remainder(m, ws[i], Total(ws)), i)
    ensures var ranked := Ranked(items);
      && InOrder(ranked) && |ranked| == |ws|
      && (forall j :: 0 <= j < |ranked| ==>
            ranked[j].1 < |ws| && ranked[j] == (Remainder(m, ws[ranked[j].1], Total(ws)), ranked[j].1))
      && (forall i, j :: 0 <= i < j < |ranked| ==> ranked[i].1 != ranked[j].1)
      && (forall i :: 0 <= i < |ws| ==> Listed(ranked, i))
  {
    hide Total, Remainder, Ranked;
    RankedFacts(items);
    var ranked := Ranked(items);
    forall j | 0 <= j < |ranked|
      ensures ranked[j].1 < |ws| && ranked[j] == (Remainder(m, ws[ranked[j].1], Total(ws)), ranked[j].1)
    {
      assert ranked[j] in items;
    }
    forall i | 0 <= i < |ws|
      ensures Listed(ranked, i)
    {
      assert items[i] in ranked;
    }
  }

  /** Handing out by rank is the largest-remainder rule. */
  lemma RankIsRule(m: nat, ws: seq<nat>, items: seq<(nat, nat)>, k: nat, parts: seq<nat>)
    requires Total(ws) > 0 && |items| == |ws|
    requires forall i :: 0 <= i < |ws| ==> items[i] == (Remainder(m, ws[i], Total(ws)), i)
    requires HandedOut(Floors(m, ws, Total(ws)), Ranked(items), k, parts) && Total(parts) == m
    ensures IsAllocation(m, ws, parts)
  {
    hide Total, Floor, Remainder, Ranked;
    RankedIndices(m, ws, items);
    forall i | 0 <= i < |ws|
      ensures parts[i] == Floor(m, ws[i], Total(ws)) || parts[i] == Floor(m, ws[i], Total(ws)) + 1
    {
      var _ := RankAt(m, ws, items, k, parts, i);
    }
    forall i, j | 0 <= i < |ws| && 0 <= j < |ws| && RoundedUp(m, ws, parts, i) && !RoundedUp(m, ws, parts, j)
      ensures Before((Remainder(m, ws[i], Total(ws)), i), (Remainder(m, ws[j], Total(ws)), j))
    {
      var a := RankAt(m, ws, items, k, parts, i);
      var b := RankAt(m, ws, items, k, parts, j);
    }
  }

  /** The rank of a part; it was rounded up exactly when it ranks among the first `k`. */
  lemma RankAt(m: nat, ws: seq<nat>, items: seq<(nat, nat)>, k: nat, parts: seq<nat>, i: nat) returns (rank: nat)
    requires Total(ws) > 0 && |items| == |ws| && i < |ws|
    requires forall i :: 0 <= i < |ws| ==> items[i] == (Remainder(m, ws[i], Total(ws)), i)
    requires HandedOut(Floors(m, ws, Total(ws)), Ranked(items), k, parts)
    ensures |parts| == |ws| && rank < |Ranked(items)| == |ws|
    ensures Ranked(items)[rank] == (Remainder(m, ws[i], Total(ws)), i)
    ensures parts[i] == Floor(m, ws[i], Total(ws)) + if rank < k then 1 else 0
  {
    hide Total, Floor, Remainder, Ranked;
    RankedIndices(m, ws, items);
    assert Listed(Ranked(items), i);
    rank :| 0 <= rank < |Ranked(items)| && Ranked(items)[rank].1 == i;
  }

  /** Gives one unit each to the parts with the largest remainders; one pass is always enough. */
  method HandOut(m: nat, ws: Weights, floors: seq<nat>, items: seq<(nat, nat)>, leftover: nat)
    returns (parts: seq<nat>)
    requires Total(ws) > 0 && |items| == |ws| && floors == Floors(m, ws, Total(ws)) && leftover == Leftover(m, ws)
    requires forall i :: 0 <= i < |ws| ==> items[i] == (Remainder(m, ws[i], Total(ws)), i)
    ensures IsAllocation(m, ws, parts)
  {
    hide Total, Floor, Remainder, Ranked, Floors;
    RankedIndices(m, ws, items);
    LeftoverSmall(m, ws);
    FloorsCount(m, ws);
    var ranked := Ranked(items);
    parts := floors;
    var left := leftover;
    var k := 0;
    while k < |ranked| && left != 0
      invariant 0 <= k <= |ranked| && left == leftover - k && left >= 0
      invariant HandedOut(floors, ranked, k, parts) && Total(parts) + left == m
    {
      HandOutNext(floors, ranked, k, parts);
      parts := parts[ranked[k].1 := parts[ranked[k].1] + 1];
      left := left - 1;
      k := k + 1;
    }
    RankIsRule(m, ws, items, k, parts);
  }

  lemma FloorsCount(m: nat, ws: seq<nat>)
    requires Total(ws) > 0
    ensures |Floors(m, ws, Total(ws))| == |ws|
  {
  }

  function Magnitudes(values: seq<int>): (ms: seq<nat>)
    ensures |ms| == |values|
  {
    seq(|values|, i requires 0 <= i < |values| => Magnitude(values[i]))
  }

  /** Puts the sign back; only a part beyond the largest amount cannot take one. */
  method Signed(parts: seq<nat>, negative: bool) returns (r: Option<seq<i64>>)
    ensures r.None? <==> exists i :: 0 <= i < |parts| && parts[i] > I64_MAX
    ensures r.Some? ==> Magnitudes(r.value) == parts
    ensures r.Some? ==> forall i :: 0 <= i < |parts| ==> if negative then r.value[i] <= 0 else r.value[i] >= 0
  {
    var out: seq<i64> := [];
    for i := 0 to |parts|
      invariant |out| == i
      invariant forall j :: 0 <= j < i ==> parts[j] <= I64_MAX && out[j] == WithSign(negative, parts[j])
    {
      if parts[i] > I64_MAX {
        return None;
      }
      out := out + [WithSign(negative, parts[i])];
    }
    return Some(out);
  }

  lemma {:induction false} SignedTotals(values: seq<int>, negative: bool)
    requires forall i :: 0 <= i < |values| ==> if negative then values[i] <= 0 else values[i] >= 0
    ensures SignedSum(values) == WithSign(negative, Total(Magnitudes(values)))
  {
    if values != [] {
      SignedTotals(values[..|values| - 1], negative);
      assert Magnitudes(values)[..|values| - 1] == Magnitudes(values[..|values| - 1]);
    }
  }

  /**
   Splits an amount in proportion to weights. Without any weight it is refused; otherwise it
   fails exactly when the amount is the least one and the weights give all of it to one part,
   and a split it returns adds up to the amount and follows the largest-remainder rule.
   */
  method Allocate(a: i64, ws: Weights) returns (r: Result<seq<i64>, MoneyError>)
    ensures Total(ws) == 0 ==> r == Err(ZeroWeight)
    ensures Total(ws) > 0 ==> (r.Err? <==> a == I64_MIN && OneTakesAll(ws)) && (r.Err? ==> r.error == Overflow)
    ensures r.Ok? ==>
      Total(ws) > 0 && SignedSum(r.value) == a && IsAllocation(Magnitude(a), ws, Magnitudes(r.value))
      && forall i :: 0 <= i < |ws| ==> if a < 0 then r.value[i] <= 0 else r.value[i] >= 0
  {
    hide Total, Floor, Remainder, Floors, IsAllocation, OneTakesAll;
    if ws == [] {
      NoWeights(ws);
      assert ws[..0] == ws;
      return Err(ZeroWeight);
    }
    var weight := TotalWeight(ws);
    match weight {
      case None => return Err(Overflow);
      case Some(total) =>
        if total == 0 {
          return Err(ZeroWeight);
        }
        var negative, magnitude := a < 0, Magnitude(a);
        var shared := Shares(magnitude, ws, total);
        match shared {
          case None => return Err(Overflow);
          case Some((floors, items, given)) =>
            LeftoverTimesTotal(magnitude, ws);
            if magnitude < given {
              return Err(Overflow);
            }
            var parts := HandOut(magnitude, ws, floors, items, magnitude - given);
            AllocationFits(magnitude, ws, parts);
            var signed := Signed(parts, negative);
            if signed.None? {
              return Err(Overflow);
            }
            SignedTotals(signed.value, negative);
            AllocationTotal(magnitude, ws, parts);
            return Ok(signed.value);
        }
    }
  }

  /** A part is out of range only when it is all of the least amount. */
  lemma AllocationFits(m: nat, ws: Weights, parts: seq<nat>)
    requires m <= MIN_MAGNITUDE && Total(ws) > 0 && IsAllocation(m, ws, parts)
    ensures (exists i :: 0 <= i < |parts| && parts[i] > I64_MAX) <==> m == MIN_MAGNITUDE && OneTakesAll(ws)
    ensures |parts| == |ws|
  {
    hide Total, Floor, Remainder, OneTakesAll;
    if i :| 0 <= i < |parts| && parts[i] > I64_MAX {
      TotalAtLeast(parts, i);
      OnlyThenAll(ws, parts, i);
    }
    if m == MIN_MAGNITUDE && OneTakesAll(ws) {
      TakesAll(ws, parts);
    }
  }

  /** Splits into equal parts: they differ by at most one unit, the larger ones first. */
  method Distribute(a: i64, n: u64) returns (r: Result<seq<i64>, MoneyError>)
    ensures n == 0 ==> r == Err(ZeroWeight)
    ensures n > 0 ==> (r.Err? <==> a == I64_MIN && n == 1) && (r.Err? ==> r.error == Overflow)
    ensures r.Ok? ==>
      |r.value| == n && SignedSum(r.value) == a
      && forall i, j :: 0 <= i < j < n ==>
           Gap(r.value[i], r.value[j]) <= 1 && if a >= 0 then r.value[j] <= r.value[i] else r.value[i] <= r.value[j]
  {
    if n == 0 {
      return Err(ZeroWeight);
    }
    hide Total, IsAllocation, OneTakesAll;
    var ones: seq<u64> := seq(n, _ => 1);
    EqualWeights(ones);
    r := Allocate(a, ones);
    if r.Ok? {
      PartsClose(Magnitude(a), ones, r.value, a < 0);
    }
  }

  lemma EqualWeights(ones: seq<u64>)
    requires ones != [] && forall i :: 0 <= i < |ones| ==> ones[i] == 1
    ensures Total(ones) == |ones|
    ensures OneTakesAll(ones) <==> |ones| == 1
  {
    hide Total;
    assert ones == seq(|ones|, _ => 1);
    TotalOfOnes(|ones|);
    if |ones| == 1 {
      assert OthersZero(ones, 0, 0);
    } else {
      forall i | 0 <= i < |ones|
        ensures !OthersZero(ones, i, i)
      {
        assert ones[if i == 0 then 1 else 0] != 0;
      }
    }
  }

  lemma PartsClose(m: nat, ones: seq<nat>, values: seq<int>, negative: bool)
    requires Total(ones) > 0 && IsAllocation(m, ones, Magnitudes(values)) && forall i :: 0 <= i < |ones| ==> ones[i] == 1
    requires forall i :: 0 <= i < |ones| ==> if negative then values[i] <= 0 else values[i] >= 0
    ensures |values| == |ones|
    ensures forall i, j :: 0 <= i < j < |ones| ==>
      if negative then values[j] - 1 <= values[i] <= values[j] else values[j] <= values[i] <= values[j] + 1
  {
    hide Total, Floor, Remainder;
    forall i, j | 0 <= i < j < |ones|
      ensures if negative then values[j] - 1 <= values[i] <= values[j] else values[j] <= values[i] <= values[j] + 1
    {
      var ms := Magnitudes(values);
      assert ms[i] == Magnitude(values[i]) && ms[j] == Magnitude(values[j]);
    }
  }
}

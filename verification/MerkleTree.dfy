/**
 The Merkle tree hash, top-down as it is defined and bottom-up as it is verified.

 A slice is a sequence with two bounds. `Mth`, `Path` and `SubProof` are MTH, PATH
 and SUBPROOF of RFC 6962 (sections 2.1, 2.1.1 and 2.1.2); the last two read a row of
 node hashes, and so does `Root`, which is `Mth` over such a row. `Up` replaces a row
 by the row above it. The verifiers climb rows, so the bridge between the two views
 is one fact per function: it commutes with `Up`.
 */
module MerkleTree {
  import opened Hashing

  predicate IsPowerOfTwo(n: nat)
  {
    n == 1 || (n > 1 && n % 2 == 0 && IsPowerOfTwo(n / 2))
  }

  /** The largest power of two strictly below n. */
  function Split(n: nat): (k: nat)
    requires n > 1
    ensures 1 <= k < n <= 2 * k
    ensures n > 2 ==> k % 2 == 0
  {
    if n == 2 then 1 else 2 * Split((n + 1) / 2)
  }

  lemma {:induction false} SplitIsUnique(n: nat, k: nat)
    requires n > 1 && IsPowerOfTwo(k) && k < n <= 2 * k
    ensures k == Split(n)
  {
    if n > 2 {
      SplitIsUnique((n + 1) / 2, k / 2);
    }
  }

  /** The doubling loop finds that power of two. */
  method SplitPoint(n: nat) returns (k: nat)
    requires n > 1
    ensures k == Split(n)
  {
    k := 1;
    while 2 * k < n
      invariant 1 <= k < n
      invariant IsPowerOfTwo(k)
    {
      k := 2 * k;
    }
    SplitIsUnique(n, k);
  }

  /** The Merkle tree hash of a slice of leaf payloads. */
  function Mth(payloads: seq<Hash>, lo: nat, hi: nat): Hash
    requires lo <= hi <= |payloads|
    decreases hi - lo
  {
    if hi == lo then EmptyTree
    else if hi - lo == 1 then Leaf(payloads[lo])
    else
      var k := Split(hi - lo);
      Node(Mth(payloads, lo, lo + k), Mth(payloads, lo + k, hi))
  }

  /** The tree hash of a whole log. */
  function TreeHash(payloads: seq<Hash>): Hash
  {
    Mth(payloads, 0, |payloads|)
  }

  function Leaves(payloads: seq<Hash>): seq<Hash>
  {
    seq(|payloads|, i requires 0 <= i < |payloads| => Leaf(payloads[i]))
  }

  /** The same recursion over a row of nodes. */
  function Root(row: seq<Hash>, lo: nat, hi: nat): Hash
    requires lo < hi <= |row|
    decreases hi - lo
  {
    if hi - lo == 1 then row[lo]
    else
      var k := Split(hi - lo);
      Node(Root(row, lo, lo + k), Root(row, lo + k, hi))
  }

  lemma {:induction false} MthIsRoot(payloads: seq<Hash>, lo: nat, hi: nat)
    requires lo < hi <= |payloads|
    ensures Mth(payloads, lo, hi) == Root(Leaves(payloads), lo, hi)
    decreases hi - lo
  {
    if hi - lo > 1 {
      var k := Split(hi - lo);
      MthIsRoot(payloads, lo, lo + k);
      MthIsRoot(payloads, lo + k, hi);
    }
  }

  /** The audit path of node m, the sibling of the node first. */
  function Path(m: nat, row: seq<Hash>, lo: nat, hi: nat): seq<Hash>
    requires lo <= m < hi <= |row|
    decreases hi - lo
  {
    if hi - lo == 1 then []
    else
      var k := Split(hi - lo);
      if m < lo + k then Path(m, row, lo, lo + k) + [Root(row, lo + k, hi)]
      else Path(m, row, lo + k, hi) + [Root(row, lo, lo + k)]
  }

  /** The consistency path from the nodes before m to the whole slice. */
  function SubProof(m: nat, row: seq<Hash>, lo: nat, hi: nat, complete: bool): seq<Hash>
    requires lo < m <= hi <= |row|
    decreases hi - lo
  {
    if m == hi then (if complete then [] else [Root(row, lo, hi)])
    else
      var k := Split(hi - lo);
      if m <= lo + k then SubProof(m, row, lo, lo + k, complete) + [Root(row, lo + k, hi)]
      else SubProof(m, row, lo + k, hi, false) + [Root(row, lo, lo + k)]
  }

  /** The row above: neighbours are combined, a last odd node is carried up. */
  function Up(row: seq<Hash>): (above: seq<Hash>)
    ensures |above| == (|row| + 1) / 2
  {
    seq((|row| + 1) / 2, i requires 0 <= i < (|row| + 1) / 2 =>
      if 2 * i + 1 < |row| then Node(row[2 * i], row[2 * i + 1]) else row[2 * i])
  }

  /** Where the slice ending below b in the row above ends in this row. */
  function Below(row: seq<Hash>, b: nat): (hi: nat)
    requires b <= (|row| + 1) / 2
    ensures hi <= |row| && (hi == 2 * b || hi == 2 * b - 1)
  {
    if 2 * b <= |row| then 2 * b else |row|
  }

  /** Splitting commutes with climbing: the split below is twice the split above. */
  lemma SplitBelow(row: seq<Hash>, a: nat, b: nat) returns (j: nat)
    requires a + 1 < b <= |Up(row)|
    ensures j == Split(b - a) && 2 * j == Split(Below(row, b) - 2 * a)
    ensures Below(row, a + j) == 2 * (a + j) < Below(row, b)
  {
    j := Split(b - a);
  }

  /** Climbing one row leaves the root where it was. */
  lemma {:induction false} RootUp(row: seq<Hash>, a: nat, b: nat)
    requires a < b <= |Up(row)|
    ensures Root(Up(row), a, b) == Root(row, 2 * a, Below(row, b))
    decreases b - a
  {
    hide Split, Below;
    if b - a > 1 {
      var j := SplitBelow(row, a, b);
      RootUp(row, a, a + j);
      RootUp(row, a + j, b);
    } else {
      RootUpBase(row, a);
    }
  }

  lemma RootUpBase(row: seq<Hash>, a: nat)
    requires a < |Up(row)|
    ensures Root(Up(row), a, a + 1) == Root(row, 2 * a, Below(row, a + 1))
  {
  }

  lemma SingleNode(row: seq<Hash>)
    requires |row| == 1
    ensures Root(row, 0, 1) == row[0] && Path(0, row, 0, 1) == []
  {
  }

  lemma SplitTwo()
    ensures Split(2) == 1
  {
  }

  /** The sibling an audit path uses at one row, if the node has one there. */
  function Sibling(m: nat, row: seq<Hash>): seq<Hash>
    requires m < |row|
  {
    if m % 2 == 1 then [row[m - 1]]
    else if m + 1 < |row| then [row[m + 1]]
    else []
  }

  /** What the row above holds over node m. */
  lemma UpAt(m: nat, row: seq<Hash>)
    requires m < |row|
    ensures Up(row)[m / 2] ==
      if m % 2 == 1 then Node(row[m - 1], row[m])
      else if m + 1 < |row| then Node(row[m], row[m + 1])
      else row[m]
  {
  }

  lemma PathSplits(m: nat, row: seq<Hash>, lo: nat, hi: nat)
    requires lo <= m < hi <= |row| && hi - lo > 1
    ensures var k := Split(hi - lo);
      Path(m, row, lo, hi) == if m < lo + k then Path(m, row, lo, lo + k) + [Root(row, lo + k, hi)]
        else Path(m, row, lo + k, hi) + [Root(row, lo, lo + k)]
  {
    hide Split, Root;
  }

  lemma SubProofWhole(row: seq<Hash>, lo: nat, hi: nat, complete: bool)
    requires lo < hi <= |row|
    ensures SubProof(hi, row, lo, hi, complete) == if complete then [] else [Root(row, lo, hi)]
  {
    hide Root;
  }

  lemma SubProofSplits(m: nat, row: seq<Hash>, lo: nat, hi: nat, complete: bool)
    requires lo < m < hi <= |row|
    ensures var k := Split(hi - lo);
      SubProof(m, row, lo, hi, complete)
        == if m <= lo + k then SubProof(m, row, lo, lo + k, complete) + [Root(row, lo + k, hi)]
           else SubProof(m, row, lo + k, hi, false) + [Root(row, lo, lo + k)]
  {
    hide Split, Root;
  }

  /** An audit path is the sibling at this row, then the audit path one row up. */
  lemma {:induction false} PathUp(m: nat, row: seq<Hash>, a: nat, b: nat)
    requires a <= m / 2 < b <= |Up(row)| && m < |row|
    ensures Path(m, row, 2 * a, Below(row, b)) == Sibling(m, row) + Path(m / 2, Up(row), a, b)
    decreases b - a
  {
    hide Split, Root, Up, Sibling, Path;
    if b - a > 1 {
      var j := SplitBelow(row, a, b);
      var mid := a + j;
      PathSplits(m, row, 2 * a, Below(row, b));
      PathSplits(m / 2, Up(row), a, b);
      if m / 2 < mid {
        RootUp(row, mid, b);
        PathUp(m, row, a, mid);
      } else {
        RootUp(row, a, mid);
        PathUp(m, row, mid, b);
      }
    } else {
      PathUpBase(m, row);
    }
  }

  lemma PathUpBase(m: nat, row: seq<Hash>)
    requires m < |row|
    ensures Path(m, row, m / 2 * 2, Below(row, m / 2 + 1)) == Sibling(m, row)
    ensures Path(m / 2, Up(row), m / 2, m / 2 + 1) == []
  {
  }

  /** From an even size the consistency path is the one a row up. */
  lemma {:induction false} SubProofUp(p: nat, row: seq<Hash>, a: nat, b: nat, complete: bool)
    requires a < p <= b <= |Up(row)| && 2 * p <= |row|
    ensures SubProof(2 * p, row, 2 * a, Below(row, b), complete)
         == SubProof(p, Up(row), a, b, complete)
    decreases b - a
  {
    hide Split, Root, Up, SubProof;
    if p == b {
      RootUp(row, a, b);
      SubProofWhole(row, 2 * a, 2 * p, complete);
      SubProofWhole(Up(row), a, p, complete);
    } else {
      var j := SplitBelow(row, a, b);
      SubProofSplits(2 * p, row, 2 * a, Below(row, b), complete);
      SubProofSplits(p, Up(row), a, b, complete);
      if p <= a + j {
        RootUp(row, a + j, b);
        SubProofUp(p, row, a, a + j, complete);
      } else {
        RootUp(row, a, a + j);
        SubProofUp(p, row, a + j, b, false);
      }
    }
  }

  lemma OddBase(m: nat, row: seq<Hash>, lo: nat, hi: nat)
    requires lo < m <= hi <= |row| && lo + 1 == hi
    ensures Root(row, lo, hi) == row[m - 1] && Path(m - 1, row, lo, hi) == []
    ensures SubProof(m, row, lo, hi, true) == [] && SubProof(m, row, lo, hi, false) == [row[m - 1]]
  {
  }

  /**
   From an odd size it is the last node of the old tree followed by that node's own
   audit path; the node itself is left out when it is the whole old tree.
   */
  lemma {:induction false} SubProofOdd(m: nat, row: seq<Hash>, lo: nat, hi: nat, complete: bool)
    requires lo < m <= hi <= |row| && lo % 2 == 0 && m % 2 == 1
    requires m == hi ==> m == lo + 1
    ensures SubProof(m, row, lo, hi, complete)
         == (if complete && m == lo + 1 then [] else [row[m - 1]]) + Path(m - 1, row, lo, hi)
    decreases hi - lo
  {
    hide Split, Root, Path, SubProof;
    if hi == lo + 1 {
      OddBase(m, row, lo, hi);
    } else {
      SplitTwo();
      var k := Split(hi - lo);
      var kept := if complete && m == lo + 1 then [] else [row[m - 1]];
      SubProofSplits(m, row, lo, hi, complete);
      PathSplits(m - 1, row, lo, hi);
      if m <= lo + k {
        SubProofOdd(m, row, lo, lo + k, complete);
        assert kept + Path(m - 1, row, lo, lo + k) + [Root(row, lo + k, hi)]
          == kept + (Path(m - 1, row, lo, lo + k) + [Root(row, lo + k, hi)]);
      } else {
        SubProofOdd(m, row, lo + k, hi, false);
        assert kept + Path(m - 1, row, lo + k, hi) + [Root(row, lo, lo + k)]
          == kept + (Path(m - 1, row, lo + k, hi) + [Root(row, lo, lo + k)]);
      }
    }
  }

  /** A root fixes the slice it was computed from. */
  lemma {:induction false} RootInjective(a: seq<Hash>, b: seq<Hash>, lo: nat, hi: nat)
    requires lo < hi <= |a| && hi <= |b| && Root(a, lo, hi) == Root(b, lo, hi)
    ensures forall i :: lo <= i < hi ==> a[i] == b[i]
    decreases hi - lo
  {
    if hi - lo > 1 {
      var k := Split(hi - lo);
      RootInjective(a, b, lo, lo + k);
      RootInjective(a, b, lo + k, hi);
    }
  }

  /** Roots and paths read nothing outside their slice. */
  lemma {:induction false} RootLocal(a: seq<Hash>, b: seq<Hash>, lo: nat, hi: nat)
    requires lo < hi <= |a| && hi <= |b|
    requires forall i :: lo <= i < hi ==> a[i] == b[i]
    ensures Root(a, lo, hi) == Root(b, lo, hi)
    decreases hi - lo
  {
    hide Split;
    if hi - lo > 1 {
      var k := Split(hi - lo);
      RootLocal(a, b, lo, lo + k);
      RootLocal(a, b, lo + k, hi);
    }
  }

  lemma {:induction false} PathLocal(m: nat, a: seq<Hash>, b: seq<Hash>, lo: nat, hi: nat)
    requires lo <= m < hi <= |a| && hi <= |b|
    requires forall i :: lo <= i < hi ==> a[i] == b[i]
    ensures Path(m, a, lo, hi) == Path(m, b, lo, hi)
    decreases hi - lo
  {
    hide Split, Root;
    if hi - lo > 1 {
      var k := Split(hi - lo);
      if m < lo + k {
        RootLocal(a, b, lo + k, hi);
        PathLocal(m, a, b, lo, lo + k);
      } else {
        RootLocal(a, b, lo, lo + k);
        PathLocal(m, a, b, lo + k, hi);
      }
    }
  }

  lemma {:induction false} SubProofLocal(m: nat, a: seq<Hash>, b: seq<Hash>, lo: nat, hi: nat, complete: bool)
    requires lo < m <= hi <= |a| && hi <= |b|
    requires forall i :: lo <= i < hi ==> a[i] == b[i]
    ensures SubProof(m, a, lo, hi, complete) == SubProof(m, b, lo, hi, complete)
    decreases hi - lo
  {
    hide Split, Root;
    if m == hi {
      RootLocal(a, b, lo, hi);
    } else {
      var k := Split(hi - lo);
      if m <= lo + k {
        RootLocal(a, b, lo + k, hi);
        SubProofLocal(m, a, b, lo, lo + k, complete);
      } else {
        RootLocal(a, b, lo, lo + k);
        SubProofLocal(m, a, b, lo + k, hi, false);
      }
    }
  }

  lemma {:induction false} MthLocal(a: seq<Hash>, b: seq<Hash>, lo: nat, hi: nat)
    requires lo <= hi <= |a| && hi <= |b|
    requires forall i :: lo <= i < hi ==> a[i] == b[i]
    ensures Mth(a, lo, hi) == Mth(b, lo, hi)
    decreases hi - lo
  {
    hide Split;
    if hi - lo > 1 {
      var k := Split(hi - lo);
      MthLocal(a, b, lo, lo + k);
      MthLocal(a, b, lo + k, hi);
    }
  }

  /** The tree hash of a prefix of a log is the hash of that prefix taken as a log. */
  lemma MthPrefix(payloads: seq<Hash>, size: nat)
    requires size <= |payloads|
    ensures Mth(payloads, 0, size) == TreeHash(payloads[..size])
  {
    MthLocal(payloads, payloads[..size], 0, size);
  }

  lemma JoinSlices(s: seq<Hash>, i: nat, m: nat, j: nat)
    requires i <= m <= j <= |s|
    ensures s[i..j] == s[i..m] + s[m..j]
  {
  }

  /** The outermost constructor of a tree hash tells an empty slice, a leaf and a split apart. */
  lemma MthShape(a: seq<Hash>, i: nat, j: nat)
    requires i <= j <= |a|
    ensures j == i ==> Mth(a, i, j) == EmptyTree
    ensures j - i == 1 ==> Mth(a, i, j) == Leaf(a[i])
    ensures j - i > 1 ==>
      Mth(a, i, j) == Node(Mth(a, i, i + Split(j - i)), Mth(a, i + Split(j - i), j))
  {
    hide Split;
  }

  lemma {:induction false} MthInjective(a: seq<Hash>, b: seq<Hash>, i: nat, j: nat, p: nat, q: nat)
    requires i <= j <= |a| && p <= q <= |b| && Mth(a, i, j) == Mth(b, p, q)
    ensures a[i..j] == b[p..q]
    decreases j - i
  {
    hide Split, Mth;
    MthShape(a, i, j);
    MthShape(b, p, q);
    if j - i > 1 {
      var k, l := Split(j - i), Split(q - p);
      MthInjective(a, b, i, i + k, p, p + l);
      MthInjective(a, b, i + k, j, p + l, q);
      JoinSlices(a, i, i + k, j);
      JoinSlices(b, p, p + l, q);
    }
  }

  /** Two logs with the same tree hash are the same log, whatever their lengths. */
  lemma TreeHashInjective(a: seq<Hash>, b: seq<Hash>)
    requires TreeHash(a) == TreeHash(b)
    ensures a == b
  {
    MthInjective(a, b, 0, |a|, 0, |b|);
    assert a == a[0..|a|] && b == b[0..|b|];
  }
}

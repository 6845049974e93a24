/**
 Inclusion and consistency proofs: the iterative verifiers, what they accept, and
 the recursive builders.

 The verifiers are the bit-shifting walks of RFC 9162 (sections 2.1.3.2 and
 2.1.4.2). `Walk` and `WalkPair` are those walks one row at a time; both theorems are
 equivalences, so they carry soundness and completeness at once.
 */
module MerkleProofs {
  import opened Wrappers
  import opened Hashing
  import opened MerkleTree

  /** A commitment to a log: how many leaves, and their tree hash. */
  datatype TreeHead = TreeHead(size: u64, root: Hash)

  /** The head of a log. */
  function HeadOf(payloads: seq<Hash>): TreeHead
    requires |payloads| <= U64_MAX
  {
    TreeHead(|payloads|, TreeHash(payloads))
  }

  // ---------------------------------------------------------------- inclusion

  /** The climb from node `f` of a row ending at node `s`, reading `path` from `i` on. */
  function Walk(f: nat, s: nat, path: seq<Hash>, i: nat, acc: Hash): Option<Hash>
    requires f <= s && i <= |path|
    decreases s
  {
    if s == 0 then (if i == |path| then Some(acc) else None)
    else if f % 2 == 0 && f == s then Walk(f / 2, s / 2, path, i, acc)
    else if i == |path| then None
    else if f % 2 == 1 then Walk(f / 2, s / 2, path, i + 1, Node(path[i], acc))
    else Walk(f / 2, s / 2, path, i + 1, Node(acc, path[i]))
  }

  lemma {:induction false} WalkExhausted(f: nat, s: nat, path: seq<Hash>, acc: Hash)
    requires f <= s && s > 0
    ensures Walk(f, s, path, |path|, acc) == None
    decreases s
  {
    if f % 2 == 0 && f == s {
      WalkExhausted(f / 2, s / 2, path, acc);
    }
  }

  /** An audit path of a whole row, one row up. */
  lemma PathStep(f: nat, row: seq<Hash>)
    requires f < |row| && |row| > 1
    ensures |Up(row)| - 1 == (|row| - 1) / 2
    ensures Path(f, row, 0, |row|) == Sibling(f, row) + Path(f / 2, Up(row), 0, |Up(row)|)
    ensures Root(Up(row), 0, |Up(row)|) == Root(row, 0, |row|)
  {
    RootUp(row, 0, |Up(row)|);
    PathUp(f, row, 0, |Up(row)|);
  }

  lemma NextOfPath(path: seq<Hash>, i: nat, sibling: Hash, rest: seq<Hash>)
    requires i < |path|
    ensures path[i..] == [sibling] + rest <==> path[i] == sibling && path[i + 1..] == rest
  {
    assert path[i..] == [path[i]] + path[i + 1..];
    assert path[i..][1..] == path[i + 1..] && ([sibling] + rest)[1..] == rest;
  }

  /** The climb reaches the root of a row exactly from the right node by its audit path. */
  lemma {:induction false} WalkReachesRoot(f: nat, row: seq<Hash>, path: seq<Hash>, i: nat, acc: Hash)
    requires f < |row| && i <= |path|
    ensures Walk(f, |row| - 1, path, i, acc) == Some(Root(row, 0, |row|))
      <==> acc == row[f] && path[i..] == Path(f, row, 0, |row|)
    decreases |row|
  {
    hide Root, Path, Up, Below;
    if |row| == 1 {
      SingleNode(row);
    } else {
      PathStep(f, row);
      UpAt(f, row);
      if f % 2 == 0 && f == |row| - 1 {
        WalkReachesRoot(f / 2, Up(row), path, i, acc);
      } else if i < |path| {
        WalkReachesRoot(f / 2, Up(row), path, i + 1,
          if f % 2 == 1 then Node(path[i], acc) else Node(acc, path[i]));
        NextOfPath(path, i, Sibling(f, row)[0], Path(f / 2, Up(row), 0, |Up(row)|));
      }
    }
  }

  datatype InclusionProof = InclusionProof(leafIndex: u64, treeSize: u64, path: seq<Hash>)
  {
    /** What the verifier accepts, as the row-by-row climb. */
    predicate Verifies(payload: Hash, head: TreeHead)
    {
      && treeSize == head.size && leafIndex < treeSize
      && Walk(leafIndex, treeSize - 1, path, 0, Leaf(payload)) == Some(head.root)
    }

    /** The verifier: one loop over the path, skipping rows where the node has no sibling. */
    method Verify(payload: Hash, head: TreeHead) returns (ok: bool)
      ensures ok == Verifies(payload, head)
    {
      if treeSize != head.size || leafIndex >= treeSize {
        return false;
      }
      var fname: nat, sname: nat := leafIndex, treeSize - 1;
      var acc := Leaf(payload);
      for i := 0 to |path|
        invariant fname <= sname
        invariant Walk(leafIndex, treeSize - 1, path, 0, Leaf(payload)) == Walk(fname, sname, path, i, acc)
      {
        if sname == 0 {
          return false;
        }
        if fname % 2 == 1 || fname == sname {
          ghost var before := acc;
          acc := Node(path[i], acc);
          while fname % 2 == 0 && fname != 0
            invariant 0 < fname <= sname
            invariant fname % 2 == 1 || fname == sname
            invariant Walk(leafIndex, treeSize - 1, path, 0, Leaf(payload))
                   == Walk(fname, sname, path, i, before)
          {
            fname, sname := fname / 2, sname / 2;
          }
        } else {
          acc := Node(acc, path[i]);
        }
        fname, sname := fname / 2, sname / 2;
      }
      if sname > 0 {
        WalkExhausted(fname, sname, path, acc);
      }
      return sname == 0 && acc == head.root;
    }
  }

  /** The proof the builder produces for one leaf of a log. */
  function InclusionProofOf(index: nat, payloads: seq<Hash>): InclusionProof
    requires index < |payloads| <= U64_MAX
  {
    InclusionProof(index, |payloads|, Path(index, Leaves(payloads), 0, |payloads|))
  }

  /**
   Against the head of a log, a proof is accepted exactly when it is the proof the
   builder produces and the payload is the leaf at its index.
   */
  lemma InclusionExact(p: InclusionProof, payload: Hash, payloads: seq<Hash>)
    requires |payloads| <= U64_MAX
    ensures p.Verifies(payload, HeadOf(payloads))
      <==> (p.leafIndex < |payloads| && payloads[p.leafIndex] == payload
            && p == InclusionProofOf(p.leafIndex, payloads))
  {
    if p.treeSize == |payloads| && p.leafIndex < |payloads| {
      MthIsRoot(payloads, 0, |payloads|);
      WalkReachesRoot(p.leafIndex, Leaves(payloads), p.path, 0, Leaf(payload));
      assert p.path[0..] == p.path;
    }
  }

  /** With distinct leaves, one path verifies under one index and one size only. */
  lemma OneLabelling(p: InclusionProof, q: InclusionProof, payload: Hash, payloads: seq<Hash>)
    requires |payloads| <= U64_MAX
    requires forall i, j :: 0 <= i < j < |payloads| ==> payloads[i] != payloads[j]
    requires p.Verifies(payload, HeadOf(payloads)) && q.Verifies(payload, HeadOf(payloads))
    ensures p == q
  {
    InclusionExact(p, payload, payloads);
    InclusionExact(q, payload, payloads);
  }

  // -------------------------------------------------------------- consistency

  /** The same climb carrying the root of the old tree beside the root of the new. */
  function WalkPair(f: nat, s: nat, path: seq<Hash>, i: nat, fr: Hash, sr: Hash): Option<(Hash, Hash)>
    requires f <= s && i <= |path|
    decreases s
  {
    if s == 0 then (if i == |path| then Some((fr, sr)) else None)
    else if f % 2 == 0 && f == s then WalkPair(f / 2, s / 2, path, i, fr, sr)
    else if i == |path| then None
    else if f % 2 == 1 then WalkPair(f / 2, s / 2, path, i + 1, Node(path[i], fr), Node(path[i], sr))
    else WalkPair(f / 2, s / 2, path, i + 1, fr, Node(sr, path[i]))
  }

  lemma {:induction false} WalkPairNew(f: nat, s: nat, path: seq<Hash>, i: nat, fr: Hash, sr: Hash)
    requires f <= s && i <= |path|
    ensures WalkPair(f, s, path, i, fr, sr).Some? == Walk(f, s, path, i, sr).Some?
    ensures WalkPair(f, s, path, i, fr, sr).Some?
        ==> WalkPair(f, s, path, i, fr, sr).value.1 == Walk(f, s, path, i, sr).value
    decreases s
  {
    if s > 0 {
      if f % 2 == 0 && f == s {
        WalkPairNew(f / 2, s / 2, path, i, fr, sr);
      } else if i < |path| {
        if f % 2 == 1 {
          WalkPairNew(f / 2, s / 2, path, i + 1, Node(path[i], fr), Node(path[i], sr));
        } else {
          WalkPairNew(f / 2, s / 2, path, i + 1, fr, Node(sr, path[i]));
        }
      }
    }
  }

  /**
   Along the audit path of node f the old half rebuilds the root of the first f + 1
   nodes, with `fr` in the last place.
   */
  lemma {:induction false} WalkPairOld(f: nat, row: seq<Hash>, earlier: seq<Hash>, path: seq<Hash>, i: nat, sr: Hash)
    requires f < |row| && i <= |path| && path[i..] == Path(f, row, 0, |row|)
    requires |earlier| == f + 1 && forall j :: 0 <= j < f ==> earlier[j] == row[j]
    ensures var r := WalkPair(f, |row| - 1, path, i, earlier[f], sr);
      r.Some? && r.value.0 == Root(earlier, 0, f + 1)
    decreases |row|
  {
    hide Root, Path, Up, Below;
    if |row| == 1 {
      SingleNode(row);
      SingleNode(earlier);
    } else {
      PathStep(f, row);
      PrefixUp(f, row, earlier);
      if f % 2 == 0 && f == |row| - 1 {
        WalkPairOld(f / 2, Up(row), Up(earlier), path, i, sr);
      } else {
        assert path[i..] == [path[i]] + path[i + 1..];
        WalkPairOld(f / 2, Up(row), Up(earlier), path, i + 1,
          if f % 2 == 1 then Node(path[i], sr) else Node(sr, path[i]));
      }
    }
  }

  /** A row and an old row that ends in it agree on the nodes before the last, one row up too. */
  lemma PrefixUp(f: nat, row: seq<Hash>, earlier: seq<Hash>)
    requires f < |row|
    requires |earlier| == f + 1 && forall j :: 0 <= j < f ==> earlier[j] == row[j]
    ensures |Up(earlier)| == f / 2 + 1
    ensures forall j :: 0 <= j < f / 2 ==> Up(earlier)[j] == Up(row)[j]
    ensures Up(earlier)[f / 2] == if f % 2 == 1 then Node(row[f - 1], earlier[f]) else earlier[f]
    ensures Root(Up(earlier), 0, f / 2 + 1) == Root(earlier, 0, f + 1)
  {
    hide Root;
    RootUp(earlier, 0, f / 2 + 1);
  }

  /** Bitwise and, bit by bit. */
  function BitAnd(a: nat, b: nat): nat
  {
    if a == 0 || b == 0 then 0 else (if a % 2 == 1 && b % 2 == 1 then 1 else 0) + 2 * BitAnd(a / 2, b / 2)
  }

  predicate BitSet(n: nat, k: nat)
  {
    if k == 0 then n % 2 == 1 else BitSet(n / 2, k - 1)
  }

  lemma {:induction false} NoBits(k: nat)
    ensures !BitSet(0, k)
  {
    if k > 0 {
      NoBits(k - 1);
    }
  }

  /** A bit is set exactly when it is set in both. */
  lemma {:induction false} BitAndIs(a: nat, b: nat, k: nat)
    ensures BitSet(BitAnd(a, b), k) <==> BitSet(a, k) && BitSet(b, k)
  {
    if a == 0 || b == 0 {
      NoBits(k);
    } else if k > 0 {
      BitAndIs(a / 2, b / 2, k - 1);
      assert BitAnd(a, b) / 2 == BitAnd(a / 2, b / 2);
    }
  }

  lemma {:induction false} BitAndSelf(a: nat)
    ensures BitAnd(a, a) == a
  {
    if a > 0 {
      BitAndSelf(a / 2);
    }
  }

  /** Clearing the lowest set bit leaves nothing exactly for the powers of two. */
  lemma {:induction false} PowerOfTwoTest(m: nat)
    requires m > 0
    ensures BitAnd(m, m - 1) == 0 <==> IsPowerOfTwo(m)
  {
    if m % 2 == 1 {
      BitAndSelf(m / 2);
    } else {
      PowerOfTwoTest(m / 2);
    }
  }

  /** Past the rows that pair the last old node with its left sibling, then the climb. */
  function Run(f: nat, s: nat, path: seq<Hash>, i: nat, seed: Hash): Option<(Hash, Hash)>
    requires f <= s && i <= |path|
  {
    if f % 2 == 1 then Run(f / 2, s / 2, path, i, seed) else WalkPair(f, s, path, i, seed, seed)
  }

  /** The root of the last perfect subtree of the first m nodes. */
  function LastPeak(m: nat, row: seq<Hash>): Hash
    requires 0 < m <= |row|
  {
    if m % 2 == 0 then LastPeak(m / 2, Up(row)) else row[m - 1]
  }

  /** The audit path of that subtree. */
  function LastPath(m: nat, row: seq<Hash>): seq<Hash>
    requires 0 < m < |row|
  {
    if m % 2 == 0 then LastPath(m / 2, Up(row)) else Path(m - 1, row, 0, |row|)
  }

  /** The consistency path is the last old peak, unless it is the old root, and its audit path. */
  lemma {:induction false} SubProofShape(m: nat, row: seq<Hash>)
    requires 0 < m < |row|
    ensures SubProof(m, row, 0, |row|, true)
         == (if IsPowerOfTwo(m) then [] else [LastPeak(m, row)]) + LastPath(m, row)
  {
    if m % 2 == 0 {
      SubProofUp(m / 2, row, 0, |Up(row)|, true);
      SubProofShape(m / 2, Up(row));
    } else {
      SubProofOdd(m, row, 0, |row|, true);
    }
  }

  lemma {:induction false} LastPeakIsRoot(m: nat, row: seq<Hash>)
    requires 0 < m <= |row| && IsPowerOfTwo(m)
    ensures LastPeak(m, row) == Root(row, 0, m)
  {
    hide Root, Up;
    if m > 1 {
      LastPeakIsRoot(m / 2, Up(row));
      RootUp(row, 0, m / 2);
    } else {
      RootOfOne(row);
    }
  }

  lemma RootOfOne(row: seq<Hash>)
    requires row != []
    ensures Root(row, 0, 1) == row[0]
  {
  }

  /** From an odd size the walk starts at the last old node itself. */
  lemma OddReachesRoots(m: nat, row: seq<Hash>, path: seq<Hash>, i: nat, seed: Hash, earlier: Hash)
    requires 0 < m < |row| && i <= |path| && m % 2 == 1
    ensures Run(m - 1, |row| - 1, path, i, seed) == Some((earlier, Root(row, 0, |row|)))
      <==> seed == LastPeak(m, row) && path[i..] == LastPath(m, row) && earlier == Root(row, 0, m)
  {
    hide Root, Path, WalkPair, Walk;
    WalkPairNew(m - 1, |row| - 1, path, i, seed, seed);
    WalkReachesRoot(m - 1, row, path, i, seed);
    if seed == row[m - 1] && path[i..] == Path(m - 1, row, 0, |row|) {
      WalkPairOld(m - 1, row, row[..m], path, i, seed);
      RootLocal(row, row[..m], 0, m);
    }
  }

  /** From an even size everything is what it is a row up. */
  lemma EvenStep(m: nat, row: seq<Hash>)
    requires 0 < m < |row| && m % 2 == 0
    ensures m / 2 < |Up(row)|
    ensures LastPeak(m, row) == LastPeak(m / 2, Up(row)) && LastPath(m, row) == LastPath(m / 2, Up(row))
    ensures Root(row, 0, m) == Root(Up(row), 0, m / 2) && Root(row, 0, |row|) == Root(Up(row), 0, |Up(row)|)
  {
    hide Root, Path, Up;
    RootUp(row, 0, m / 2);
    PathStep(m - 1, row);
  }

  lemma EvenRun(m: nat, row: seq<Hash>, path: seq<Hash>, i: nat, seed: Hash)
    requires 0 < m < |row| && m % 2 == 0 && i <= |path|
    ensures m / 2 < |Up(row)|
    ensures Run(m - 1, |row| - 1, path, i, seed) == Run(m / 2 - 1, |Up(row)| - 1, path, i, seed)
  {
    hide WalkPair;
    assert (m - 1) / 2 == m / 2 - 1 && (|row| - 1) / 2 == |Up(row)| - 1;
  }

  /** The whole walk: it reaches the new root exactly on the right seed and path, and then
      the other half is the root of the first m nodes. */
  lemma {:induction false} RunReachesRoots(m: nat, row: seq<Hash>, path: seq<Hash>, i: nat, seed: Hash, earlier: Hash)
    requires 0 < m < |row| && i <= |path|
    ensures Run(m - 1, |row| - 1, path, i, seed) == Some((earlier, Root(row, 0, |row|)))
      <==> seed == LastPeak(m, row) && path[i..] == LastPath(m, row) && earlier == Root(row, 0, m)
  {
    hide Root, Path, Up, WalkPair, Run, LastPeak, LastPath;
    if m % 2 == 0 {
      EvenStep(m, row);
      EvenRun(m, row, path, i, seed);
      RunReachesRoots(m / 2, Up(row), path, i, seed, earlier);
    } else {
      OddReachesRoots(m, row, path, i, seed, earlier);
    }
  }

  datatype ConsistencyProof = ConsistencyProof(oldSize: u64, newSize: u64, path: seq<Hash>)
  {
    predicate IsVacuous()
    {
      oldSize == 0
    }

    /** What the verifier accepts. */
    predicate Verifies(earlier: TreeHead, later: TreeHead)
    {
      && oldSize == earlier.size && newSize == later.size && oldSize <= newSize
      && if oldSize == newSize then path == [] && earlier.root == later.root
         else if oldSize == 0 then path == [] && earlier.root == EmptyTree
         else if BitAnd(oldSize, oldSize - 1) == 0 then
           Run(oldSize - 1, newSize - 1, path, 0, earlier.root) == Some((earlier.root, later.root))
         else
           path != [] && Run(oldSize - 1, newSize - 1, path, 1, path[0]) == Some((earlier.root, later.root))
    }

    /** The verifier: check the labels, choose a seed, rebuild both roots. */
    method Verify(earlier: TreeHead, later: TreeHead) returns (ok: bool)
      ensures ok == Verifies(earlier, later)
    {
      if oldSize != earlier.size || newSize != later.size {
        return false;
      }
      if oldSize > newSize {
        return false;
      }
      if oldSize == newSize {
        return path == [] && earlier.root == later.root;
      }
      if oldSize == 0 {
        return path == [] && earlier.root == EmptyTree;
      }
      var start, seed := 0, earlier.root;
      if BitAnd(oldSize, oldSize - 1) != 0 {
        if path == [] {
          return false;
        }
        start, seed := 1, path[0];
      }
      ok := Rebuild(start, seed, earlier.root, later.root);
    }

    /** Drop the rows below the seed, then rebuild both roots in one loop. */
    method Rebuild(start: nat, seed: Hash, oldRoot: Hash, newRoot: Hash) returns (ok: bool)
      requires 0 < oldSize < newSize && start <= |path|
      ensures ok <==> Run(oldSize - 1, newSize - 1, path, start, seed) == Some((oldRoot, newRoot))
    {
      ghost var goal := Run(oldSize - 1, newSize - 1, path, start, seed);
      var fname: nat, sname: nat := oldSize - 1, newSize - 1;
      while fname % 2 == 1
        invariant fname <= sname
        invariant goal == Run(fname, sname, path, start, seed)
        decreases fname
      {
        fname, sname := fname / 2, sname / 2;
      }
      var fr, sr := seed, seed;
      for i := start to |path|
        invariant fname <= sname
        invariant goal == WalkPair(fname, sname, path, i, fr, sr)
      {
        if sname == 0 {
          return false;
        }
        if fname % 2 == 1 || fname == sname {
          ghost var fr0, sr0 := fr, sr;
          fr := Node(path[i], fr);
          sr := Node(path[i], sr);
          while fname % 2 == 0 && fname != 0
            invariant 0 < fname <= sname
            invariant fname % 2 == 1 || fname == sname
            invariant goal == WalkPair(fname, sname, path, i, fr0, sr0)
          {
            fname, sname := fname / 2, sname / 2;
          }
        } else {
          sr := Node(sr, path[i]);
        }
        fname, sname := fname / 2, sname / 2;
      }
      if sname > 0 {
        WalkPairNew(fname, sname, path, |path|, fr, sr);
        WalkExhausted(fname, sname, path, sr);
      }
      return sname == 0 && fr == oldRoot && sr == newRoot;
    }
  }

  /** The path the builder produces between two sizes of a log. */
  function ConsistencyPath(m: nat, payloads: seq<Hash>): seq<Hash>
    requires m <= |payloads|
  {
    if 0 < m < |payloads| then SubProof(m, Leaves(payloads), 0, |payloads|, true) else []
  }

  /**
   Against the head of a log of n leaves, a proof from a non-empty tree is accepted
   exactly when the old head is the head of a prefix of that log and the path is the
   one the builder produces: whatever path the prover chose, the prefix is forced.
   */
  lemma ConsistencyExact(c: ConsistencyProof, earlier: TreeHead, payloads: seq<Hash>)
    requires |payloads| <= U64_MAX && 0 < c.oldSize
    ensures c.Verifies(earlier, HeadOf(payloads))
      <==> (c.oldSize <= c.newSize == |payloads| && earlier == HeadOf(payloads[..c.oldSize])
            && c.path == ConsistencyPath(c.oldSize, payloads))
  {
    hide Mth, Root, SubProof, Run, BitAnd, IsPowerOfTwo, LastPeak, LastPath;
    var n, m := |payloads|, c.oldSize;
    if c.newSize == n && m <= n {
      MthPrefix(payloads, m);
      assert payloads[..n] == payloads;
      if m < n {
        var row := Leaves(payloads);
        MthIsRoot(payloads, 0, m);
        MthIsRoot(payloads, 0, n);
        SubProofShape(m, row);
        PowerOfTwoTest(m);
        assert c.path[0..] == c.path;
        if IsPowerOfTwo(m) {
          LastPeakIsRoot(m, row);
          RunReachesRoots(m, row, c.path, 0, earlier.root, earlier.root);
        } else if c.path != [] {
          assert c.path == [c.path[0]] + c.path[1..];
          RunReachesRoots(m, row, c.path, 1, c.path[0], earlier.root);
        }
      }
    }
  }

  /**
   From the empty tree, acceptance pins the two sizes, the old root and the empty path,
   and nothing about the new root as soon as the new tree has a leaf.
   */
  lemma VacuousConsistency(c: ConsistencyProof, earlier: TreeHead, later: TreeHead)
    requires c.IsVacuous()
    ensures c.Verifies(earlier, later)
      <==> (earlier.size == 0 && later.size == c.newSize && c.path == []
            && (if c.newSize == 0 then earlier.root == later.root else earlier.root == EmptyTree))
  {
  }
}

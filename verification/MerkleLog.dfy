/**
 The append-only log and the stack of perfect subtrees it maintains.

 `Peaks` reads the stack off a row: an odd row contributes its last node, and the rest
 is the stack of the row above. Pushing, folding and the required heights each follow
 the same recursion, so the amortised accumulator refines the recursive tree hash.
 */
module MerkleLogs {
  import opened Wrappers
  import opened Hashing
  import opened MerkleTree
  import opened Powers
  import opened MerkleProofs

  /** The perfect subtrees of a row that sits `level` rows above the leaves, largest first. */
  function Peaks(row: seq<Hash>, level: nat): seq<(nat, Hash)>
    decreases |row|
  {
    if |row| == 0 then []
    else if |row| % 2 == 0 then Peaks(Up(row), level + 1)
    else Peaks(Up(row[..|row| - 1]), level + 1) + [(level, row[|row| - 1])]
  }

  /** One height per set bit of the size, the most significant first. */
  function Cover(size: nat, level: nat): seq<nat>
  {
    if size == 0 then []
    else if size % 2 == 0 then Cover(size / 2, level + 1)
    else Cover(size / 2, level + 1) + [level]
  }

  function Heights(stack: seq<(nat, Hash)>): seq<nat>
  {
    seq(|stack|, i requires 0 <= i < |stack| => stack[i].0)
  }

  /** The stack after one more leaf: equal heights merge from the end. */
  function Pushed(stack: seq<(nat, Hash)>, level: nat, node: Hash): seq<(nat, Hash)>
  {
    if stack == [] || stack[|stack| - 1].0 != level then stack + [(level, node)]
    else Pushed(stack[..|stack| - 1], level + 1, Node(stack[|stack| - 1].1, node))
  }

  /** The stack folded from the right onto an accumulated hash. */
  function Folded(stack: seq<(nat, Hash)>, acc: Hash): Hash
  {
    if stack == [] then acc else Folded(stack[..|stack| - 1], Node(stack[|stack| - 1].1, acc))
  }

  function RootOf(stack: seq<(nat, Hash)>): Hash
  {
    if stack == [] then EmptyTree else Folded(stack[..|stack| - 1], stack[|stack| - 1].1)
  }

  lemma PeaksStep(row: seq<Hash>, level: nat)
    ensures |row| % 2 == 0 ==> Peaks(row, level) == Peaks(Up(row), level + 1)
    ensures |row| % 2 == 1 ==>
      Peaks(row, level) == Peaks(Up(row[..|row| - 1]), level + 1) + [(level, row[|row| - 1])]
  {
    hide Up;
  }

  lemma NoPeaks(level: nat)
    ensures Peaks([], level) == []
  {
  }

  lemma HeightsAppend(stack: seq<(nat, Hash)>, level: nat, node: Hash)
    ensures Heights(stack + [(level, node)]) == Heights(stack) + [level]
  {
  }

  /** The heights of the stack are the set bits of the number of leaves. */
  lemma {:induction false} PeaksHeights(row: seq<Hash>, level: nat)
    ensures Heights(Peaks(row, level)) == Cover(|row|, level)
    decreases |row|
  {
    hide Up, Peaks;
    PeaksStep(row, level);
    if |row| == 0 {
      NoPeaks(level);
    } else if |row| % 2 == 0 {
      PeaksHeights(Up(row), level + 1);
    } else {
      var rest := Peaks(Up(row[..|row| - 1]), level + 1);
      PeaksHeights(Up(row[..|row| - 1]), level + 1);
      HeightsAppend(rest, level, row[|row| - 1]);
    }
  }

  /** Every height below the level in question is absent from the stack. */
  lemma {:induction false} PeaksAbove(row: seq<Hash>, level: nat)
    ensures forall i :: 0 <= i < |Peaks(row, level)| ==> Peaks(row, level)[i].0 >= level
    decreases |row|
  {
    if |row| > 0 {
      PeaksAbove(Up(row[..|row| - |row| % 2]), level + 1);
      assert |row| % 2 == 0 ==> row[..|row|] == row;
    }
  }

  lemma UpAppend(row: seq<Hash>, node: Hash)
    ensures |row| % 2 == 0 ==> Up(row + [node]) == Up(row) + [node]
    ensures |row| % 2 == 1 ==> Up(row + [node]) == Up(row[..|row| - 1]) + [Node(row[|row| - 1], node)]
  {
  }

  /** Pushing a node onto the stack of a row gives the stack of the longer row. */
  lemma {:induction false} PushExtends(row: seq<Hash>, level: nat, node: Hash)
    ensures Pushed(Peaks(row, level), level, node) == Peaks(row + [node], level)
    decreases |row|
  {
    hide Up, Peaks;
    UpAppend(row, node);
    PeaksStep(row, level);
    PeaksStep(row + [node], level);
    assert (row + [node])[..|row|] == row;
    if |row| % 2 == 0 {
      PeaksAbove(Up(row), level + 1);
    } else {
      var front, last := row[..|row| - 1], row[|row| - 1];
      var rest := Peaks(Up(front), level + 1);
      assert (rest + [(level, last)])[..|rest|] == rest;
      PushExtends(Up(front), level + 1, Node(last, node));
    }
  }

  /** Folding the stack of a row onto a node gives the root of the row with that node last. */
  lemma {:induction false} FoldIsRoot(row: seq<Hash>, level: nat, node: Hash)
    ensures Folded(Peaks(row, level), node) == Root(row + [node], 0, |row| + 1)
    decreases |row|
  {
    hide Up, Root, Peaks;
    PeaksStep(row, level);
    if |row| == 0 {
      NoPeaks(level);
      SingleNode([node]);
      assert row + [node] == [node];
    } else {
      UpAppend(row, node);
      RootUp(row + [node], 0, |Up(row + [node])|);
      if |row| % 2 == 0 {
        FoldIsRoot(Up(row), level + 1, node);
      } else {
        var front, last := row[..|row| - 1], row[|row| - 1];
        var rest := Peaks(Up(front), level + 1);
        assert (rest + [(level, last)])[..|rest|] == rest;
        FoldIsRoot(Up(front), level + 1, Node(last, node));
      }
    }
  }

  lemma {:induction false} RootOfPeaks(row: seq<Hash>, level: nat)
    requires |row| > 0
    ensures RootOf(Peaks(row, level)) == Root(row, 0, |row|)
    decreases |row|
  {
    hide Up, Root;
    RootUp(row, 0, |Up(row)|);
    if |row| % 2 == 0 {
      RootOfPeaks(Up(row), level + 1);
    } else {
      var front, last := row[..|row| - 1], row[|row| - 1];
      var rest := Peaks(Up(front), level + 1);
      assert Peaks(row, level)[..|rest|] == rest;
      assert front + [last] == row;
      UpAppend(front, last);
      FoldIsRoot(Up(front), level + 1, last);
    }
  }

  /** The subtree stack of a log. */
  function StackOf(payloads: seq<Hash>): seq<(nat, Hash)>
  {
    Peaks(Leaves(payloads), 0)
  }

  /** The fold over the stack of a log is its tree hash. */
  lemma StackRoot(payloads: seq<Hash>)
    ensures RootOf(StackOf(payloads)) == TreeHash(payloads)
  {
    if |payloads| > 0 {
      RootOfPeaks(Leaves(payloads), 0);
      MthIsRoot(payloads, 0, |payloads|);
    }
  }

  /** A pushed leaf extends the stack of a log to the stack of the longer log. */
  lemma StackPush(payloads: seq<Hash>, payload: Hash)
    ensures Pushed(StackOf(payloads), 0, Leaf(payload)) == StackOf(payloads + [payload])
  {
    PushExtends(Leaves(payloads), 0, Leaf(payload));
    assert Leaves(payloads + [payload]) == Leaves(payloads) + [Leaf(payload)];
  }

  /** A size shifted right, and one of its bits. */
  function Shift(size: nat, h: nat): nat
  {
    if h == 0 then size else Shift(size / 2, h - 1)
  }

  predicate Bit(size: nat, h: nat)
  {
    Shift(size, h) % 2 == 1
  }

  lemma {:induction false} ShiftStep(size: nat, h: nat)
    ensures Shift(size, h + 1) == Shift(size, h) / 2
  {
    if h > 0 {
      ShiftStep(size / 2, h - 1);
    }
  }

  lemma {:induction false} ShiftOut(size: nat, h: nat)
    ensures Shift(size, h) == 0 <==> size < Pow(2, h)
  {
    if h > 0 {
      ShiftOut(size / 2, h - 1);
    }
  }

  /** The cover of a size lists exactly its set bits, highest first. */
  lemma {:induction false} CoverIsBits(size: nat, level: nat)
    ensures forall h :: h in Cover(size, level) <==> h >= level && Bit(size, h - level)
    ensures forall i, j :: 0 <= i < j < |Cover(size, level)| ==> Cover(size, level)[i] > Cover(size, level)[j]
    decreases size
  {
    if size > 0 {
      CoverIsBits(size / 2, level + 1);
      var above := Cover(size / 2, level + 1);
      forall h
        ensures h in Cover(size, level) <==> h >= level && Bit(size, h - level)
      {
        assert h > level ==> (Bit(size, h - level) <==> Bit(size / 2, h - (level + 1)));
      }
      forall i, j | 0 <= i < j < |Cover(size, level)|
        ensures Cover(size, level)[i] > Cover(size, level)[j]
      {
        assert above[i] in above;
      }
    } else {
      forall h: nat
        ensures !Bit(0, h)
      {
        ShiftOut(0, h);
      }
    }
  }

  /** Every machine-word size has its bits below 64. */
  lemma PowOfWord()
    ensures Pow(2, 64) == U64_MAX + 1
  {
    assert Pow(2, 2) == 4;
    hide Pow;
    PowSum(2, 2, 2);
    PowSum(2, 4, 4);
    PowSum(2, 8, 8);
    PowSum(2, 16, 16);
    PowSum(2, 32, 32);
  }

  datatype MalformedAccumulator = MalformedAccumulator(size: u64, expected: seq<nat>, found: seq<nat>)

  /** The perfect-subtree roots covering a log, without its leaves. */
  class MerkleAccumulator {
    var subtrees: seq<(nat, Hash)>
    var size: u64

    /** The stack is the one a log with these leaves has. */
    ghost predicate Covers(payloads: seq<Hash>)
      reads this
    {
      |payloads| == size && subtrees == StackOf(payloads)
    }

    constructor ()
      ensures Covers([])
    {
      subtrees, size := [], 0;
    }

    /** Takes over persisted parts as they are; `TryFromParts` decides whether to. */
    constructor FromParts(parts: seq<(nat, Hash)>, count: u64)
      ensures subtrees == parts && size == count
    {
      subtrees, size := parts, count;
    }

    /** One height per set bit of the size, found by testing the bits from the top. */
    static method CoverOf(count: u64) returns (cover: seq<nat>)
      ensures cover == Cover(count, 0)
    {
      cover := [];
      var bit := 64;
      ShiftOut(count, 64);
      PowOfWord();
      while bit > 0
        invariant 0 <= bit <= 64
        invariant cover == Cover(Shift(count, bit), bit)
      {
        bit := bit - 1;
        ShiftStep(count, bit);
        if Bit(count, bit) {
          cover := cover + [bit];
        }
      }
    }

    /** Restores persisted state exactly when its heights are the set bits of its size. */
    static method TryFromParts(parts: seq<(nat, Hash)>, count: u64)
      returns (r: Result<MerkleAccumulator, MalformedAccumulator>)
      ensures r.Ok? <==> Heights(parts) == Cover(count, 0)
      ensures r.Ok? ==> fresh(r.value) && r.value.subtrees == parts && r.value.size == count
      ensures r.Err? ==> r.error == MalformedAccumulator(count, Cover(count, 0), Heights(parts))
    {
      var expected := CoverOf(count);
      var found := Heights(parts);
      if found == expected {
        var restored := new MerkleAccumulator.FromParts(parts, count);
        return Ok(restored);
      } else {
        return Err(MalformedAccumulator(count, expected, found));
      }
    }

    /** Appends a leaf: merges equal heights from the end of the stack, then pushes. */
    method Push(payload: Hash) returns (index: u64)
      modifies this
      ensures index == old(size) && size == if old(size) < U64_MAX then old(size) + 1 else U64_MAX
      ensures subtrees == Pushed(old(subtrees), 0, Leaf(payload))
      ensures forall payloads :: old(Covers(payloads)) && |payloads| < U64_MAX ==> Covers(payloads + [payload])
    {
      index := size;
      var node, level := Leaf(payload), 0;
      while subtrees != [] && subtrees[|subtrees| - 1].0 == level
        invariant Pushed(subtrees, level, node) == Pushed(old(subtrees), 0, Leaf(payload))
        invariant size == old(size)
        decreases |subtrees|
      {
        var top := subtrees[|subtrees| - 1].1;
        subtrees := subtrees[..|subtrees| - 1];
        node := Node(top, node);
        level := level + 1;
      }
      subtrees := subtrees + [(level, node)];
      size := if size < U64_MAX then size + 1 else U64_MAX;
      forall payloads | old(Covers(payloads)) && |payloads| < U64_MAX
        ensures Covers(payloads + [payload])
      {
        StackPush(payloads, payload);
      }
    }

    /** Folds the stack from the right. */
    method Root() returns (root: Hash)
      ensures root == RootOf(subtrees)
      ensures forall payloads :: Covers(payloads) ==> root == TreeHash(payloads)
    {
      forall payloads | Covers(payloads)
        ensures RootOf(subtrees) == TreeHash(payloads)
      {
        StackRoot(payloads);
      }
      if subtrees == [] {
        return EmptyTree;
      }
      var i := |subtrees| - 1;
      root := subtrees[i].1;
      while i > 0
        invariant 0 <= i < |subtrees|
        invariant Folded(subtrees[..i], root) == RootOf(subtrees)
      {
        i := i - 1;
        assert subtrees[..i + 1][..i] == subtrees[..i];
        root := Node(subtrees[i].1, root);
      }
    }
  }

  /** Persisted parts of a log's own accumulator are always accepted. */
  lemma GenuinePartsAreWellFormed(payloads: seq<Hash>)
    ensures Heights(StackOf(payloads)) == Cover(|payloads|, 0)
  {
    PeaksHeights(Leaves(payloads), 0);
  }

  /** Why a proof or a historical head cannot be given. */
  datatype ProofError =
    | IndexOutOfRange(index: u64, size: u64)
    | SizeOutOfRange(from: u64, size: u64)

  /** `PATH`, appending to a shared vector as the recursion returns. */
  method BuildInclusionPath(m: nat, payloads: seq<Hash>, lo: nat, hi: nat, out: seq<Hash>)
    returns (path: seq<Hash>)
    requires lo <= m < hi <= |payloads|
    ensures path == out + Path(m, Leaves(payloads), lo, hi)
    decreases hi - lo
  {
    hide Split, Root, Mth;
    if hi - lo <= 1 {
      return out;
    }
    var k := SplitPoint(hi - lo);
    if m < lo + k {
      path := BuildInclusionPath(m, payloads, lo, lo + k, out);
      MthIsRoot(payloads, lo + k, hi);
      path := path + [Mth(payloads, lo + k, hi)];
    } else {
      path := BuildInclusionPath(m, payloads, lo + k, hi, out);
      MthIsRoot(payloads, lo, lo + k);
      path := path + [Mth(payloads, lo, lo + k)];
    }
  }

  /** `SUBPROOF`, appending to a shared vector as the recursion returns. */
  method BuildConsistencyPath(m: nat, payloads: seq<Hash>, lo: nat, hi: nat, complete: bool, out: seq<Hash>)
    returns (path: seq<Hash>)
    requires lo < m <= hi <= |payloads|
    ensures path == out + SubProof(m, Leaves(payloads), lo, hi, complete)
    decreases hi - lo
  {
    hide Split, Root, Mth;
    if m == hi {
      MthIsRoot(payloads, lo, hi);
      return if complete then out else out + [Mth(payloads, lo, hi)];
    }
    var k := SplitPoint(hi - lo);
    if m <= lo + k {
      path := BuildConsistencyPath(m, payloads, lo, lo + k, complete, out);
      MthIsRoot(payloads, lo + k, hi);
      path := path + [Mth(payloads, lo + k, hi)];
    } else {
      path := BuildConsistencyPath(m, payloads, lo + k, hi, false, out);
      MthIsRoot(payloads, lo, lo + k);
      path := path + [Mth(payloads, lo, lo + k)];
    }
  }

  /** The log: every leaf, and the accumulator derived from them. */
  class MerkleLog {
    var leaves: seq<Hash>
    var accumulator: MerkleAccumulator

    ghost function Repr(): set<object>
      reads this
    {
      {this, accumulator}
    }

    /** The derived stack agrees with the leaves. */
    ghost predicate Valid()
      reads this, accumulator
    {
      |leaves| <= U64_MAX && accumulator.Covers(leaves)
    }

    constructor ()
      ensures Valid() && fresh(Repr()) && leaves == []
    {
      leaves := [];
      accumulator := new MerkleAccumulator();
    }

    constructor FromLeaves(payloads: seq<Hash>)
      requires |payloads| <= U64_MAX
      ensures Valid() && fresh(Repr()) && leaves == payloads
    {
      leaves := [];
      accumulator := new MerkleAccumulator();
      new;
      for i := 0 to |payloads|
        invariant Valid() && fresh(Repr()) && leaves == payloads[..i]
      {
        var _ := Append(payloads[i]);
      }
    }

    /** The leaves determine the derived stack. */
    lemma StackDetermined()
      requires Valid()
      ensures accumulator.subtrees == StackOf(leaves)
    {
    }

    method Append(payload: Hash) returns (index: u64)
      requires Valid() && |leaves| < U64_MAX
      modifies this, accumulator
      ensures Valid() && accumulator == old(accumulator)
      ensures leaves == old(leaves) + [payload] && index == |old(leaves)|
    {
      leaves := leaves + [payload];
      index := accumulator.Push(payload);
    }

    /** Drops every leaf from `len` onward and rebuilds the accumulator from those left. */
    method Truncate(len: u64)
      requires Valid()
      modifies this, accumulator
      ensures Valid() && (accumulator == old(accumulator) || fresh(accumulator))
      ensures leaves == if len < |old(leaves)| then old(leaves)[..len] else old(leaves)
    {
      if len >= |leaves| {
        return;
      }
      leaves := leaves[..len];
      accumulator := new MerkleAccumulator();
      for i := 0 to |leaves|
        invariant leaves == old(leaves)[..len] && |leaves| <= U64_MAX
        invariant fresh(accumulator)
        invariant accumulator.Covers(leaves[..i])
      {
        assert leaves[..i + 1] == leaves[..i] + [leaves[i]];
        var _ := accumulator.Push(leaves[i]);
      }
      assert leaves[..|leaves|] == leaves;
    }

    /** The maintained root is the tree hash of the leaves. */
    method Root() returns (root: Hash)
      requires Valid()
      ensures root == TreeHash(leaves)
    {
      root := accumulator.Root();
    }

    method VerifyIncrementalState() returns (ok: bool)
      requires Valid()
      ensures ok
    {
      var root := Root();
      return root == TreeHash(leaves);
    }

    method Head() returns (head: TreeHead)
      requires Valid()
      ensures head == HeadOf(leaves)
    {
      var root := Root();
      return TreeHead(|leaves|, root);
    }

    /** The head the log had at an earlier size. */
    method HeadAt(size: u64) returns (r: Result<TreeHead, ProofError>)
      requires Valid()
      ensures r == if size <= |leaves| then Ok(HeadOf(leaves[..size])) else Err(SizeOutOfRange(size, |leaves|))
    {
      if size > |leaves| {
        return Err(SizeOutOfRange(size, |leaves|));
      }
      MthPrefix(leaves, size);
      return Ok(TreeHead(size, Mth(leaves, 0, size)));
    }

    /** Proves a leaf under the head the log had at `size`; the proof verifies there. */
    method InclusionProofAt(index: u64, size: u64) returns (r: Result<InclusionProof, ProofError>)
      requires Valid()
      ensures size > |leaves| ==> r == Err(SizeOutOfRange(size, |leaves|))
      ensures index >= size && size <= |leaves| ==> r == Err(IndexOutOfRange(index, size))
      ensures index < size <= |leaves| ==>
        r == Ok(InclusionProofOf(index, leaves[..size]))
        && r.value.Verifies(leaves[index], HeadOf(leaves[..size]))
    {
      if size > |leaves| {
        return Err(SizeOutOfRange(size, |leaves|));
      }
      if index >= size {
        return Err(IndexOutOfRange(index, size));
      }
      var path := BuildInclusionPath(index, leaves, 0, size, []);
      PathLocal(index, Leaves(leaves), Leaves(leaves[..size]), 0, size);
      var proof := InclusionProof(index, size, path);
      InclusionExact(proof, leaves[index], leaves[..size]);
      return Ok(proof);
    }

    /** Relates two sizes the log has passed through; the proof verifies between their heads. */
    method ConsistencyProofBetween(oldSize: u64, newSize: u64) returns (r: Result<ConsistencyProof, ProofError>)
      requires Valid()
      ensures newSize > |leaves| ==> r == Err(SizeOutOfRange(newSize, |leaves|))
      ensures oldSize > newSize && newSize <= |leaves| ==> r == Err(SizeOutOfRange(oldSize, newSize))
      ensures oldSize <= newSize <= |leaves| ==>
        r == Ok(ConsistencyProof(oldSize, newSize, ConsistencyPath(oldSize, leaves[..newSize])))
        && r.value.Verifies(HeadOf(leaves[..oldSize]), HeadOf(leaves[..newSize]))
    {
      if newSize > |leaves| {
        return Err(SizeOutOfRange(newSize, |leaves|));
      }
      if oldSize > newSize {
        return Err(SizeOutOfRange(oldSize, newSize));
      }
      var path := [];
      if oldSize > 0 && oldSize < newSize {
        path := BuildConsistencyPath(oldSize, leaves, 0, newSize, true, path);
        SubProofLocal(oldSize, Leaves(leaves), Leaves(leaves[..newSize]), 0, newSize, true);
      }
      var proof := ConsistencyProof(oldSize, newSize, path);
      assert leaves[..newSize][..oldSize] == leaves[..oldSize];
      if oldSize > 0 {
        ConsistencyExact(proof, HeadOf(leaves[..oldSize]), leaves[..newSize]);
      }
      return Ok(proof);
    }
  }
}

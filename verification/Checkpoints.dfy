/**
 Checkpoints: a balance, and the tree head that names and pins the prefix it covers.
 */
module Checkpoints {
  import opened Wrappers
  import opened Entries
  import opened MerkleTree
  import opened MerkleProofs
  import opened Books
  import opened Ledgers
  import opened LedgerRuns

  datatype Checkpoint = Checkpoint(key: BalanceKey, balance: Balance, treeHead: TreeHead)

  datatype CheckpointError = SizeOutOfRange(size: u64) | HeadMismatch | BalanceMismatch | CheckpointOverflow

  /** The head is that of a prefix, and the balance is what that prefix adds up to. */
  predicate CheckpointHolds(l: Ledger, c: Checkpoint)
  {
    && c.treeHead.size <= |l.entries|
    && c.treeHead == HeadOf(Hashes(l.scale, l.entries[..c.treeHead.size]))
    && c.balance == Sum(Flat(l.entries[..c.treeHead.size]), c.key)
  }

  /** A checkpoint that holds in one state of a ledger holds in every later one. */
  lemma CheckpointForever(run: seq<Ledger>, c: Checkpoint)
    requires IsRun(run) && Inv(run[0]) && CheckpointHolds(run[0], c)
    ensures CheckpointHolds(run[|run| - 1], c)
  {
    hide Inv, Step, TreeHash, Sum, Flat;
    RunKeeps(run);
    var first, last := run[0], run[|run| - 1];
    assert last.entries[..c.treeHead.size] == first.entries[..c.treeHead.size];
  }

  /**
   Its head pins the history: two ledgers of one scale in which the same head stands for a
   prefix agree, entry by entry and up to identifiers, on all of that prefix.
   */
  lemma HeadPinsHistory(a: Ledger, b: Ledger, head: TreeHead)
    requires a.scale == b.scale && head.size <= |a.entries| && head.size <= |b.entries|
    requires head == HeadOf(Hashes(a.scale, a.entries[..head.size]))
    requires head == HeadOf(Hashes(b.scale, b.entries[..head.size]))
    ensures forall i :: 0 <= i < head.size ==> a.entries[i] == b.entries[i].(id := a.entries[i].id)
  {
    hide TreeHash, ContentHash;
    var left, right := Hashes(a.scale, a.entries[..head.size]), Hashes(b.scale, b.entries[..head.size]);
    TreeHashInjective(left, right);
    forall i | 0 <= i < head.size
      ensures a.entries[i] == b.entries[i].(id := a.entries[i].id)
    {
      assert left[i] == ContentHash(a.scale, a.entries[i]) && right[i] == ContentHash(b.scale, b.entries[i]);
      ContentHashExact(a.scale, b.scale, a.entries[i], b.entries[i]);
    }
  }

  /** Identifiers apart, entries are all a balance depends on, so the balance is pinned too. */
  lemma {:induction false} SumPinned(es: seq<Entry>, fs: seq<Entry>, k: BalanceKey)
    requires |es| == |fs| && forall i :: 0 <= i < |es| ==> es[i] == fs[i].(id := es[i].id)
    ensures Flat(es) == Flat(fs) && Sum(Flat(es), k) == Sum(Flat(fs), k)
  {
    if es != [] {
      SumPinned(es[..|es| - 1], fs[..|fs| - 1], k);
    }
  }

  /** Two checkpoints for one key against one head that both hold carry the same balance. */
  lemma CheckpointUnique(a: Ledger, b: Ledger, c: Checkpoint, d: Checkpoint)
    requires a.scale == b.scale && CheckpointHolds(a, c) && CheckpointHolds(b, d)
    requires c.treeHead == d.treeHead && c.key == d.key
    ensures c == d
  {
    hide HeadOf, Hashes, Flat, Sum;
    HeadPinsHistory(a, b, c.treeHead);
    SumPinned(a.entries[..c.treeHead.size], b.entries[..c.treeHead.size], c.key);
  }
}

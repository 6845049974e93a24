/**
 Building the commitments a seal records, by way of a log over their leaves.
 */
module Commitments {
  import opened Wrappers
  import opened Hashing
  import opened Entries
  import opened MerkleProofs
  import opened MerkleLogs
  import opened Accounts
  import opened Seals

  /** The head over every account binding, in handle order. */
  method RegistryCommitment(accounts: Chart) returns (head: TreeHead)
    ensures head == Commitment(accounts)
  {
    var log := new MerkleLog.FromLeaves(BindingLeaves(accounts));
    head := log.Head();
  }

  ghost predicate Lists(rows: seq<(BalanceKey, Balance)>, tb: TrialBalance)
  {
    && |rows| == |SortedKeys(tb.Keys)|
    && forall i :: 0 <= i < |rows| ==>
      rows[i].0 == SortedKeys(tb.Keys)[i] && rows[i].0 in tb && rows[i].1 == tb[rows[i].0]
  }

  /** The rows in key order, each with its leaf. */
  method ListRows(scale: byte, tb: TrialBalance) returns (rows: seq<(BalanceKey, Balance)>, leaves: seq<Hash>)
    ensures Lists(rows, tb) && leaves == RowLeaves(scale, tb)
  {
    hide RowLeaves, SortedKeys, BalanceLeaf, Rank, Ascending;
    var keys := SortKeys(tb.Keys);
    SortedKeysList(tb.Keys);
    rows, leaves := [], [];
    for i := 0 to |keys|
      invariant |rows| == |leaves| == i
      invariant forall j :: 0 <= j < i ==> rows[j].0 == keys[j] && rows[j].0 in tb && rows[j].1 == tb[rows[j].0]
      invariant leaves == RowLeaves(scale, tb)[..i]
    {
      var k := keys[i];
      assert k in keys;
      RowLeafAt(scale, tb, i);
      rows := rows + [(k, tb[k])];
      leaves := leaves + [BalanceLeaf(scale, k, tb[k])];
    }
  }

  /** The rows of a trial balance in key order, and the log over their leaves. */
  class TrialBalanceCommitment {
    var rows: seq<(BalanceKey, Balance)>
    var log: MerkleLog

    /** The rows and leaves are those of a trial balance. */
    ghost predicate Commits(scale: byte, tb: TrialBalance)
      reads this, log, log.accumulator
    {
      log.Valid() && log.leaves == RowLeaves(scale, tb) && Lists(rows, tb)
    }

    constructor Of(scale: byte, tb: TrialBalance)
      ensures Commits(scale, tb) && fresh(log) && fresh(log.accumulator)
    {
      hide RowLeaves, SortedKeys, MerkleLog.Valid;
      var listed, leaves := ListRows(scale, tb);
      rows := listed;
      log := new MerkleLog.FromLeaves(leaves);
    }

    /** The head a seal records. */
    method Head(ghost scale: byte, ghost tb: TrialBalance) returns (head: TreeHead)
      requires Commits(scale, tb)
      ensures head == TrialBalanceHead(scale, tb)
    {
      hide RowLeaves, SortedKeys;
      head := log.Head();
    }

    /** The proof of one row; a key without a row has none. */
    method Prove(key: BalanceKey, ghost scale: byte, ghost tb: TrialBalance) returns (p: Option<BalanceProof>)
      requires Commits(scale, tb)
      ensures p == ProveRow(scale, tb, key)
    {
      hide RowLeaves, SortedKeys, InclusionProofOf, MerkleLog.Valid;
      SortedKeysList(tb.Keys);
      for i := 0 to |rows|
        invariant forall j :: 0 <= j < i ==> rows[j].0 != key
      {
        if rows[i].0 == key {
          RowPosition(scale, tb, key, i);
          var proof := log.InclusionProofAt(i, |log.leaves|);
          assert log.leaves[..|log.leaves|] == log.leaves;
          return Some(BalanceProof(key, rows[i].1, proof.value));
        }
      }
      return None;
    }
  }

  /** A key stands at one position only, so there is one proof of its row. */
  lemma RowPosition(scale: byte, tb: TrialBalance, key: BalanceKey, i: nat)
    requires i < |SortedKeys(tb.Keys)| && SortedKeys(tb.Keys)[i] == key && key in tb
    ensures i < |RowLeaves(scale, tb)| <= U64_MAX
    ensures ProveRow(scale, tb, key) == Some(BalanceProof(key, tb[key], InclusionProofOf(i, RowLeaves(scale, tb))))
  {
    hide RowLeaves, SortedKeys, InclusionProofOf;
    SortedKeysList(tb.Keys);
    var keys := SortedKeys(tb.Keys);
    var j :| 0 <= j < |tb| && keys[j] == key
      && ProveRow(scale, tb, key) == Some(BalanceProof(key, tb[key], InclusionProofOf(j, RowLeaves(scale, tb))));
    assert !(Rank(keys[i]) < Rank(keys[j])) && !(Rank(keys[j]) < Rank(keys[i]));
  }
}

/**
 Hashes as a free datatype.

 A digest is equal to another exactly when both were built the same way, which is
 the collision-freedom the engine assumes of its hash function. `Raw` stands for a
 digest that came from outside the ledger. A preimage is a sequence of atoms: a
 byte, or a whole fixed-width digest.
 */
module Hashing {
  import opened Wrappers

  datatype Tag = EntryTag | AccountTag | SealTag | TrialBalanceTag | AccountBindingTag

  datatype Atom = Byte(value: byte) | Digest(hash: Hash)

  datatype Hash =
    | EmptyTree
    | Leaf(payload: Hash)
    | Node(left: Hash, right: Hash)
    | Tagged(tag: Tag, preimage: seq<Atom>)
    | Raw(bytes: seq<byte>)
}

/**
 What is hashed, byte for byte.

 Every digest the engine makes hashes a tag, prefixed by its length, and then a payload. So
 the free datatype of digests is no more than collision freedom: two digests hash the same
 bytes exactly when they are the same, and nothing hashed outside the engine's namespace
 can be mistaken for one of them.
 */
module HashTags {
  import opened Wrappers
  import opened Hashing
  import opened Canonical

  function Ascii(s: string): (bytes: seq<byte>)
    ensures |bytes| == |s|
  {
    seq(|s|, i requires 0 <= i < |s| => if s[i] as int <= U8_MAX then s[i] as int else 0)
  }

  function TagName(tag: Tag): string
  {
    match tag
    case EntryTag => "doubleentry/entry/v1"
    case AccountTag => "doubleentry/account/v1"
    case SealTag => "doubleentry/seal/v1"
    case TrialBalanceTag => "doubleentry/trialbalance/v1"
    case AccountBindingTag => "doubleentry/accountbinding/v1"
  }

  const EMPTY_NAME := "doubleentry/merkle/empty/v1"
  const LEAF_NAME := "doubleentry/merkle/leaf/v1"
  const NODE_NAME := "doubleentry/merkle/node/v1"
  const RESERVED_PREFIX := "doubleentry/"

  /** The name of the tag a digest was made under, if the engine made it. */
  function NameOf(h: Hash): Option<string>
  {
    match h
    case EmptyTree => Some(EMPTY_NAME)
    case Leaf(_) => Some(LEAF_NAME)
    case Node(_, _) => Some(NODE_NAME)
    case Tagged(tag, _) => Some(TagName(tag))
    case Raw(_) => None
  }

  function PayloadOf(h: Hash): seq<Atom>
  {
    match h
    case EmptyTree => []
    case Leaf(payload) => [Digest(payload)]
    case Node(left, right) => [Digest(left), Digest(right)]
    case Tagged(_, preimage) => preimage
    case Raw(_) => []
  }

  /** What the hasher is fed: the length of the tag, the tag, the payload. */
  function Hashed(name: string, payload: seq<Atom>): seq<Atom>
    requires |name| <= U64_MAX
  {
    PutBytes(Ascii(name), payload)
  }

  /** What is fed to the hasher for each kind of digest. */
  lemma HashedIs(h: Hash, left: Hash, right: Hash, preimage: seq<Atom>)
    ensures h == EmptyTree ==> Feeds(h, "doubleentry/merkle/empty/v1", [])
    ensures h == Leaf(left) ==> Feeds(h, "doubleentry/merkle/leaf/v1", [Digest(left)])
    ensures h == Node(left, right) ==> Feeds(h, "doubleentry/merkle/node/v1", [Digest(left), Digest(right)])
    ensures h == Tagged(EntryTag, preimage) ==> Feeds(h, "doubleentry/entry/v1", preimage)
    ensures h == Tagged(AccountTag, preimage) ==> Feeds(h, "doubleentry/account/v1", preimage)
    ensures h == Tagged(SealTag, preimage) ==> Feeds(h, "doubleentry/seal/v1", preimage)
    ensures h == Tagged(TrialBalanceTag, preimage) ==> Feeds(h, "doubleentry/trialbalance/v1", preimage)
    ensures h == Tagged(AccountBindingTag, preimage) ==> Feeds(h, "doubleentry/accountbinding/v1", preimage)
  {
  }

  predicate Feeds(h: Hash, name: string, payload: seq<Atom>)
  {
    NameOf(h) == Some(name) && PayloadOf(h) == payload
  }

  /** Which tag a digest has tells how it was made. */
  lemma NamesSeparate(a: Hash, b: Hash)
    requires NameOf(a).Some? && NameOf(a) == NameOf(b)
    ensures match a
      case EmptyTree => b.EmptyTree?
      case Leaf(_) => b.Leaf?
      case Node(_, _) => b.Node?
      case Tagged(tag, _) => b.Tagged? && b.tag == tag
      case Raw(_) => true
  {
    assert |TagName(TrialBalanceTag)| == |EMPTY_NAME| && TagName(TrialBalanceTag)[12] != EMPTY_NAME[12];
    assert |LEAF_NAME| == |NODE_NAME| && LEAF_NAME[19] != NODE_NAME[19];
  }

  predicate IsAscii(s: string)
  {
    forall i :: 0 <= i < |s| ==> s[i] as int <= U8_MAX
  }

  lemma AsciiUnique(a: string, b: string)
    requires IsAscii(a) && IsAscii(b) && Ascii(a) == Ascii(b)
    ensures a == b
  {
    forall i | 0 <= i < |a|
      ensures a[i] == b[i]
    {
      assert Ascii(a)[i] == Ascii(b)[i];
    }
  }

  predicate Reserved(name: string)
  {
    IsAscii(name) && |name| <= 29 && RESERVED_PREFIX <= name
  }

  lemma EntryAndSealReserved()
    ensures Reserved(TagName(EntryTag)) && Reserved(TagName(SealTag))
  {
  }

  lemma AccountReserved()
    ensures Reserved(TagName(AccountTag))
  {
  }

  lemma RowAndBindingReserved()
    ensures Reserved(TagName(TrialBalanceTag)) && Reserved(TagName(AccountBindingTag))
  {
  }

  lemma EmptyTreeReserved()
    ensures Reserved(EMPTY_NAME)
  {
  }

  lemma TreeReserved()
    ensures Reserved(LEAF_NAME) && Reserved(NODE_NAME)
  {
  }

  /** Every digest the engine makes has a name of its namespace. */
  lemma EngineNames(h: Hash)
    requires NameOf(h).Some?
    ensures Reserved(NameOf(h).value)
  {
    hide Reserved;
    EntryAndSealReserved();
    AccountReserved();
    RowAndBindingReserved();
    EmptyTreeReserved();
    TreeReserved();
  }

  /** Two of the engine's digests hash the same bytes exactly when they are the same digest. */
  lemma HashedExact(a: Hash, b: Hash)
    requires NameOf(a).Some? && NameOf(b).Some?
    ensures |NameOf(a).value| <= U64_MAX && |NameOf(b).value| <= U64_MAX
    ensures Hashed(NameOf(a).value, PayloadOf(a)) == Hashed(NameOf(b).value, PayloadOf(b)) <==> a == b
  {
    hide TagName;
    EngineNames(a);
    EngineNames(b);
    var x, y := NameOf(a).value, NameOf(b).value;
    if Hashed(x, PayloadOf(a)) == Hashed(y, PayloadOf(b)) {
      BytesUnique(Ascii(x), Ascii(y), PayloadOf(a), PayloadOf(b));
      AsciiUnique(x, y);
      NamesSeparate(a, b);
    }
  }

  /** Nothing hashed under a name outside the reserved namespace hashes the bytes of one of the engine's digests. */
  lemma OutsideNamespace(h: Hash, name: string, payload: seq<Atom>)
    requires NameOf(h).Some? && IsAscii(name) && |name| <= U64_MAX && !(RESERVED_PREFIX <= name)
    ensures |NameOf(h).value| <= U64_MAX
    ensures Hashed(NameOf(h).value, PayloadOf(h)) != Hashed(name, payload)
  {
    hide TagName;
    EngineNames(h);
    if Hashed(NameOf(h).value, PayloadOf(h)) == Hashed(name, payload) {
      BytesUnique(Ascii(NameOf(h).value), Ascii(name), PayloadOf(h), payload);
      AsciiUnique(NameOf(h).value, name);
    }
  }
}

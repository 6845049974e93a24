/**
 The account registry: handles issued in order, paths that form a tree, and the Merkle
 commitment that pins each handle to its path.

 Whether an account may be posted to depends on whether any other registered path lies
 under it. The registry keeps that as a count maintained from an ordered index; the
 definition it must agree with is a search over every account.
 */
module Accounts {
  import opened Wrappers
  import opened Hashing
  import opened Canonical
  import opened Entries
  import opened MerkleProofs
  import opened OrderedMaps

  /** Path segments from the root; the constructor refuses an empty path. */
  type AccountPath = s: seq<Label> | 0 < |s| <= U64_MAX witness [EMPTY_LABEL]

  datatype AccountKind = Asset | Liability | Equity | Income | Expense

  datatype BalanceLimit = Unlimited | NoCreditBalance | NoDebitBalance
  {
    predicate Permits(b: Balance)
    {
      match this
      case Unlimited => true
      case NoCreditBalance => b.debits >= b.credits
      case NoDebitBalance => b.credits >= b.debits
    }
  }

  datatype Account = Account(
    path: AccountPath, kind: Option<AccountKind>, openedOn: Date, closedOn: Option<Date>, limit: BalanceLimit)
  {
    predicate ClosedEarly()
    {
      closedOn.Some? && closedOn.value < openedOn
    }

    predicate IsOpenOn(date: Date)
    {
      date >= openedOn && (closedOn.Some? ==> date <= closedOn.value)
    }
  }

  /** A limit is about the sign of the net: no credit balance means never below zero, no debit balance never above. */
  lemma LimitIsSide(b: Balance)
    ensures Unlimited.Permits(b) && b.SignedNet() == b.debits - b.credits
    ensures NoCreditBalance.Permits(b) <==> b.SignedNet() >= 0
    ensures NoDebitBalance.Permits(b) <==> b.SignedNet() <= 0
  {
  }

  /** An account is open from its opening day through its closing day, and on no day at all if it closed before it opened. */
  lemma OpenDays(a: Account)
    ensures forall d: Date :: a.IsOpenOn(d) <==> a.openedOn <= d && (a.closedOn.Some? ==> d <= a.closedOn.value)
    ensures a.ClosedEarly() <==> forall d: Date :: !a.IsOpenOn(d)
  {
    assert a.IsOpenOn(a.openedOn) || a.ClosedEarly();
  }

  datatype AccountRecord = AccountRecord(id: u32, account: Account)

  datatype AccountError =
    | AlreadyRegistered(path: AccountPath)
    | UnknownAccount(id: u32)
    | NotDense(expected: u32, found: u32)
    | RegistryFull
    | ClosedBeforeOpened(path: AccountPath, openedOn: Date, closedOn: Date)

  // ---------------------------------------------------------------- path order

  /** Segments compare byte by byte. */
  predicate LabelLe(a: seq<byte>, b: seq<byte>)
  {
    a == [] || (b != [] && (a[0] < b[0] || (a[0] == b[0] && LabelLe(a[1..], b[1..]))))
  }

  /** Paths compare segment by segment, a prefix first. */
  predicate PathLe(a: seq<Label>, b: seq<Label>)
  {
    a == [] || (b != [] && (if a[0] == b[0] then PathLe(a[1..], b[1..]) else LabelLe(a[0], b[0])))
  }

  /** At or below: `prefix` is a prefix of `path`. */
  predicate IsUnder(path: seq<Label>, prefix: seq<Label>)
  {
    |prefix| <= |path| && path[..|prefix|] == prefix
  }

  predicate StrictlyUnder(path: seq<Label>, prefix: seq<Label>)
  {
    IsUnder(path, prefix) && path != prefix
  }

  lemma SameHead<T>(a: seq<T>, b: seq<T>, k: nat)
    requires 0 < k < |a| && k < |b| && a[..k] == b[..k]
    ensures a[0] == b[0]
  {
    assert a[..k][0] == b[..k][0];
  }

  /** Two sequences agree before a position and differ there. */
  predicate DifferFirst<T(==)>(a: seq<T>, b: seq<T>, k: nat)
  {
    k < |a| && k < |b| && a[k] != b[k] && forall j :: 0 <= j < k ==> a[j] == b[j]
  }

  lemma DifferFirstNext<T>(a: seq<T>, b: seq<T>, k: nat)
    requires a != [] && b != []
    ensures DifferFirst(a, b, 0) <==> a[0] != b[0]
    ensures DifferFirst(a, b, k + 1) <==> a[0] == b[0] && DifferFirst(a[1..], b[1..], k)
  {
    if a[0] == b[0] && DifferFirst(a[1..], b[1..], k) {
      forall j | 0 <= j < k + 1
        ensures a[j] == b[j]
      {
        assert j > 0 ==> a[j] == a[1..][j - 1] && b[j] == b[1..][j - 1];
      }
    }
  }

  /** Segments are ordered by the first byte that differs, a prefix first. */
  lemma {:induction false} LabelLeIs(a: seq<byte>, b: seq<byte>)
    ensures LabelLe(a, b) <==> a <= b || exists k: nat :: DifferFirst(a, b, k) && a[k] < b[k]
  {
    if a != [] && b != [] {
      var s, t := a[1..], b[1..];
      if a[0] == b[0] {
        LabelLeIs(s, t);
        assert a == [a[0]] + s && b == [b[0]] + t;
        if k: nat :| DifferFirst(s, t, k) && s[k] < t[k] {
          DifferFirstNext(a, b, k);
        }
        if k: nat :| DifferFirst(a, b, k) && a[k] < b[k] {
          DifferFirstNext(a, b, k - 1);
          assert s[k - 1] == a[k] && t[k - 1] == b[k];
        }
      } else {
        assert DifferFirst(a, b, 0);
        forall k: nat | k > 0
          ensures !DifferFirst(a, b, k)
        {
          DifferFirstNext(a, b, k - 1);
        }
      }
    }
  }

  /** Paths are ordered by the first segment that differs, a prefix first. */
  lemma {:induction false} PathLeIs(a: seq<Label>, b: seq<Label>)
    ensures PathLe(a, b) <==> a <= b || exists k: nat :: DifferFirst(a, b, k) && LabelLe(a[k], b[k])
  {
    hide LabelLe;
    if a != [] && b != [] {
      var s, t := a[1..], b[1..];
      if a[0] == b[0] {
        PathLeIs(s, t);
        assert a == [a[0]] + s && b == [b[0]] + t;
        if k: nat :| DifferFirst(s, t, k) && LabelLe(s[k], t[k]) {
          DifferFirstNext(a, b, k);
        }
        if k: nat :| DifferFirst(a, b, k) && LabelLe(a[k], b[k]) {
          DifferFirstNext(a, b, k - 1);
          assert s[k - 1] == a[k] && t[k - 1] == b[k];
        }
      } else {
        assert DifferFirst(a, b, 0);
        forall k: nat | k > 0
          ensures !DifferFirst(a, b, k)
        {
          DifferFirstNext(a, b, k - 1);
        }
      }
    }
  }

  /** At or below means the prefix and some more segments, strictly below at least one more. */
  lemma UnderIs(path: seq<Label>, prefix: seq<Label>)
    ensures IsUnder(path, prefix) <==> exists rest :: path == prefix + rest
    ensures StrictlyUnder(path, prefix) <==> exists rest :: rest != [] && path == prefix + rest
  {
    if IsUnder(path, prefix) {
      assert path == prefix + path[|prefix|..];
    }
  }

  lemma {:induction false} LabelOrder(a: seq<byte>, b: seq<byte>)
    ensures LabelLe(a, b) || LabelLe(b, a)
    ensures LabelLe(a, b) && LabelLe(b, a) ==> a == b
  {
    if a != [] && b != [] && a[0] == b[0] {
      LabelOrder(a[1..], b[1..]);
      assert a == [a[0]] + a[1..] && b == [b[0]] + b[1..];
    }
  }

  lemma {:induction false} LabelTransitive(a: seq<byte>, b: seq<byte>, c: seq<byte>)
    requires LabelLe(a, b) && LabelLe(b, c)
    ensures LabelLe(a, c)
  {
    if a != [] && b != [] && c != [] && a[0] == b[0] == c[0] {
      LabelTransitive(a[1..], b[1..], c[1..]);
    }
  }

  lemma {:induction false} PathOrder(a: seq<Label>, b: seq<Label>)
    ensures PathLe(a, b) || PathLe(b, a)
    ensures PathLe(a, b) && PathLe(b, a) ==> a == b
  {
    if a != [] && b != [] {
      LabelOrder(a[0], b[0]);
      if a[0] == b[0] {
        PathOrder(a[1..], b[1..]);
        assert a == [a[0]] + a[1..] && b == [b[0]] + b[1..];
      }
    }
  }

  lemma {:induction false} PathTransitive(a: seq<Label>, b: seq<Label>, c: seq<Label>)
    requires PathLe(a, b) && PathLe(b, c)
    ensures PathLe(a, c)
  {
    if a != [] && b != [] && c != [] {
      if a[0] == b[0] == c[0] {
        PathTransitive(a[1..], b[1..], c[1..]);
      } else if a[0] != b[0] && b[0] != c[0] {
        LabelTransitive(a[0], b[0], c[0]);
        LabelOrder(a[0], b[0]);
      }
    }
  }

  lemma {:induction false} UnderIsAfter(path: seq<Label>, prefix: seq<Label>)
    requires IsUnder(path, prefix)
    ensures PathLe(prefix, path)
  {
    if prefix != [] {
      assert path[..|prefix|][0] == prefix[0];
      assert path[1..][..|prefix| - 1] == path[..|prefix|][1..];
      UnderIsAfter(path[1..], prefix[1..]);
    }
  }

  /** Everything between a prefix and a path under it is under that prefix too. */
  lemma {:induction false} DescendantsAreContiguous(prefix: seq<Label>, between: seq<Label>, last: seq<Label>)
    requires PathLe(prefix, between) && PathLe(between, last) && IsUnder(last, prefix)
    ensures IsUnder(between, prefix)
  {
    if prefix != [] {
      assert last[..|prefix|][0] == prefix[0];
      LabelOrder(prefix[0], between[0]);
      assert last[1..][..|prefix| - 1] == last[..|prefix|][1..];
      DescendantsAreContiguous(prefix[1..], between[1..], last[1..]);
      assert between == [between[0]] + between[1..];
      assert prefix == [prefix[0]] + prefix[1..];
    }
  }

  /** The registered paths strictly under a prefix. */
  ghost function Descendants(keys: set<AccountPath>, prefix: AccountPath): set<AccountPath>
  {
    set k | k in keys && StrictlyUnder(k, prefix)
  }

  ghost function Paths(accounts: seq<Account>): set<AccountPath>
  {
    set a | a in accounts :: a.path
  }

  /** No registered path lies strictly under this one. */
  ghost predicate IsLeaf(accounts: seq<Account>, id: nat)
    requires id < |accounts|
  {
    forall a :: a in accounts ==> !StrictlyUnder(a.path, accounts[id].path)
  }

  /** A leaf is an account no registered path extends by a segment or more. */
  lemma LeafIs(accounts: seq<Account>, id: nat)
    requires id < |accounts|
    ensures IsLeaf(accounts, id) <==>
      forall a, rest: seq<Label> :: a in accounts && rest != [] ==> a.path != accounts[id].path + rest
  {
    forall a | a in accounts
      ensures StrictlyUnder(a.path, accounts[id].path) <==> exists rest :: rest != [] && a.path == accounts[id].path + rest
    {
      UnderIs(a.path, accounts[id].path);
    }
  }

  /** Handles keep their paths, and more may have been issued. */
  ghost predicate Extends(earlier: seq<Account>, later: seq<Account>)
  {
    |earlier| <= |later| && forall i :: 0 <= i < |earlier| ==> later[i].path == earlier[i].path
  }

  /** The first key after a bound in path order. */
  method FirstPathAfter(keys: set<AccountPath>, bound: AccountPath) returns (r: Option<AccountPath>)
    ensures r.Some? ==> r.value in keys && !PathLe(r.value, bound)
    ensures r.Some? ==> forall k :: k in keys && !PathLe(k, bound) ==> PathLe(r.value, k)
    ensures r.None? ==> forall k :: k in keys ==> PathLe(k, bound)
  {
    r := None;
    var rest := keys;
    while rest != {}
      invariant rest <= keys
      invariant r.Some? ==> r.value in keys && !PathLe(r.value, bound)
      invariant r.Some? ==> forall k :: k in keys && k !in rest && !PathLe(k, bound) ==> PathLe(r.value, k)
      invariant r.None? ==> forall k :: k in keys && k !in rest ==> PathLe(k, bound)
      decreases rest
    {
      var k := Pick(rest);
      rest := rest - {k};
      PathOrder(k, k);
      if !PathLe(k, bound) && (r.None? || PathLe(k, r.value)) {
        if r.Some? {
          forall j | j in keys && j !in rest && !PathLe(j, bound)
            ensures PathLe(k, j)
          {
            if j != k {
              PathTransitive(k, r.value, j);
            }
          }
        }
        r := Some(k);
      } else if !PathLe(k, bound) {
        PathOrder(k, r.value);
      }
    }
  }

  /**
   Counts the paths strictly under a prefix by scanning forward from it in path order and
   stopping at the first path that is not under it.
   */
  method CountDescendants(keys: set<AccountPath>, prefix: AccountPath) returns (n: nat)
    ensures n == |Descendants(keys, prefix)|
  {
    n := 0;
    ghost var seen: set<AccountPath> := {};
    var cursor := FirstPathAfter(keys, prefix);
    forall k | k in keys && StrictlyUnder(k, prefix)
      ensures !PathLe(k, prefix)
    {
      UnderIsAfter(k, prefix);
      PathOrder(k, prefix);
    }
    while cursor.Some? && IsUnder(cursor.value, prefix)
      invariant seen <= Descendants(keys, prefix) && n == |seen|
      invariant cursor.Some? ==> cursor.value in keys && !PathLe(cursor.value, prefix)
      invariant cursor.Some? ==> forall k :: k in seen ==> !PathLe(cursor.value, k)
      invariant forall k :: k in Descendants(keys, prefix) && k !in seen ==>
        cursor.Some? && PathLe(cursor.value, k)
      decreases keys - seen
    {
      var here := cursor.value;
      PathOrder(here, prefix);
      PathOrder(here, here);
      assert here in Descendants(keys, prefix) && here !in seen;
      seen := seen + {here};
      n := n + 1;
      cursor := FirstPathAfter(keys, here);
      ScanAdvances(keys, prefix, here, cursor, seen);
    }
    if cursor.Some? {
      forall k | k in Descendants(keys, prefix) && k !in seen
        ensures false
      {
        PathOrder(cursor.value, prefix);
        DescendantsAreContiguous(prefix, cursor.value, k);
      }
    }
    assert seen == Descendants(keys, prefix);
  }

  /** One step of the scan: what lies before the next key has been seen, the rest has not. */
  lemma ScanAdvances(keys: set<AccountPath>, prefix: AccountPath, here: AccountPath, next: Option<AccountPath>, seen: set<AccountPath>)
    requires here in seen && !PathLe(here, prefix)
    requires forall k :: k in seen ==> k == here || !PathLe(here, k)
    requires forall k :: k in keys && StrictlyUnder(k, prefix) && k !in seen ==> PathLe(here, k)
    requires next.Some? ==> next.value in keys && !PathLe(next.value, here)
    requires next.Some? ==> forall k :: k in keys && !PathLe(k, here) ==> PathLe(next.value, k)
    requires next.None? ==> forall k :: k in keys ==> PathLe(k, here)
    ensures next.Some? ==> !PathLe(next.value, prefix)
    ensures next.Some? ==> forall k :: k in seen ==> !PathLe(next.value, k)
    ensures forall k :: k in Descendants(keys, prefix) && k !in seen ==> next.Some? && PathLe(next.value, k)
  {
    forall k | k in Descendants(keys, prefix) && k !in seen
      ensures !PathLe(k, here)
    {
      PathOrder(k, here);
    }
    if next.Some? {
      forall k | k in seen || k == prefix
        ensures !PathLe(next.value, k)
      {
        PathOrder(here, k);
        if PathLe(next.value, k) {
          if k != here {
            PathTransitive(next.value, k, here);
          }
        }
      }
    }
  }

  lemma DescendantsGrow(keys: set<AccountPath>, path: AccountPath, prefix: AccountPath)
    requires path !in keys
    ensures |Descendants(keys + {path}, prefix)|
      == |Descendants(keys, prefix)| + if StrictlyUnder(path, prefix) then 1 else 0
  {
    if StrictlyUnder(path, prefix) {
      assert Descendants(keys + {path}, prefix) == Descendants(keys, prefix) + {path};
    } else {
      assert Descendants(keys + {path}, prefix) == Descendants(keys, prefix);
    }
  }

  // ------------------------------------------------------ binding commitment

  function PutPath(path: AccountPath, rest: seq<Atom>): seq<Atom>
  {
    PutSeq(path, PutBytes, rest)
  }

  /** The content hash of a path, under a tag of its own. */
  function PathHash(path: AccountPath): Hash
  {
    Tagged(AccountTag, PutPath(path, []))
  }

  /** The leaf that binds a handle to a path; nothing else about the account is covered. */
  function BindingLeaf(id: u32, path: AccountPath): Hash
  {
    Tagged(AccountBindingTag, PutU32(id, PutPath(path, [])))
  }

  lemma BindingLeafInjective(i: u32, p: AccountPath, j: u32, q: AccountPath)
    requires BindingLeaf(i, p) == BindingLeaf(j, q)
    ensures i == j && p == q
  {
    U32Unique(i, j, PutPath(p, []), PutPath(q, []));
    BytesDecodable();
    SeqUnique(p, q, PutBytes, [], []);
  }

  /** A path's hash determines the path, and is never taken for the binding of a handle. */
  lemma PathHashInjective(p: AccountPath, q: AccountPath, id: u32)
    ensures PathHash(p) == PathHash(q) <==> p == q
    ensures PathHash(p) != BindingLeaf(id, q)
  {
    if PathHash(p) == PathHash(q) {
      BytesDecodable();
      SeqUnique(p, q, PutBytes, [], []);
    }
  }

  /** As many accounts as there are handles. */
  const MAX_HANDLES: nat := U32_MAX + 1

  type Chart = s: seq<Account> | |s| <= MAX_HANDLES

  function BindingLeaves(accounts: Chart): seq<Hash>
  {
    seq(|accounts|, i requires 0 <= i < |accounts| => BindingLeaf(i, accounts[i].path))
  }

  /** The head over every binding, in handle order. */
  function Commitment(accounts: Chart): TreeHead
  {
    HeadOf(BindingLeaves(accounts))
  }

  datatype AccountBindingProof = AccountBindingProof(id: u32, path: AccountPath, proof: InclusionProof)
  {
    predicate Verifies(head: TreeHead)
    {
      proof.leafIndex == id && proof.Verifies(BindingLeaf(id, path), head)
    }
  }

  /** The binding of a handle under the commitment the registry had at an earlier size. */
  function ProveBindingAt(accounts: Chart, id: u32, size: u64): Option<AccountBindingProof>
  {
    if size > |accounts| || id >= size then None
    else Some(AccountBindingProof(id, accounts[id].path, InclusionProofOf(id, BindingLeaves(accounts[..size]))))
  }

  /** Against a chart's commitment, exactly the true bindings verify. */
  lemma BindingExact(b: AccountBindingProof, accounts: Chart)
    ensures b.Verifies(Commitment(accounts)) <==>
      b.id < |accounts| && accounts[b.id].path == b.path && ProveBindingAt(accounts, b.id, |accounts|) == Some(b)
  {
    var leaves := BindingLeaves(accounts);
    InclusionExact(b.proof, BindingLeaf(b.id, b.path), leaves);
    assert accounts[..|accounts|] == accounts;
    if b.Verifies(Commitment(accounts)) {
      BindingLeafInjective(b.id, accounts[b.id].path, b.id, b.path);
    }
  }

  /**
   A binding proven at a size verifies under the commitment the registry had at that size,
   however many accounts have been registered, closed or limited since.
   */
  lemma BindingSurvives(earlier: Chart, later: Chart, id: u32)
    requires Extends(earlier, later)
    ensures ProveBindingAt(later, id, |earlier|).Some? <==> id < |earlier|
    ensures id < |earlier| ==>
      ProveBindingAt(later, id, |earlier|).value.path == earlier[id].path
      && ProveBindingAt(later, id, |earlier|).value.Verifies(Commitment(earlier))
  {
    assert BindingLeaves(later[..|earlier|]) == BindingLeaves(earlier);
    assert earlier[..|earlier|] == earlier;
    if id < |earlier| {
      BindingExact(ProveBindingAt(later, id, |earlier|).value, earlier);
    }
  }

  // ------------------------------------------------------------- the registry

  /** The index lists every account under its path, and each count is that of its strict descendants. */
  ghost predicate IndexedBy(accounts: seq<Account>, index: map<AccountPath, nat>, childCount: seq<nat>)
  {
    && |accounts| <= MAX_HANDLES && |childCount| == |accounts|
    && (forall i :: 0 <= i < |accounts| ==> accounts[i].path in index && index[accounts[i].path] == i)
    && (forall p :: p in index ==> index[p] < |accounts| && accounts[index[p]].path == p)
    && (forall i :: 0 <= i < |accounts| ==> childCount[i] == |Descendants(index.Keys, accounts[i].path)|)
  }

  /** Registering a new path, with its ancestors counted up, keeps the index and every count right. */
  lemma RegisteredIndexed(accounts: seq<Account>, index: map<AccountPath, nat>, before: seq<nat>, after: seq<nat>, account: Account)
    requires IndexedBy(accounts, index, before) && account.path !in index && |accounts| < MAX_HANDLES
    requires |after| == |accounts|
    requires forall i :: 0 <= i < |accounts| ==>
      after[i] == before[i] + if StrictlyUnder(account.path, accounts[i].path) then 1 else 0
    ensures IndexedBy(accounts + [account], index[account.path := |accounts|],
      after + [|Descendants(index.Keys, account.path)|])
  {
    hide Descendants, StrictlyUnder;
    RegisteredCounts(index.Keys, account.path);
    assert index[account.path := |accounts|].Keys == index.Keys + {account.path};
    NotUnderItself(account.path);
  }

  lemma NotUnderItself(path: AccountPath)
    ensures !StrictlyUnder(path, path)
  {
  }

  class AccountRegistry {
    var accounts: seq<Account>
    var index: map<AccountPath, nat>
    var childCount: seq<nat>

    /** The index and the counts agree with the accounts. */
    ghost predicate Valid()
      reads this
    {
      IndexedBy(accounts, index, childCount)
    }

    lemma Sized()
      requires Valid()
      ensures |accounts| <= MAX_HANDLES
    {
    }

    lemma PathsDistinct()
      requires Valid()
      ensures DistinctPaths(accounts)
    {
    }

    constructor ()
      ensures Valid() && accounts == []
    {
      accounts, index, childCount := [], map[], [];
    }

    /**
     Issues the next handle. The counts of registered ancestors go up by one, and the new
     account's own count is what is already registered under it, so the order of
     registration does not matter.
     */
    method Register(account: Account) returns (r: Result<u32, AccountError>)
      requires Valid()
      modifies this
      ensures Valid() && Extends(old(accounts), accounts)
      ensures r == if account.ClosedEarly()
        then Err(ClosedBeforeOpened(account.path, account.openedOn, account.closedOn.value))
        else if exists a :: a in old(accounts) && a.path == account.path then Err(AlreadyRegistered(account.path))
        else if |old(accounts)| > U32_MAX then Err(RegistryFull)
        else Ok(|old(accounts)|)
      ensures accounts == if r.Ok? then old(accounts) + [account] else old(accounts)
    {
      if account.ClosedEarly() {
        return Err(ClosedBeforeOpened(account.path, account.openedOn, account.closedOn.value));
      }
      if account.path in index {
        assert accounts[index[account.path]] in accounts;
        return Err(AlreadyRegistered(account.path));
      }
      if |accounts| > U32_MAX {
        return Err(RegistryFull);
      }
      var id := |accounts|;
      CountAncestors(account.path);
      var existing := CountDescendants(index.Keys, account.path);
      RegisteredIndexed(accounts, index, old(childCount), childCount, account);
      accounts := accounts + [account];
      childCount := childCount + [existing];
      index := index[account.path := id];
      return Ok(id);
    }

    /** Registering a path turns each registered strict prefix of it into an inner node. */
    method CountAncestors(path: AccountPath)
      requires Valid()
      modifies this`childCount
      ensures |childCount| == |accounts|
      ensures forall i :: 0 <= i < |accounts| ==>
        childCount[i] == old(childCount)[i] + if StrictlyUnder(path, accounts[i].path) then 1 else 0
    {
      for depth := 1 to |path|
        invariant |childCount| == |accounts|
        invariant forall i :: 0 <= i < |accounts| ==>
          childCount[i] == old(childCount)[i]
            + if StrictlyUnder(path, accounts[i].path) && |accounts[i].path| < depth then 1 else 0
      {
        var ancestor: AccountPath := path[..depth];
        forall i | 0 <= i < |accounts|
          ensures StrictlyUnder(path, accounts[i].path) && |accounts[i].path| == depth <==> accounts[i].path == ancestor
        {
        }
        if ancestor in index {
          var id := index[ancestor];
          childCount := childCount[id := childCount[id] + 1];
        }
      }
    }

    method IsLeafHandle(id: u32) returns (leaf: bool)
      requires Valid()
      ensures leaf <==> id < |accounts| ==> IsLeaf(accounts, id)
    {
      if id < |accounts| {
        CountIsZeroOnLeaves(accounts, index.Keys, id);
      }
      return id >= |accounts| || childCount[id] == 0;
    }

    method Close(id: u32, on: Date) returns (r: Result<(), AccountError>)
      requires Valid()
      modifies this
      ensures Valid() && Extends(old(accounts), accounts)
      ensures r == if id >= |old(accounts)| then Err(UnknownAccount(id))
        else if on < old(accounts)[id].openedOn
          then Err(ClosedBeforeOpened(old(accounts)[id].path, old(accounts)[id].openedOn, on))
        else Ok(())
      ensures accounts == if r.Ok? then old(accounts)[id := old(accounts)[id].(closedOn := Some(on))] else old(accounts)
      ensures r.Ok? ==> forall d: Date :: accounts[id].IsOpenOn(d) <==> old(accounts)[id].openedOn <= d <= on
    {
      if id >= |accounts| {
        return Err(UnknownAccount(id));
      }
      if on < accounts[id].openedOn {
        return Err(ClosedBeforeOpened(accounts[id].path, accounts[id].openedOn, on));
      }
      accounts := accounts[id := accounts[id].(closedOn := Some(on))];
      return Ok(());
    }

    method Reopen(id: u32) returns (r: Result<(), AccountError>)
      requires Valid()
      modifies this
      ensures Valid() && Extends(old(accounts), accounts)
      ensures r == if id >= |old(accounts)| then Err(UnknownAccount(id)) else Ok(())
      ensures accounts == if r.Ok? then old(accounts)[id := old(accounts)[id].(closedOn := None)] else old(accounts)
      ensures r.Ok? ==> forall d: Date :: accounts[id].IsOpenOn(d) <==> old(accounts)[id].openedOn <= d
    {
      if id >= |accounts| {
        return Err(UnknownAccount(id));
      }
      accounts := accounts[id := accounts[id].(closedOn := None)];
      return Ok(());
    }

    method SetLimit(id: u32, limit: BalanceLimit) returns (r: Result<(), AccountError>)
      requires Valid()
      modifies this
      ensures Valid() && Extends(old(accounts), accounts)
      ensures r == if id >= |old(accounts)| then Err(UnknownAccount(id)) else Ok(())
      ensures accounts == if r.Ok? then old(accounts)[id := old(accounts)[id].(limit := limit)] else old(accounts)
    {
      if id >= |accounts| {
        return Err(UnknownAccount(id));
      }
      accounts := accounts[id := accounts[id].(limit := limit)];
      return Ok(());
    }

    /** Puts a stored binding back at the handle it was issued; a held path never moves. */
    method Restore(record: AccountRecord) returns (r: Result<(), AccountError>)
      requires Valid()
      modifies this
      ensures Valid() && Extends(old(accounts), accounts)
      ensures r.Ok? ==> record.id < |accounts| && accounts[record.id] == record.account
      ensures accounts == if r.Err? then old(accounts)
        else if record.id < |old(accounts)| then old(accounts)[record.id := record.account]
        else old(accounts) + [record.account]
      ensures r.Err? ==> RestoreRefused(old(accounts), record, r.error)
      ensures r.Ok? <==>
        && !record.account.ClosedEarly()
        && (if record.id < |old(accounts)| then old(accounts)[record.id].path == record.account.path
            else record.id == |old(accounts)| && forall a :: a in old(accounts) ==> a.path != record.account.path)
    {
      if record.id < |accounts| {
        if accounts[record.id].path != record.account.path {
          return Err(AlreadyRegistered(accounts[record.id].path));
        }
        if record.account.ClosedEarly() {
          return Err(ClosedBeforeOpened(record.account.path, record.account.openedOn, record.account.closedOn.value));
        }
        accounts := accounts[record.id := record.account];
        return Ok(());
      }
      if record.id != |accounts| {
        return Err(NotDense(|accounts|, record.id));
      }
      var issued := Register(record.account);
      return if issued.Ok? then Ok(()) else Err(issued.error);
    }

    /**
     Rebuilds a registry from stored records in any order. It succeeds exactly on coherent
     records, and then each handle holds the last record given for it; otherwise the error is
     that of the first record, in handle order, that cannot be put back.
     */
    static method FromRecords(records: seq<AccountRecord>) returns (r: Result<AccountRegistry, AccountError>)
      ensures r.Ok? <==> Coherent(records)
      ensures r.Ok? ==> fresh(r.value) && r.value.Valid() && |r.value.accounts| <= MAX_HANDLES
      ensures r.Ok? ==> Restores(r.value.accounts, records)
      ensures r.Err? ==> exists k: nat, held: Chart ::
        k < |records| && |ById(records)| == |records|
        && Restores(held, ById(records)[..k]) && RestoreRefused(held, ById(records)[k], r.error)
    {
      hide Coherent, Restores, ById, AccountRegistry.Valid, RestoreRefused;
      var sorted := ById(records);
      ByIdLength(records);
      var registry := new AccountRegistry();
      NothingRestored();
      assert sorted[..0] == [];
      for k := 0 to |sorted|
        invariant fresh(registry) && registry.Valid() && |registry.accounts| <= MAX_HANDLES
        invariant Restores(registry.accounts, sorted[..k]) && NoneEarly(sorted[..k])
      {
        ghost var held: Chart := registry.accounts;
        var restored := registry.Restore(sorted[k]);
        if restored.Err? {
          RefusedIncoherent(records, k, held, restored.error);
          return Err(restored.error);
        }
        RestoresNext(sorted, k, held, registry.accounts);
      }
      assert sorted[..|sorted|] == sorted;
      registry.PathsDistinct();
      RestoredCoherent(records, registry.accounts);
      return Ok(registry);
    }
  }

  /** Why a stored record cannot be put back among the accounts held so far. */
  ghost predicate RestoreRefused(held: seq<Account>, record: AccountRecord, error: AccountError)
  {
    var a := record.account;
    if record.id < |held| && held[record.id].path != a.path then error == AlreadyRegistered(held[record.id].path)
    else if record.id > |held| then error == NotDense(|held|, record.id)
    else if a.ClosedEarly() then error == ClosedBeforeOpened(a.path, a.openedOn, a.closedOn.value)
    else record.id == |held| && (exists b :: b in held && b.path == a.path) && error == AlreadyRegistered(a.path)
  }

  /** What a refusal to put a record back tells of the accounts held so far. */
  lemma RestoreTells(held: seq<Account>, record: AccountRecord, error: AccountError)
    requires RestoreRefused(held, record, error)
    ensures error.NotDense? <==> record.id > |held|
    ensures match error
      case NotDense(expected, found) => expected == |held| && found == record.id
      case ClosedBeforeOpened(path, openingDay, closingDay) =>
        path == record.account.path && openingDay == record.account.openedOn
        && record.account.closedOn == Some(closingDay) && closingDay < openingDay
      case AlreadyRegistered(path) =>
        if record.id < |held| then path == held[record.id].path && path != record.account.path
        else path == record.account.path && exists b :: b in held && b.path == path
      case _ => false
  {
  }

  /** The last record given for a handle. */
  function LastFor(records: seq<AccountRecord>, id: nat): Option<AccountRecord>
  {
    if records == [] then None
    else if records[|records| - 1].id == id then Some(records[|records| - 1])
    else LastFor(records[..|records| - 1], id)
  }

  /** One path per handle and one handle per path, no handle skipped, nothing closed before it opened. */
  ghost predicate Coherent(records: seq<AccountRecord>)
  {
    && (forall r, q :: r in records && q in records ==> (r.id == q.id <==> r.account.path == q.account.path))
    && (forall r, id: nat :: r in records && id < r.id ==> LastFor(records, id).Some?)
    && NoneEarly(records)
  }

  ghost predicate NoneEarly(records: seq<AccountRecord>)
  {
    forall r :: r in records ==> !r.account.ClosedEarly()
  }

  /** Each handle holds the last record given for it, and every record given for it had its path. */
  ghost predicate Restores(accounts: seq<Account>, records: seq<AccountRecord>)
  {
    && (forall id: nat :: LastFor(records, id).Some? <==> id < |accounts|)
    && (forall id: nat :: id < |accounts| && LastFor(records, id).Some? ==> LastFor(records, id).value.account == accounts[id])
    && (forall r :: r in records ==> r.id < |accounts| && accounts[r.id].path == r.account.path)
  }

  function RecordsOf(accounts: Chart): seq<AccountRecord>
  {
    seq(|accounts|, i requires 0 <= i < |accounts| => AccountRecord(i, accounts[i]))
  }

  /** Accounts as a registry holds them: no path twice, none closed before it opened. */
  ghost predicate Orderly(accounts: seq<Account>)
  {
    DistinctPaths(accounts) && forall i :: 0 <= i < |accounts| ==> !accounts[i].ClosedEarly()
  }

  ghost predicate DistinctPaths(accounts: seq<Account>)
  {
    forall i, j :: 0 <= i < j < |accounts| ==> accounts[i].path != accounts[j].path
  }

  function PlacedById(record: AccountRecord, sorted: seq<AccountRecord>): seq<AccountRecord>
  {
    if sorted == [] then [record]
    else if record.id < sorted[|sorted| - 1].id
    then PlacedById(record, sorted[..|sorted| - 1]) + [sorted[|sorted| - 1]]
    else sorted + [record]
  }

  /** Records in handle order, equal handles in the order given. */
  function ById(records: seq<AccountRecord>): seq<AccountRecord>
  {
    if records == [] then [] else PlacedById(records[|records| - 1], ById(records[..|records| - 1]))
  }

  lemma {:induction false} PlacedMembers(record: AccountRecord, sorted: seq<AccountRecord>)
    ensures forall r :: r in PlacedById(record, sorted) <==> r == record || r in sorted
  {
    if sorted != [] && record.id < sorted[|sorted| - 1].id {
      assert sorted == sorted[..|sorted| - 1] + [sorted[|sorted| - 1]];
      PlacedMembers(record, sorted[..|sorted| - 1]);
    }
  }

  lemma {:induction false} ByIdMembers(records: seq<AccountRecord>)
    ensures forall r :: r in ById(records) <==> r in records
  {
    if records != [] {
      assert records == records[..|records| - 1] + [records[|records| - 1]];
      ByIdMembers(records[..|records| - 1]);
      PlacedMembers(records[|records| - 1], ById(records[..|records| - 1]));
    }
  }

  lemma {:induction false} PlacedLength(record: AccountRecord, sorted: seq<AccountRecord>)
    ensures |PlacedById(record, sorted)| == |sorted| + 1
  {
    if sorted != [] && record.id < sorted[|sorted| - 1].id {
      PlacedLength(record, sorted[..|sorted| - 1]);
    }
  }

  lemma {:induction false} ByIdLength(records: seq<AccountRecord>)
    ensures |ById(records)| == |records|
  {
    if records != [] {
      ByIdLength(records[..|records| - 1]);
      PlacedLength(records[|records| - 1], ById(records[..|records| - 1]));
    }
  }

  ghost predicate AscendingIds(records: seq<AccountRecord>)
  {
    forall i, j :: 0 <= i < j < |records| ==> records[i].id <= records[j].id
  }

  lemma {:induction false} PlacedAscending(record: AccountRecord, sorted: seq<AccountRecord>)
    requires AscendingIds(sorted)
    ensures AscendingIds(PlacedById(record, sorted))
  {
    if sorted != [] && record.id < sorted[|sorted| - 1].id {
      var front, last := sorted[..|sorted| - 1], sorted[|sorted| - 1];
      PlacedMembers(record, front);
      PlacedAscending(record, front);
      var placed := PlacedById(record, front);
      forall i | 0 <= i < |placed|
        ensures placed[i].id <= last.id
      {
        assert placed[i] in placed;
      }
    }
  }

  lemma {:induction false} ByIdAscending(records: seq<AccountRecord>)
    ensures AscendingIds(ById(records))
  {
    if records != [] {
      ByIdAscending(records[..|records| - 1]);
      PlacedAscending(records[|records| - 1], ById(records[..|records| - 1]));
    }
  }

  lemma {:induction false} LastFacts(records: seq<AccountRecord>, id: nat)
    ensures match LastFor(records, id)
      case Some(r) => r in records && r.id == id
      case None => forall r :: r in records ==> r.id != id
  {
    if records != [] {
      assert records == records[..|records| - 1] + [records[|records| - 1]];
      LastFacts(records[..|records| - 1], id);
    }
  }

  lemma {:induction false} PlacedLast(record: AccountRecord, sorted: seq<AccountRecord>, id: nat)
    ensures LastFor(PlacedById(record, sorted), id) == if record.id == id then Some(record) else LastFor(sorted, id)
  {
    if sorted != [] {
      var front, last := sorted[..|sorted| - 1], sorted[|sorted| - 1];
      if record.id < last.id {
        PlacedLast(record, front, id);
        assert (PlacedById(record, front) + [last])[..|PlacedById(record, front)|] == PlacedById(record, front);
      } else {
        assert (sorted + [record])[..|sorted|] == sorted;
      }
    }
  }

  /** Sorting by handle keeps, for each handle, which record was given last. */
  lemma {:induction false} ByIdLast(records: seq<AccountRecord>, id: nat)
    ensures LastFor(ById(records), id) == LastFor(records, id)
  {
    if records != [] {
      ByIdLast(records[..|records| - 1], id);
      PlacedLast(records[|records| - 1], ById(records[..|records| - 1]), id);
    }
  }

  lemma NothingRestored()
    ensures Restores([], [])
  {
  }

  lemma LastNext(records: seq<AccountRecord>, k: nat, id: nat)
    requires k < |records|
    ensures LastFor(records[..k + 1], id) == if records[k].id == id then Some(records[k]) else LastFor(records[..k], id)
  {
    assert records[..k + 1][..k] == records[..k];
  }

  /** Putting one more record back in handle order. */
  lemma RestoresNext(sorted: seq<AccountRecord>, k: nat, held: seq<Account>, after: seq<Account>)
    requires k < |sorted| && Restores(held, sorted[..k]) && NoneEarly(sorted[..k])
    requires var record := sorted[k];
      && !record.account.ClosedEarly() && record.id <= |held|
      && (record.id < |held| ==> held[record.id].path == record.account.path)
      && after == if record.id < |held| then held[record.id := record.account] else held + [record.account]
    ensures Restores(after, sorted[..k + 1]) && NoneEarly(sorted[..k + 1])
  {
    hide LastFor;
    var now := sorted[..k + 1];
    assert now == sorted[..k] + [sorted[k]];
    forall r | r in now
      ensures r.id < |after| && after[r.id].path == r.account.path
    {
      assert r in sorted[..k] || r == sorted[k];
    }
    forall id: nat
      ensures LastFor(now, id).Some? <==> id < |after|
      ensures id < |after| ==> LastFor(now, id).value.account == after[id]
    {
      LastNext(sorted, k, id);
      assert LastFor(sorted[..k], id).Some? <==> id < |held|;
    }
  }

  /** What was put back in handle order is what the records say in any order. */
  lemma RestoresById(records: seq<AccountRecord>, accounts: seq<Account>)
    requires Restores(accounts, ById(records))
    ensures Restores(accounts, records)
  {
    hide ById, LastFor;
    ByIdMembers(records);
    forall id: nat
      ensures LastFor(records, id) == LastFor(ById(records), id)
    {
      ByIdLast(records, id);
    }
  }

  lemma RestoredCoherent(records: seq<AccountRecord>, accounts: seq<Account>)
    requires Restores(accounts, ById(records)) && NoneEarly(ById(records)) && DistinctPaths(accounts)
    ensures Coherent(records) && Restores(accounts, records)
  {
    hide ById, LastFor;
    RestoresById(records, accounts);
    ByIdMembers(records);
    forall r, q | r in records && q in records
      ensures r.id == q.id <==> r.account.path == q.account.path
    {
      assert accounts[r.id].path == r.account.path && accounts[q.id].path == q.account.path;
    }
  }

  /** Records of which one cannot be put back are not coherent. */
  lemma RefusedIncoherent(records: seq<AccountRecord>, k: nat, held: seq<Account>, error: AccountError)
    requires k < |ById(records)| && Restores(held, ById(records)[..k])
    requires RestoreRefused(held, ById(records)[k], error)
    ensures !Coherent(records)
  {
    hide ById, LastFor;
    var sorted := ById(records);
    var record := sorted[k];
    ByIdMembers(records);
    assert record in sorted;
    var n := |held|;
    if record.id < n && held[record.id].path != record.account.path {
      LastFacts(sorted[..k], record.id);
      var other := LastFor(sorted[..k], record.id).value;
      assert other in records && other.account == held[record.id];
    } else if record.id > n {
      SkippedHandle(records, k, n);
    } else if !record.account.ClosedEarly() {
      var i :| 0 <= i < n && held[i].path == record.account.path;
      LastFacts(sorted[..k], i);
      var other := LastFor(sorted[..k], i).value;
      assert other in records && other.account == held[i];
    }
  }

  /** A handle not seen before a greater one in handle order is not there at all. */
  lemma SkippedHandle(records: seq<AccountRecord>, k: nat, id: nat)
    requires k < |ById(records)| && LastFor(ById(records)[..k], id).None? && id < ById(records)[k].id
    ensures LastFor(records, id).None?
  {
    var sorted := ById(records);
    ByIdAscending(records);
    ByIdLast(records, id);
    LastFacts(sorted, id);
    LastFacts(sorted[..k], id);
    forall j | 0 <= j < |sorted|
      ensures sorted[j].id != id
    {
      if j < k {
        assert sorted[j] in sorted[..k];
      }
    }
  }

  /** A registry's own records, in any order and any number of times, restore exactly its accounts. */
  lemma RecordsRestore(original: Chart, records: seq<AccountRecord>, accounts: seq<Account>)
    requires Orderly(original) && forall r :: r in records <==> r in RecordsOf(original)
    ensures Coherent(records)
    ensures Restores(accounts, records) <==> accounts == original
  {
    hide LastFor;
    forall id: nat
      ensures LastFor(records, id) == if id < |original| then Some(AccountRecord(id, original[id])) else None
    {
      LastFacts(records, id);
      if id < |original| {
        assert RecordsOf(original)[id] in records;
      }
    }
    if Restores(accounts, records) {
      assert LastFor(records, |accounts|).None? && LastFor(records, |original|).None?;
      forall id: nat | id < |accounts|
        ensures id < |original| && accounts[id] == original[id]
      {
        assert LastFor(records, id).Some?;
      }
    }
  }

  /** A handle given twice is no error: the last record given for it stands. */
  lemma RepeatedHandle(a: Account, b: Account)
    requires a.path == b.path && !a.ClosedEarly() && !b.ClosedEarly()
    ensures var records := [AccountRecord(0, a), AccountRecord(0, b)];
      Coherent(records) && Restores([b], records)
  {
    var records := [AccountRecord(0, a), AccountRecord(0, b)];
    assert records[..1] == [records[0]];
    forall id: nat
      ensures LastFor(records, id) == if id == 0 then Some(records[1]) else None
    {
      assert LastFor([records[0]], id) == if id == 0 then Some(records[0]) else None;
    }
  }

  lemma RegisteredCounts(keys: set<AccountPath>, path: AccountPath)
    requires path !in keys
    ensures forall p: AccountPath ::
      |Descendants(keys + {path}, p)| == |Descendants(keys, p)| + if StrictlyUnder(path, p) then 1 else 0
  {
    forall p: AccountPath
      ensures |Descendants(keys + {path}, p)| == |Descendants(keys, p)| + if StrictlyUnder(path, p) then 1 else 0
    {
      DescendantsGrow(keys, path, p);
    }
  }

  /** A count of zero means no registered path lies strictly below. */
  lemma CountIsZeroOnLeaves(accounts: seq<Account>, keys: set<AccountPath>, id: nat)
    requires id < |accounts| && keys == Paths(accounts)
    ensures |Descendants(keys, accounts[id].path)| == 0 <==> IsLeaf(accounts, id)
  {
    var below := Descendants(keys, accounts[id].path);
    if IsLeaf(accounts, id) {
      assert below == {};
    } else {
      var a :| a in accounts && StrictlyUnder(a.path, accounts[id].path);
      assert a.path in below;
    }
  }
}

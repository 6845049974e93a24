/**
 The canonical binary encoding and its unique decodability.

 `PutX(v, rest)` is the encoding of `v` followed by `rest`. Stating every encoding with
 its continuation makes unique decodability compositional: if two such sequences are
 equal, then so are the values and so are the continuations.
 */
module Canonical {
  import opened Wrappers
  import opened Hashing
  import opened Powers

  /** Two encodings with continuations agree only on equal values and continuations. */
  ghost predicate Decodable<T(!new)>(put: (T, seq<Atom>) -> seq<Atom>)
  {
    forall a, b, x, y :: put(a, x) == put(b, y) ==> a == b && x == y
  }

  /** The low `w` bytes of `n`, little-endian. */
  function PutLe(n: nat, w: nat, rest: seq<Atom>): seq<Atom>
  {
    if w == 0 then rest else [Byte(n % 256)] + PutLe(n / 256, w - 1, rest)
  }

  function PutU8(n: byte, rest: seq<Atom>): seq<Atom> { [Byte(n)] + rest }

  function PutU32(n: u32, rest: seq<Atom>): seq<Atom> { PutLe(n, 4, rest) }

  function PutU64(n: u64, rest: seq<Atom>): seq<Atom> { PutLe(n, 8, rest) }

  /** Two's complement. */
  function PutI32(n: int, rest: seq<Atom>): seq<Atom> { PutLe(n % Pow(256, 4), 4, rest) }

  function PutI64(n: int, rest: seq<Atom>): seq<Atom> { PutLe(n % Pow(256, 8), 8, rest) }

  function PutDigest(h: Hash, rest: seq<Atom>): seq<Atom> { [Digest(h)] + rest }

  /** Bytes of a width fixed by the schema, without a prefix. */
  function PutFixed(s: seq<byte>, rest: seq<Atom>): seq<Atom>
  {
    if s == [] then rest else [Byte(s[0])] + PutFixed(s[1..], rest)
  }

  /** A byte string whose length a machine word holds, as every slice has. */
  type Text = s: seq<byte> | |s| <= U64_MAX

  /** Length-prefixed bytes. */
  function PutBytes(s: Text, rest: seq<Atom>): seq<Atom>
  {
    PutU64(|s|, PutFixed(s, rest))
  }

  function PutOption<T>(v: Option<T>, put: (T, seq<Atom>) -> seq<Atom>, rest: seq<Atom>): seq<Atom>
  {
    match v
    case None => PutU8(0, rest)
    case Some(inner) => PutU8(1, put(inner, rest))
  }

  function PutAll<T>(items: seq<T>, put: (T, seq<Atom>) -> seq<Atom>, rest: seq<Atom>): seq<Atom>
  {
    if items == [] then rest else put(items[0], PutAll(items[1..], put, rest))
  }

  /** A counted sequence. */
  function PutSeq<T>(items: seq<T>, put: (T, seq<Atom>) -> seq<Atom>, rest: seq<Atom>): seq<Atom>
    requires |items| <= U64_MAX
  {
    PutU64(|items|, PutAll(items, put, rest))
  }

  /** Byte `i` of a number is its digit of weight 256 to the `i`, the lowest first. */
  lemma {:induction false} LeAt(n: nat, w: nat, rest: seq<Atom>, i: nat)
    requires i < w
    ensures |PutLe(n, w, rest)| == w + |rest| && PutLe(n, w, rest)[w..] == rest
    ensures PutLe(n, w, rest)[i] == Byte(n / Pow(256, i) % 256)
  {
    LeLength(n, w, rest);
    if i == 0 {
      assert n / Pow(256, 0) == n;
    } else {
      LeAt(n / 256, w - 1, rest, i - 1);
      assert PutLe(n, w, rest)[i] == PutLe(n / 256, w - 1, rest)[i - 1];
      Shifted(n, Pow(256, i - 1));
    }
  }

  lemma {:induction false} LeLength(n: nat, w: nat, rest: seq<Atom>)
    ensures |PutLe(n, w, rest)| == w + |rest| && PutLe(n, w, rest)[w..] == rest
  {
    if w > 0 {
      LeLength(n / 256, w - 1, rest);
      assert PutLe(n, w, rest)[w..] == PutLe(n / 256, w - 1, rest)[w - 1..];
    }
  }

  lemma Shifted(n: nat, p: nat)
    requires p > 0
    ensures n / 256 / p == n / (256 * p)
  {
    var q, r := n / 256, n % 256;
    var a, s := q / p, q % p;
    assert n == 256 * q + r && q == a * p + s;
    assert n == a * (256 * p) + (256 * s + r) by {
      Regrouped(a, p, s, r);
    }
    QuotientIs(n, a, 256 * p, 256 * s + r);
  }

  lemma Regrouped(a: nat, p: nat, s: nat, r: nat)
    ensures 256 * (a * p + s) + r == a * (256 * p) + (256 * s + r)
  {
  }

  lemma QuotientIs(n: nat, a: nat, d: nat, r: nat)
    requires d > 0 && n == a * d + r && r < d
    ensures n / d == a
  {
    var q := n / d;
    if q < a {
      NextUp(q, a, d);
    } else if a < q {
      NextUp(a, q, d);
    }
  }

  lemma NextUp(a: nat, b: nat, d: nat)
    requires a < b
    ensures a * d + d <= b * d
  {
    assert b * d == (a + 1) * d + (b - a - 1) * d;
  }

  /** A negative number is written as the same word two's complement has. */
  lemma I64Is(n: i64, rest: seq<Atom>)
    ensures PutI64(n, rest) == PutU64(if n < 0 then n + 0x1_0000_0000_0000_0000 else n, rest)
  {
    Widths();
  }

  /** Fixed bytes are written as they are. */
  lemma {:induction false} FixedIs(s: seq<byte>, rest: seq<Atom>)
    ensures PutFixed(s, rest) == seq(|s|, i requires 0 <= i < |s| => Byte(s[i])) + rest
  {
    if s != [] {
      FixedIs(s[1..], rest);
    }
  }

  lemma ConsUnique(a: Atom, b: Atom, x: seq<Atom>, y: seq<Atom>)
    requires [a] + x == [b] + y
    ensures a == b && x == y
  {
    assert ([a] + x)[0] == a && ([b] + y)[0] == b;
    assert ([a] + x)[1..] == x && ([b] + y)[1..] == y;
  }

  lemma {:induction false} LeUnique(m: nat, n: nat, w: nat, x: seq<Atom>, y: seq<Atom>)
    requires PutLe(m, w, x) == PutLe(n, w, y) && m < Pow(256, w) && n < Pow(256, w)
    ensures m == n && x == y
  {
    if w > 0 {
      ConsUnique(Byte(m % 256), Byte(n % 256), PutLe(m / 256, w - 1, x), PutLe(n / 256, w - 1, y));
      LeUnique(m / 256, n / 256, w - 1, x, y);
    }
  }

  lemma Widths()
    ensures Pow(256, 4) == U32_MAX + 1
    ensures Pow(256, 8) == U64_MAX + 1
  {
    assert Pow(256, 2) == 0x1_0000;
    PowSum(256, 2, 2);
    PowSum(256, 4, 4);
  }

  lemma U32Unique(a: u32, b: u32, x: seq<Atom>, y: seq<Atom>)
    requires PutU32(a, x) == PutU32(b, y)
    ensures a == b && x == y
  {
    Widths();
    LeUnique(a, b, 4, x, y);
  }

  lemma U64Unique(a: u64, b: u64, x: seq<Atom>, y: seq<Atom>)
    requires PutU64(a, x) == PutU64(b, y)
    ensures a == b && x == y
  {
    Widths();
    LeUnique(a, b, 8, x, y);
  }

  lemma I32Unique(a: int, b: int, x: seq<Atom>, y: seq<Atom>)
    requires PutI32(a, x) == PutI32(b, y)
    requires -0x8000_0000 <= a < 0x8000_0000 && -0x8000_0000 <= b < 0x8000_0000
    ensures a == b && x == y
  {
    Widths();
    LeUnique(a % Pow(256, 4), b % Pow(256, 4), 4, x, y);
  }

  lemma I64Unique(a: i64, b: i64, x: seq<Atom>, y: seq<Atom>)
    requires PutI64(a, x) == PutI64(b, y)
    ensures a == b && x == y
  {
    Widths();
    LeUnique(a % Pow(256, 8), b % Pow(256, 8), 8, x, y);
  }

  lemma {:induction false} FixedUnique(a: seq<byte>, b: seq<byte>, x: seq<Atom>, y: seq<Atom>)
    requires PutFixed(a, x) == PutFixed(b, y) && |a| == |b|
    ensures a == b && x == y
  {
    if a != [] {
      ConsUnique(Byte(a[0]), Byte(b[0]), PutFixed(a[1..], x), PutFixed(b[1..], y));
      FixedUnique(a[1..], b[1..], x, y);
      assert a == [a[0]] + a[1..] && b == [b[0]] + b[1..];
    }
  }

  /** A length prefix keeps neighbouring fields apart. */
  lemma BytesUnique(a: Text, b: Text, x: seq<Atom>, y: seq<Atom>)
    requires PutBytes(a, x) == PutBytes(b, y)
    ensures a == b && x == y
  {
    U64Unique(|a|, |b|, PutFixed(a, x), PutFixed(b, y));
    FixedUnique(a, b, x, y);
  }

  lemma OptionUnique<T(!new)>(a: Option<T>, b: Option<T>, put: (T, seq<Atom>) -> seq<Atom>, x: seq<Atom>, y: seq<Atom>)
    requires PutOption(a, put, x) == PutOption(b, put, y) && Decodable(put)
    ensures a == b && x == y
  {
    var restA := if a.Some? then put(a.value, x) else x;
    var restB := if b.Some? then put(b.value, y) else y;
    ConsUnique(Byte(if a.Some? then 1 else 0), Byte(if b.Some? then 1 else 0), restA, restB);
  }

  lemma {:induction false} AllUnique<T(!new)>(a: seq<T>, b: seq<T>, put: (T, seq<Atom>) -> seq<Atom>, x: seq<Atom>, y: seq<Atom>)
    requires PutAll(a, put, x) == PutAll(b, put, y) && Decodable(put) && |a| == |b|
    ensures a == b && x == y
  {
    if a != [] {
      AllUnique(a[1..], b[1..], put, x, y);
      assert a == [a[0]] + a[1..] && b == [b[0]] + b[1..];
    }
  }

  /** A counted sequence of uniquely decodable items is uniquely decodable. */
  lemma SeqUnique<T(!new)>(a: seq<T>, b: seq<T>, put: (T, seq<Atom>) -> seq<Atom>, x: seq<Atom>, y: seq<Atom>)
    requires |a| <= U64_MAX && |b| <= U64_MAX && PutSeq(a, put, x) == PutSeq(b, put, y) && Decodable(put)
    ensures a == b && x == y
  {
    U64Unique(|a|, |b|, PutAll(a, put, x), PutAll(b, put, y));
    AllUnique(a, b, put, x, y);
  }

  lemma BytesDecodable()
    ensures Decodable(PutBytes)
  {
    forall a: Text, b: Text, x, y | PutBytes(a, x) == PutBytes(b, y)
      ensures a == b && x == y
    {
      BytesUnique(a, b, x, y);
    }
  }

  lemma U64Decodable()
    ensures Decodable(PutU64)
  {
    forall a: u64, b: u64, x, y | PutU64(a, x) == PutU64(b, y)
      ensures a == b && x == y
    {
      U64Unique(a, b, x, y);
    }
  }

  lemma DigestDecodable()
    ensures Decodable(PutDigest)
  {
    forall a, b, x, y | PutDigest(a, x) == PutDigest(b, y)
      ensures a == b && x == y
    {
      ConsUnique(Digest(a), Digest(b), x, y);
    }
  }

  lemma {:induction false} LeAppends(n: nat, w: nat, rest: seq<Atom>)
    ensures PutLe(n, w, []) + rest == PutLe(n, w, rest)
  {
    if w > 0 {
      LeAppends(n / 256, w - 1, rest);
    }
  }

  lemma {:induction false} FixedAppends(s: seq<byte>, rest: seq<Atom>)
    ensures PutFixed(s, []) + rest == PutFixed(s, rest)
  {
    if s != [] {
      FixedAppends(s[1..], rest);
    }
  }

  /**
   The writer. Each method appends one encoding to the buffer; its contract says so for
   whatever is written next, which is what lets calls be chained.
   */
  class CanonicalWriter {
    var buf: seq<Atom>

    constructor ()
      ensures buf == []
    {
      buf := [];
    }

    method U8(v: byte)
      modifies this
      ensures forall k :: buf + k == old(buf) + PutU8(v, k)
    {
      buf := buf + [Byte(v)];
    }

    method Le(v: nat, w: nat)
      modifies this
      ensures forall k :: buf + k == old(buf) + PutLe(v, w, k)
    {
      buf := buf + PutLe(v, w, []);
      forall k
        ensures buf + k == old(buf) + PutLe(v, w, k)
      {
        LeAppends(v, w, k);
        assert old(buf) + PutLe(v, w, []) + k == old(buf) + (PutLe(v, w, []) + k);
      }
    }

    method Fixed(v: seq<byte>)
      modifies this
      ensures forall k :: buf + k == old(buf) + PutFixed(v, k)
    {
      buf := buf + PutFixed(v, []);
      forall k
        ensures buf + k == old(buf) + PutFixed(v, k)
      {
        FixedAppends(v, k);
        assert old(buf) + PutFixed(v, []) + k == old(buf) + (PutFixed(v, []) + k);
      }
    }

    method U32(v: u32)
      modifies this
      ensures forall k :: buf + k == old(buf) + PutU32(v, k)
    {
      Le(v, 4);
    }

    method U64(v: u64)
      modifies this
      ensures forall k :: buf + k == old(buf) + PutU64(v, k)
    {
      Le(v, 8);
    }

    method I32(v: int)
      modifies this
      ensures forall k :: buf + k == old(buf) + PutI32(v, k)
    {
      Le(v % Pow(256, 4), 4);
    }

    method I64(v: int)
      modifies this
      ensures forall k :: buf + k == old(buf) + PutI64(v, k)
    {
      Le(v % Pow(256, 8), 8);
    }

    method Digest(h: Hash)
      modifies this
      ensures forall k :: buf + k == old(buf) + PutDigest(h, k)
    {
      buf := buf + [Atom.Digest(h)];
    }

    method Bytes(v: Text)
      modifies this
      ensures forall k :: buf + k == old(buf) + PutBytes(v, k)
    {
      U64(|v|);
      Fixed(v);
    }
  }
}

/**
 The cold tier: archiving a sealed prefix of the log, each compaction picking up where the
 last left off.

 The archive records how far it reaches and the accumulator over everything behind that. A
 compaction is accepted when pushing what is new reaches the root the seal recorded. Since a
 tree hash fixes its leaves, their order and their number, that one comparison means the
 archived records' hashes are exactly those of the sealed prefix. The hashes are the ones the
 store hands over; where each is the hash of its entry, the entries are the log's own.
 */
module Archives {
  import opened Wrappers
  import opened Hashing
  import opened Entries
  import opened MerkleTree
  import opened MerkleProofs
  import opened MerkleLogs
  import opened Periods
  import opened Powers
  import opened Books
  import opened Seals
  import opened Ledgers
  import opened LedgerRuns
  import opened Paging
  import opened Literals

  datatype ColdTierError =
    | SealBehindArchive(period: PeriodId, sealSize: u64, archived: u64)
    | RootMismatch(period: PeriodId, expected: Hash, actual: Hash)
    | MalformedState

  /** A record as a store hands it over: an entry, and the content hash kept with it. */
  datatype StoredEntry = StoredEntry(entry: Entry, contentHash: Hash)

  function HashesOf(records: seq<StoredEntry>): (hashes: seq<Hash>)
    ensures |hashes| == |records|
  {
    seq(|records|, i requires 0 <= i < |records| => records[i].contentHash)
  }

  /** Every record carries the hash of its own entry. */
  ghost predicate Faithful(scale: byte, records: seq<StoredEntry>)
  {
    forall r :: r in records ==> r.contentHash == ContentHash(scale, r.entry)
  }

  // ------------------------------------------------- rendering an accumulator

  /** A rendered accumulator: characters, and hashes in hexadecimal as single symbols. */
  datatype Symbol = Char(c: char) | Hex(hash: Hash)

  function Chars(s: string): seq<Symbol>
  {
    seq(|s|, i requires 0 <= i < |s| => Char(s[i]))
  }

  function RenderPart(part: (nat, Hash)): seq<Symbol>
  {
    Chars(Numeral(part.0)) + [Char(':'), Hex(part.1)]
  }

  /** Height and node pairs, comma separated. */
  function Render(parts: seq<(nat, Hash)>): seq<Symbol>
  {
    if parts == [] then []
    else if |parts| == 1 then RenderPart(parts[0])
    else RenderPart(parts[0]) + [Char(',')] + Render(parts[1..])
  }

  /** Where a character first stands, or the end. */
  function Find(text: seq<Symbol>, c: char): (n: nat)
    ensures n <= |text| && (n < |text| ==> text[n] == Char(c))
    ensures forall i :: 0 <= i < n ==> text[i] != Char(c)
  {
    if text == [] || text[0] == Char(c) then 0 else 1 + Find(text[1..], c)
  }

  function AsString(text: seq<Symbol>): string
  {
    seq(|text|, i requires 0 <= i < |text| => if text[i].Char? then text[i].c else 'x')
  }

  /** A height: digits, with the plus sign number parsing allows, of one byte. */
  function ParseHeight(text: seq<Symbol>): Option<nat>
  {
    var all := AsString(text);
    var digits := if all != [] && all[0] == '+' then all[1..] else all;
    if digits != [] && AllDigits(digits) && ValueOf(digits) <= U8_MAX then Some(ValueOf(digits)) else None
  }

  /** A height reads the same with and without a plus sign, and is what its digits say if that fits a byte. */
  lemma HeightIs(text: seq<Symbol>, digits: string)
    requires digits != "" && AllDigits(digits)
    requires AsString(text) == digits || AsString(text) == "+" + digits
    ensures ParseHeight(text) == if ValueOf(digits) <= 255 then Some(ValueOf(digits)) else None
  {
    hide ValueOf;
    assert IsDigit(digits[0]);
    assert AsString(text) == "+" + digits ==> AsString(text)[1..] == digits;
  }

  function ParsePart(piece: seq<Symbol>): Option<(nat, Hash)>
  {
    var colon := Find(piece, ':');
    if colon == |piece| then None
    else
      var height := ParseHeight(piece[..colon]);
      var node := piece[colon + 1..];
      if height.Some? && |node| == 1 && node[0].Hex? then Some((height.value, node[0].hash)) else None
  }

  /** The pieces between commas, each parsed. */
  function ParseParts(text: seq<Symbol>): Option<seq<(nat, Hash)>>
    decreases |text|
  {
    var comma := Find(text, ',');
    match ParsePart(text[..comma])
    case None => None
    case Some(part) =>
      if comma == |text| then Some([part])
      else match ParseParts(text[comma + 1..]) case None => None case Some(rest) => Some([part] + rest)
  }

  /** Parses pieces into a vector one after another. */
  method ParseAll(text: seq<Symbol>) returns (r: Option<seq<(nat, Hash)>>)
    ensures r == ParseParts(text)
  {
    hide ParsePart;
    var parts: seq<(nat, Hash)> := [];
    var rest := text;
    assert forall more: seq<(nat, Hash)> :: [] + more == more;
    while true
      invariant ParseParts(text) == match ParseParts(rest) case None => None case Some(more) => Some(parts + more)
      decreases |rest|
    {
      var comma := Find(rest, ',');
      var part := ParsePart(rest[..comma]);
      if part.None? {
        return None;
      }
      if comma == |rest| {
        return Some(parts + [part.value]);
      }
      ghost var before := parts;
      parts := parts + [part.value];
      rest := rest[comma + 1..];
      assert forall more :: before + ([part.value] + more) == parts + more;
    }
  }

  lemma {:induction false} FindSkips(prefix: seq<Symbol>, text: seq<Symbol>, c: char)
    requires forall i :: 0 <= i < |prefix| ==> prefix[i] != Char(c)
    ensures Find(prefix + text, c) == |prefix| + Find(text, c)
  {
    if prefix == [] {
      assert prefix + text == text;
    } else {
      assert (prefix + text)[0] == prefix[0];
      assert (prefix + text)[1..] == prefix[1..] + text;
      FindSkips(prefix[1..], text, c);
    }
  }

  lemma NumeralPlain(n: nat)
    ensures forall i :: 0 <= i < |Chars(Numeral(n))| ==>
      Chars(Numeral(n))[i] != Char(':') && Chars(Numeral(n))[i] != Char(',')
  {
    NumeralRoundTrip(n);
    forall i | 0 <= i < |Numeral(n)|
      ensures Numeral(n)[i] != ':' && Numeral(n)[i] != ','
    {
      assert IsDigit(Numeral(n)[i]);
    }
  }

  lemma PartRoundTrip(part: (nat, Hash))
    requires part.0 <= U8_MAX
    ensures ParsePart(RenderPart(part)) == Some(part)
    ensures forall i :: 0 <= i < |RenderPart(part)| ==> RenderPart(part)[i] != Char(',')
  {
    hide Numeral, ValueOf, Find;
    var height, tail := Chars(Numeral(part.0)), [Char(':'), Hex(part.1)];
    NumeralPlain(part.0);
    NumeralRoundTrip(part.0);
    FindHere(part.1);
    FindSkips(height, tail, ':');
    assert RenderPart(part) == height + tail;
    assert (height + tail)[..|height|] == height;
    assert (height + tail)[|height| + 1..] == [Hex(part.1)];
    assert AsString(height) == Numeral(part.0);
    assert IsDigit(Numeral(part.0)[0]);
  }

  lemma FindHere(node: Hash)
    ensures Find([Char(':'), Hex(node)], ':') == 0
  {
  }

  lemma FindNone(text: seq<Symbol>, c: char)
    requires forall i :: 0 <= i < |text| ==> text[i] != Char(c)
    ensures Find(text, c) == |text|
  {
  }

  lemma LastPiece(first: seq<Symbol>, part: (nat, Hash))
    requires ParsePart(first) == Some(part) && forall i :: 0 <= i < |first| ==> first[i] != Char(',')
    ensures ParseParts(first) == Some([part])
  {
    hide ParsePart, Find;
    FindNone(first, ',');
    assert first[..|first|] == first;
  }

  lemma MorePieces(first: seq<Symbol>, part: (nat, Hash), rest: seq<Symbol>, parts: seq<(nat, Hash)>)
    requires ParsePart(first) == Some(part) && forall i :: 0 <= i < |first| ==> first[i] != Char(',')
    requires ParseParts(rest) == Some(parts)
    ensures ParseParts(first + [Char(',')] + rest) == Some([part] + parts)
  {
    hide ParsePart, Find;
    var text := first + ([Char(',')] + rest);
    assert first + [Char(',')] + rest == text;
    FindSkips(first, [Char(',')] + rest, ',');
    CommaFirst(rest);
    assert text[..|first|] == first && text[|first| + 1..] == rest;
  }

  /** What was rendered parses back to the same parts. */
  lemma {:induction false} RenderRoundTrip(parts: seq<(nat, Hash)>)
    requires parts != [] && forall i :: 0 <= i < |parts| ==> parts[i].0 <= U8_MAX
    ensures ParseParts(Render(parts)) == Some(parts) && Render(parts) != []
  {
    hide RenderPart, ParsePart, ParseParts;
    var first := RenderPart(parts[0]);
    PartRoundTrip(parts[0]);
    RenderedSize(parts[0]);
    if |parts| == 1 {
      LastPiece(first, parts[0]);
      assert parts == [parts[0]];
    } else {
      RenderRoundTrip(parts[1..]);
      MorePieces(first, parts[0], Render(parts[1..]), parts[1..]);
      assert parts == [parts[0]] + parts[1..];
    }
  }

  lemma RenderedSize(part: (nat, Hash))
    ensures |RenderPart(part)| > 0
  {
  }

  lemma CommaFirst(text: seq<Symbol>)
    ensures Find([Char(',')] + text, ',') == 0
  {
  }

  lemma {:induction false} CoverHeights(size: nat, level: nat, bound: nat)
    requires size < Pow(2, bound)
    ensures forall i :: 0 <= i < |Cover(size, level)| ==> Cover(size, level)[i] < level + bound
    decreases size
  {
    if size > 0 {
      CoverHeights(size / 2, level + 1, bound - 1);
    }
  }

  /** The accumulator of any log has heights a byte holds. */
  lemma GenuineHeights(payloads: seq<Hash>)
    requires |payloads| <= U64_MAX
    ensures forall i :: 0 <= i < |StackOf(payloads)| ==> StackOf(payloads)[i].0 <= U8_MAX
  {
    hide StackOf;
    GenuinePartsAreWellFormed(payloads);
    PowOfWord();
    CoverHeights(|payloads|, 0, 64);
    forall i | 0 <= i < |StackOf(payloads)|
      ensures StackOf(payloads)[i].0 <= U8_MAX
    {
      assert Heights(StackOf(payloads))[i] == Cover(|payloads|, 0)[i];
    }
  }

  /** The parts a snapshot's text names: none for the empty text. */
  ghost function PartsIn(raw: seq<Symbol>): Option<seq<(nat, Hash)>>
  {
    if raw == [] then Some([]) else ParseParts(raw)
  }

  /**
   Restores an accumulator from what a snapshot recorded: exactly when the text parses to parts
   whose heights are the set bits of the size. What a log's accumulator rendered to does.
   */
  method DecodeAccumulator(raw: seq<Symbol>, size: u64) returns (r: Result<MerkleAccumulator, ColdTierError>)
    ensures r.Ok? <==> PartsIn(raw).Some? && Heights(PartsIn(raw).value) == Cover(size, 0)
    ensures r.Ok? ==> fresh(r.value) && PartsIn(raw) == Some(r.value.subtrees) && r.value.size == size
    ensures r.Err? ==> r.error == MalformedState
    ensures forall payloads :: |payloads| == size && raw == Render(StackOf(payloads)) ==>
      r.Ok? && r.value.Covers(payloads)
  {
    hide Render, StackOf, Cover, ParseParts;
    var parts: seq<(nat, Hash)> := [];
    if raw != [] {
      var parsed := ParseAll(raw);
      forall payloads | |payloads| == size && raw == Render(StackOf(payloads))
        ensures parsed == Some(StackOf(payloads))
      {
        RenderedStack(payloads);
      }
      if parsed.None? {
        return Err(MalformedState);
      }
      parts := parsed.value;
    }
    var restored := MerkleAccumulator.TryFromParts(parts, size);
    forall payloads | |payloads| == size && raw == Render(StackOf(payloads))
      ensures restored.Ok? && parts == StackOf(payloads)
    {
      RenderedStack(payloads);
      GenuinePartsAreWellFormed(payloads);
    }
    return match restored case Ok(accumulator) => Ok(accumulator) case Err(_) => Err(MalformedState);
  }

  lemma RenderedStack(payloads: seq<Hash>)
    requires |payloads| <= U64_MAX
    ensures Render(StackOf(payloads)) == [] <==> StackOf(payloads) == []
    ensures StackOf(payloads) != [] ==> ParseParts(Render(StackOf(payloads))) == Some(StackOf(payloads))
  {
    hide StackOf, ParseParts;
    if StackOf(payloads) != [] {
      GenuineHeights(payloads);
      RenderRoundTrip(StackOf(payloads));
    }
  }

  // --------------------------------------------------------------- compaction

  /** Where one end of a range of log positions falls. */
  function Capped(n: nat, len: nat): (m: nat)
    ensures m <= len
  {
    if n < len then n else len
  }

  /** Reads log positions from `from` up to `to`, page by page. */
  method Collect(stored: seq<StoredEntry>, from: nat, to: nat) returns (out: seq<StoredEntry>)
    requires |stored| <= U64_MAX
    ensures out == if from >= to then [] else stored[Capped(from, |stored|)..Capped(to, |stored|)]
  {
    if from >= to {
      return [];
    }
    ghost var start, end := Capped(from, |stored|), Capped(to, |stored|);
    out := [];
    var cursor: Option<Cursor<nat>> :=
      Some(Cursor(if from == 0 then None else Some(from - 1), DEFAULT_PAGE_SIZE));
    while cursor.Some?
      invariant start + |out| <= end && out == stored[start..start + |out|]
      invariant if cursor.Some? then Resume(cursor.value.after, |stored|) == start + |out| else start + |out| == end
      decreases end - start - |out|, if cursor.Some? then 1 else 0
    {
      var records, next := EntryPage(stored, cursor.value);
      if records == [] {
        break;
      }
      var done := false;
      ghost var before := |out|;
      var i := 0;
      while i < |records|
        invariant 0 <= i <= |records| && |out| == before + i && start + |out| <= end
        invariant out == stored[start..start + |out|]
      {
        var (index, record) := records[i];
        if index >= to {
          done := true;
          break;
        }
        assert stored[start..start + |out|] + [stored[start + |out|]] == stored[start..start + |out| + 1];
        out := out + [record];
        i := i + 1;
      }
      if done {
        break;
      }
      cursor := next;
    }
  }

  /** The seal's tree head is that of a prefix of a log. */
  ghost predicate Genuine(scale: byte, seal: Seal, log: seq<Entry>)
  {
    seal.treeHead.size <= |log| && seal.treeHead == HeadOf(Hashes(scale, log[..seal.treeHead.size]))
  }

  /** Continues an accumulator with the hashes of some records. */
  method PushAll(accumulator: MerkleAccumulator, records: seq<StoredEntry>, ghost kept: seq<Hash>)
    modifies accumulator
    ensures old(accumulator.Covers(kept)) && |kept| + |records| <= U64_MAX ==>
      accumulator.Covers(kept + HashesOf(records))
  {
    assert kept + HashesOf(records)[..0] == kept;
    for i := 0 to |records|
      invariant old(accumulator.Covers(kept)) && |kept| + |records| <= U64_MAX ==>
        accumulator.Covers(kept + HashesOf(records)[..i])
    {
      assert kept + HashesOf(records)[..i + 1] == kept + HashesOf(records)[..i] + [records[i].contentHash];
      var _ := accumulator.Push(records[i].contentHash);
    }
    assert HashesOf(records)[..|records|] == HashesOf(records);
  }

  /** Reaching the sealed root means the new hashes are the sealed ones, and only then. */
  lemma RootDecides(scale: byte, log: seq<Entry>, through: u64, seal: Seal, hashes: seq<Hash>)
    requires through <= |log| <= U64_MAX && Genuine(scale, seal, log) && through <= seal.treeHead.size
    ensures var kept, size := Hashes(scale, log[..through]), seal.treeHead.size;
      && |kept| == through && size <= |log| == |Hashes(scale, log)|
      && (TreeHash(kept + hashes) == seal.treeHead.root <==> hashes == Hashes(scale, log)[through..size])
      && (hashes == Hashes(scale, log)[through..size] ==> kept + hashes == Hashes(scale, log[..size]))
  {
    hide TreeHash, Hashes;
    var kept, size := Hashes(scale, log[..through]), seal.treeHead.size;
    HashesPrefix(scale, log, through);
    HashesPrefix(scale, log, size);
    assert kept + Hashes(scale, log)[through..size] == Hashes(scale, log[..size]);
    if TreeHash(kept + hashes) == seal.treeHead.root {
      TreeHashInjective(kept + hashes, Hashes(scale, log[..size]));
      assert hashes == (kept + hashes)[through..];
    }
  }

  /** What the table's last snapshot says: how far the archive reaches and the accumulator, or nothing of ours. */
  datatype Snapshot = Written(through: u64, accumulator: seq<Symbol>) | Foreign

  class ColdTier {
    /** The records whose rows the table holds, in the order they were written. */
    var rows: seq<StoredEntry>
    var snapshot: Option<Snapshot>

    function Through(): u64
      reads this
    {
      if snapshot.Some? && snapshot.value.Written? then snapshot.value.through else 0
    }

    /** The rows' hashes are exactly a prefix of a log's, and the snapshot covers exactly that prefix. */
    ghost predicate Holds(scale: byte, log: seq<Entry>)
      reads this
    {
      && |log| <= U64_MAX && Through() <= |log|
      && HashesOf(rows) == Hashes(scale, log[..Through()])
      && (snapshot.Some? ==>
            snapshot.value.Written? && snapshot.value.accumulator == Render(StackOf(Hashes(scale, log[..Through()]))))
    }

    constructor ()
      ensures forall scale, log: seq<Entry> :: |log| <= U64_MAX ==> Holds(scale, log)
      ensures rows == [] && snapshot == None
    {
      rows, snapshot := [], None;
    }

    /** Where the last compaction left the archive. */
    method ArchiveState(ghost scale: byte, ghost log: seq<Entry>) returns (r: Result<MerkleAccumulator, ColdTierError>)
      ensures r.Ok? ==> fresh(r.value)
      ensures r.Err? ==> r.error == MalformedState
      ensures snapshot == Some(Foreign) ==> r.Err?
      ensures Holds(scale, log) ==> r.Ok? && r.value.Covers(Hashes(scale, log[..Through()]))
    {
      hide StackOf, Render;
      match snapshot {
        case None =>
          var nothing := new MerkleAccumulator();
          return Ok(nothing);
        case Some(Foreign) =>
          return Err(MalformedState);
        case Some(Written(through, raw)) =>
          r := DecodeAccumulator(raw, through);
      }
    }

    /**
     Archives everything sealed but not yet stored, checked against the seal. Over an archive
     that holds a prefix of a log, with a seal of that log, whatever records and hashes the
     store hands over: a compaction that succeeds leaves exactly the sealed prefix archived, and
     one that fails changes nothing. It succeeds exactly when the seal is not behind and the
     hashes handed over for the new positions are the log's.
     */
    method Compact(stored: seq<StoredEntry>, seal: Seal, ghost scale: byte, ghost log: seq<Entry>)
      returns (r: Result<u64, ColdTierError>)
      requires |stored| <= U64_MAX
      modifies this
      ensures r.Err? ==> rows == old(rows) && snapshot == old(snapshot)
      ensures var from, to := Capped(old(Through()), |stored|), Capped(seal.treeHead.size, |stored|);
        r.Ok? ==> rows == old(rows) + if from <= to then stored[from..to] else []
      ensures old(Holds(scale, log)) && Genuine(scale, seal, log) ==>
        && Holds(scale, log) && |Hashes(scale, log)| == |log|
        && (r.Ok? ==> Through() == seal.treeHead.size && r.value == Through())
        && (r.Ok? ==> seal.treeHead.size <= |log| && HashesOf(rows) == Hashes(scale, log[..seal.treeHead.size]))
        && (r.Ok? && snapshot.Some? ==>
              var sealed := Hashes(scale, log[..seal.treeHead.size]);
              snapshot.value == Written(seal.treeHead.size, Render(StackOf(sealed))))
        && (r.Ok? <==>
              old(Through()) <= seal.treeHead.size <= |log|
              && HashesOf(stored[Capped(old(Through()), |stored|)..Capped(seal.treeHead.size, |stored|)])
                 == Hashes(scale, log)[old(Through())..seal.treeHead.size])
      ensures old(Holds(scale, log)) && Genuine(scale, seal, log) && r.Err? ==>
        if seal.treeHead.size < old(Through())
        then r.error == SealBehindArchive(seal.period, seal.treeHead.size, old(Through()))
        else r.error.RootMismatch? && r.error.expected == seal.treeHead.root
    {
      hide StackOf, Render, Hashes, TreeHash, Genuine, HashesOf;
      ghost var sound := Holds(scale, log) && Genuine(scale, seal, log);
      ghost var through := Through();
      ghost var kept := Hashes(scale, log[..Capped(through, |log|)]);
      HashesPrefix(scale, log, |log|);
      var state := ArchiveState(scale, log);
      if state.Err? {
        return Err(state.error);
      }
      if seal.treeHead.size < Through() {
        return Err(SealBehindArchive(seal.period, seal.treeHead.size, Through()));
      }
      var records := Collect(stored, Through(), seal.treeHead.size);
      var accumulator := state.value;
      PushAll(accumulator, records, kept);
      var reached := accumulator.Root();
      if sound {
        RootDecides(scale, log, through, seal, HashesOf(records));
      }
      if reached != seal.treeHead.root {
        return Err(RootMismatch(seal.period, seal.treeHead.root, reached));
      }
      if records == [] {
        return Ok(Through());
      }
      HashesOfConcat(rows, records);
      rows := rows + records;
      snapshot := Some(Written(seal.treeHead.size, Render(accumulator.subtrees)));
      return Ok(seal.treeHead.size);
    }
  }

  lemma HashesOfConcat(a: seq<StoredEntry>, b: seq<StoredEntry>)
    ensures HashesOf(a + b) == HashesOf(a) + HashesOf(b)
  {
  }

  /** The log growing behind it changes nothing for an archive. */
  lemma HoldsOnward(tier: ColdTier, scale: byte, log: seq<Entry>, later: seq<Entry>)
    requires tier.Holds(scale, log) && log <= later && |later| <= U64_MAX
    ensures tier.Holds(scale, later)
  {
    assert later[..tier.Through()] == log[..tier.Through()];
  }

  /** Where each record carries its entry's hash, what an archive holds are the log's own entries, up to identifiers. */
  lemma ArchivedExactly(scale: byte, rows: seq<StoredEntry>, log: seq<Entry>, through: nat)
    requires through <= |log| && HashesOf(rows) == Hashes(scale, log[..through]) && Faithful(scale, rows)
    ensures |rows| == through
    ensures forall i :: 0 <= i < through ==> rows[i].entry == log[i].(id := rows[i].entry.id)
  {
    hide ContentHash;
    assert |rows| == |HashesOf(rows)|;
    forall i | 0 <= i < through
      ensures rows[i].entry == log[i].(id := rows[i].entry.id)
    {
      assert rows[i] in rows;
      assert HashesOf(rows)[i] == rows[i].contentHash && Hashes(scale, log[..through])[i] == ContentHash(scale, log[i]);
      ContentHashExact(scale, scale, rows[i].entry, log[i]);
    }
  }

  /** The log as the in-memory store hands it over: each entry with its content hash. */
  function Records(scale: byte, log: seq<Entry>): seq<StoredEntry>
  {
    seq(|log|, i requires 0 <= i < |log| => StoredEntry(log[i], ContentHash(scale, log[i])))
  }

  /**
   The in-memory store hands over the log's own hashes, however far the log has grown since the
   seal. So the condition on which a compaction against a genuine seal succeeds comes down to
   the seal not being behind.
   */
  lemma RecordsAreTheLog(scale: byte, log: seq<Entry>, later: seq<Entry>, through: nat, size: nat)
    requires log <= later && through <= |log| && size <= |log|
    ensures Faithful(scale, Records(scale, later)) && HashesOf(Records(scale, later)) == Hashes(scale, later)
    ensures var stored := Records(scale, later);
      through <= size <==>
        && through <= size <= |log| == |Hashes(scale, log)|
        && HashesOf(stored[Capped(through, |stored|)..Capped(size, |stored|)]) == Hashes(scale, log)[through..size]
  {
    hide ContentHash;
    var stored := Records(scale, later);
    assert HashesOf(stored) == Hashes(scale, later);
    if through <= size {
      assert Capped(through, |stored|) == through && Capped(size, |stored|) == size;
      assert HashesOf(stored[through..size]) == Hashes(scale, log)[through..size];
    }
  }

  /** Every seal a ledger has made is genuine for its log, and stays so as the log grows. */
  lemma SealsAreGenuine(run: seq<Ledger>, s: Seal)
    requires IsRun(run) && Inv(run[0]) && s in run[0].seals
    ensures Genuine(run[|run| - 1].scale, s, run[|run| - 1].entries)
  {
    hide Inv, TreeHash, ClosingBalances;
    SealedNeverRestated(run, s);
    var l := run[|run| - 1];
    HashesPrefix(l.scale, l.entries, s.treeHead.size);
  }
}

/**
 The published encoding of the reference entry, byte for byte.

 Unique decodability holds of many encodings. This is the one ledgers were written in: the
 order of the fields, the codes of sides and layers, the byte order of numbers and the width
 of every prefix are those of the vector the repository pins.
 */
module GoldenVectors {
  import opened Wrappers
  import opened Hashing
  import opened Canonical
  import opened Powers
  import opened HashTags
  import opened MerkleProofs
  import opened Entries
  import opened Seals
  import opened Accounts

  /** The bytes of a number, lowest first. */
  function LeBytes(n: nat, w: nat): seq<byte>
  {
    if w == 0 then [] else [n % 256] + LeBytes(n / 256, w - 1)
  }

  lemma {:induction false} LeIsFixed(n: nat, w: nat, rest: seq<Atom>)
    ensures PutLe(n, w, rest) == PutFixed(LeBytes(n, w), rest)
  {
    if w > 0 {
      LeIsFixed(n / 256, w - 1, rest);
      assert LeBytes(n, w)[1..] == LeBytes(n / 256, w - 1);
    }
  }

  lemma {:induction false} FixedJoins(a: seq<byte>, b: seq<byte>, rest: seq<Atom>)
    ensures PutFixed(a, PutFixed(b, rest)) == PutFixed(a + b, rest)
  {
    if a == [] {
      assert a + b == b;
    } else {
      FixedJoins(a[1..], b, rest);
      assert (a + b)[1..] == a[1..] + b;
    }
  }

  lemma LeNext(n: nat, w: nat)
    ensures LeBytes(n, w + 1) == [n % 256] + LeBytes(n / 256, w)
  {
  }

  lemma NoBytes()
    ensures LeBytes(0, 0) == [] && LeBytes(0, 2) == [0, 0] && LeBytes(0, 5) == [0, 0, 0, 0, 0]
    ensures LeBytes(0, 7) == [0, 0, 0, 0, 0, 0, 0]
  {
    hide LeBytes;
    assert LeBytes(0, 0) == [] by { NothingLeft(); }
    LeNext(0, 0);
    LeNext(0, 1);
    LeNext(0, 2);
    LeNext(0, 3);
    LeNext(0, 4);
    LeNext(0, 5);
    LeNext(0, 6);
  }

  lemma NothingLeft()
    ensures LeBytes(0, 0) == []
  {
  }

  /** A length, a count or a small number as the encoding writes it. */
  function Word(n: byte): seq<byte>
  {
    [n, 0, 0, 0, 0, 0, 0, 0]
  }

  lemma WordIs(n: byte, rest: seq<Atom>)
    ensures PutU64(n, rest) == PutFixed(Word(n), rest)
  {
    hide PutLe, PutFixed;
    LeIsFixed(n, 8, rest);
    NoBytes();
    LeNext(n, 7);
    assert LeBytes(n, 8) == Word(n);
  }

  lemma TextIs(s: Text, rest: seq<Atom>)
    requires |s| < 256
    ensures PutBytes(s, rest) == PutFixed(Word(|s|) + s, rest)
  {
    WordIs(|s|, PutFixed(s, rest));
    FixedJoins(Word(|s|), s, rest);
  }

  lemma ByteIs(n: byte, rest: seq<Atom>)
    ensures PutU8(n, rest) == PutFixed([n], rest)
  {
    assert [n][1..] == [];
  }

  // --------------------------------------------------------- the reference entry

  function Day(month: nat, day: nat): Date
    requires month <= 12 && day <= 31
  {
    (2026 * 16 + month) * 32 + day
  }

  function DebitLeg(): Posting
  {
    Posting(0, Debit, 119_000, [0x45, 0x55, 0x52], Settled,
      [(Ascii("activity"), Ascii("Network")), (Ascii("segment"), Ascii("Electricity"))])
  }

  function CreditLeg(): Posting
  {
    Posting(1, Credit, 119_000, [0x45, 0x55, 0x52], Settled, [])
  }

  function Repeated(n: byte): Id
  {
    [n, n, n, n, n, n, n, n, n, n, n, n, n, n, n, n]
  }

  /** Both sides, dimensions, provenance, a document, a reversal link, and a later value date. */
  function ReferenceEntry(document: Hash): Entry
  {
    Entry(Repeated(0x11), Ascii("golden-vector-key"), Day(3, 15), Day(3, 17), Ascii("reference entry"),
      [DebitLeg(), CreditLeg()], None, Provenance(Some(Ascii("auditor")), Some(Ascii("golden")), None),
      Some(DocumentRef(Ascii("INV-2026-0001"), Some(document))), Some(Repeated(0x22)), Some(Day(2, 1)))
  }

  /** The published bytes, field by field: scale, key, booking date, value date, description. */
  function DatesAndTexts(): seq<byte>
  {
    [0x02]
    + ((Word(0x11) + Ascii("golden-vector-key"))
    + ([0xea, 0x07, 0x00, 0x00, 0x03, 0x0f]
    + ([0xea, 0x07, 0x00, 0x00, 0x03, 0x11]
    + (Word(0x0f) + Ascii("reference entry")))))
  }

  /** Account, side, amount, currency, layer, dimensions. */
  function DebitBytes(): seq<byte>
  {
    [0x00, 0x00, 0x00, 0x00, 0x00, 0xd8, 0xd0, 0x01, 0x00, 0x00, 0x00, 0x00, 0x00, 0x45, 0x55, 0x52, 0x00]
    + (Word(0x02)
    + ((Word(0x08) + Ascii("activity")) + (Word(0x07) + Ascii("Network"))
    + ((Word(0x07) + Ascii("segment")) + (Word(0x0b) + Ascii("Electricity")))))
  }

  function CreditBytes(): seq<byte>
  {
    [0x01, 0x00, 0x00, 0x00, 0x01, 0xd8, 0xd0, 0x01, 0x00, 0x00, 0x00, 0x00, 0x00, 0x45, 0x55, 0x52, 0x00]
    + Word(0x00)
  }

  /** No kind; actor, source, no correlation; the document, whose hash comes next. */
  function OriginBytes(): seq<byte>
  {
    [0x00]
    + (([0x01] + (Word(0x07) + Ascii("auditor")))
    + (([0x01] + (Word(0x06) + Ascii("golden")))
    + ([0x00]
    + ([0x01] + ((Word(0x0d) + Ascii("INV-2026-0001")) + [0x01])))))
  }

  /** The entry reversed, and the day it was booked. */
  function LinkBytes(): seq<byte>
  {
    ([0x01] + Repeated(0x22)) + ([0x01] + [0xea, 0x07, 0x00, 0x00, 0x02, 0x01])
  }

  lemma YearIs(rest: seq<Atom>)
    ensures PutI32(2026, rest) == PutFixed([0xea, 0x07, 0x00, 0x00], rest)
  {
    hide PutFixed, PutLe, Pow, LeBytes;
    Widths();
    LeIsFixed(2026, 4, rest);
    NoBytes();
    LeNext(2026, 3);
    LeNext(7, 2);
    assert LeBytes(2026, 4) == [0xea, 0x07, 0x00, 0x00];
  }

  lemma DayIs(month: byte, day: byte, rest: seq<Atom>)
    requires month <= 12 && day <= 31
    ensures PutDate(Day(month, day), rest) == PutFixed([0xea, 0x07, 0x00, 0x00, month, day], rest)
  {
    hide PutI32, PutFixed;
    var d := Day(month, day);
    assert d / 512 == 2026 && d / 32 % 16 == month && d % 32 == day;
    ByteIs(day, rest);
    ByteIs(month, PutFixed([day], rest));
    FixedJoins([month], [day], rest);
    YearIs(PutFixed([month] + [day], rest));
    FixedJoins([0xea, 0x07, 0x00, 0x00], [month] + [day], rest);
    assert [0xea, 0x07, 0x00, 0x00] + ([month] + [day]) == [0xea, 0x07, 0x00, 0x00, month, day];
  }

  /** An amount that fits three bytes. */
  lemma AmountIs(rest: seq<Atom>)
    ensures PutI64(119_000, rest) == PutFixed([0xd8, 0xd0, 0x01, 0x00, 0x00, 0x00, 0x00, 0x00], rest)
  {
    hide PutFixed, PutLe, Pow, LeBytes;
    Widths();
    LeIsFixed(119_000, 8, rest);
    NoBytes();
    LeNext(119_000, 7);
    LeNext(464, 6);
    LeNext(1, 5);
    assert LeBytes(119_000, 8) == [0xd8, 0xd0, 0x01, 0x00, 0x00, 0x00, 0x00, 0x00];
  }

  lemma AccountIs(n: byte, rest: seq<Atom>)
    ensures PutU32(n, rest) == PutFixed([n, 0, 0, 0], rest)
  {
    hide PutFixed, PutLe, LeBytes;
    LeIsFixed(n, 4, rest);
    NoBytes();
    LeNext(n, 3);
    LeNext(0, 2);
    assert LeBytes(n, 4) == [n, 0, 0, 0];
  }

  /** Account, side, amount, currency and layer, before the dimensions. */
  lemma LegIs(p: Posting, side: byte, rest: seq<Atom>)
    requires p.account < 256 && p.amount == 119_000 && p.layer == Settled
    requires side == if p.direction == Debit then 0 else 1
    ensures PutPosting(p, rest) == PutFixed([p.account, 0, 0, 0, side, 0xd8, 0xd0, 0x01, 0, 0, 0, 0, 0] + p.currency + [0],
      PutSeq(p.dimensions, PutAxis, rest))
  {
    hide PutFixed, PutSeq, PutI64, PutU32, PutU8;
    var dimensions := PutSeq(p.dimensions, PutAxis, rest);
    var amount := [0xd8, 0xd0, 0x01, 0x00, 0x00, 0x00, 0x00, 0x00];
    ByteIs(0, dimensions);
    FixedJoins(p.currency, [0], dimensions);
    AmountIs(PutFixed(p.currency + [0], dimensions));
    FixedJoins(amount, p.currency + [0], dimensions);
    ByteIs(side, PutFixed(amount + (p.currency + [0]), dimensions));
    FixedJoins([side], amount + (p.currency + [0]), dimensions);
    AccountIs(p.account, PutFixed([side] + (amount + (p.currency + [0])), dimensions));
    FixedJoins([p.account, 0, 0, 0], [side] + (amount + (p.currency + [0])), dimensions);
    assert [p.account, 0, 0, 0] + ([side] + (amount + (p.currency + [0]))) ==
      [p.account, 0, 0, 0, side, 0xd8, 0xd0, 0x01, 0, 0, 0, 0, 0] + p.currency + [0];
  }

  lemma AxisIs(a: Label, b: Label, rest: seq<Atom>)
    requires |a| < 256 && |b| < 256
    ensures PutAxis((a, b), rest) == PutFixed((Word(|a|) + a) + (Word(|b|) + b), rest)
  {
    hide PutFixed, PutBytes;
    TextIs(b, rest);
    TextIs(a, PutFixed(Word(|b|) + b, rest));
    FixedJoins(Word(|a|) + a, Word(|b|) + b, rest);
  }

  lemma DimensionsAre(rest: seq<Atom>)
    ensures PutSeq(DebitLeg().dimensions, PutAxis, rest) == PutFixed(Word(0x02)
      + ((Word(0x08) + Ascii("activity")) + (Word(0x07) + Ascii("Network"))
         + ((Word(0x07) + Ascii("segment")) + (Word(0x0b) + Ascii("Electricity")))), rest)
  {
    hide PutFixed, PutU64, PutAxis, Word, Ascii;
    var axes := DebitLeg().dimensions;
    var first := (Word(0x08) + Ascii("activity")) + (Word(0x07) + Ascii("Network"));
    var second := (Word(0x07) + Ascii("segment")) + (Word(0x0b) + Ascii("Electricity"));
    AxisIs(Ascii("segment"), Ascii("Electricity"), rest);
    AxisIs(Ascii("activity"), Ascii("Network"), PutFixed(second, rest));
    FixedJoins(first, second, rest);
    TwoItems(axes[0], axes[1], PutAxis, rest);
    WordIs(0x02, PutFixed(first + second, rest));
    FixedJoins(Word(0x02), first + second, rest);
  }

  lemma TwoItems<T>(a: T, b: T, put: (T, seq<Atom>) -> seq<Atom>, rest: seq<Atom>)
    ensures PutSeq([a, b], put, rest) == PutU64(2, put(a, put(b, rest)))
  {
    assert [a, b][1..] == [b] && [b][1..] == [];
    NoItems(put, rest);
    assert PutAll([b], put, rest) == put(b, PutAll([b][1..], put, rest));
  }

  lemma NoItems<T>(put: (T, seq<Atom>) -> seq<Atom>, rest: seq<Atom>)
    ensures PutAll([], put, rest) == rest && PutSeq([], put, rest) == PutFixed(Word(0x00), rest)
  {
    WordIs(0x00, rest);
  }

  lemma OptionIs<T>(v: T, put: (T, seq<Atom>) -> seq<Atom>, bytes: seq<byte>, rest: seq<Atom>, after: seq<Atom>)
    requires put(v, rest) == PutFixed(bytes, after)
    ensures PutOption(Some(v), put, rest) == PutFixed([0x01] + bytes, after)
    ensures PutOption(None, put, rest) == PutFixed([0x00], rest)
  {
    ByteIs(0x01, PutFixed(bytes, after));
    FixedJoins([0x01], bytes, after);
    ByteIs(0x00, rest);
  }

  lemma DebitIs(rest: seq<Atom>)
    ensures PutPosting(DebitLeg(), rest) == PutFixed(DebitBytes(), rest)
  {
    hide PutFixed, PutSeq, PutPosting, Word, Ascii;
    LegIs(DebitLeg(), 0, rest);
    DimensionsAre(rest);
    var axes := Word(0x02)
      + ((Word(0x08) + Ascii("activity")) + (Word(0x07) + Ascii("Network"))
         + ((Word(0x07) + Ascii("segment")) + (Word(0x0b) + Ascii("Electricity"))));
    var head := [0, 0, 0, 0, 0, 0xd8, 0xd0, 0x01, 0, 0, 0, 0, 0] + [0x45, 0x55, 0x52] + [0];
    FixedJoins(head, axes, rest);
    assert head + axes == DebitBytes();
  }

  lemma CreditIs(rest: seq<Atom>)
    ensures PutPosting(CreditLeg(), rest) == PutFixed(CreditBytes(), rest)
  {
    hide PutFixed, PutSeq, PutPosting, Word;
    LegIs(CreditLeg(), 1, rest);
    NoItems(PutAxis, rest);
    var head := [1, 0, 0, 0, 1, 0xd8, 0xd0, 0x01, 0, 0, 0, 0, 0] + [0x45, 0x55, 0x52] + [0];
    FixedJoins(head, Word(0x00), rest);
    assert head + Word(0x00) == CreditBytes();
  }

  lemma PostingsAre(rest: seq<Atom>)
    ensures PutSeq([DebitLeg(), CreditLeg()], PutPosting, rest) == PutFixed(Word(0x02) + (DebitBytes() + CreditBytes()), rest)
  {
    hide PutFixed, PutPosting, PutU64, DebitBytes, CreditBytes, Word, DebitLeg, CreditLeg;
    CreditIs(rest);
    DebitIs(PutFixed(CreditBytes(), rest));
    FixedJoins(DebitBytes(), CreditBytes(), rest);
    TwoItems(DebitLeg(), CreditLeg(), PutPosting, rest);
    WordIs(0x02, PutFixed(DebitBytes() + CreditBytes(), rest));
    FixedJoins(Word(0x02), DebitBytes() + CreditBytes(), rest);
  }

  lemma LinksAre(rest: seq<Atom>)
    ensures PutOption(Some(Repeated(0x22)), PutId, PutOption(Some(Day(2, 1)), PutDate, rest)) == PutFixed(LinkBytes(), rest)
  {
    hide PutFixed, PutOption, PutDate, Day, Repeated;
    var day := [0xea, 0x07, 0x00, 0x00, 0x02, 0x01];
    DayIs(2, 1, rest);
    OptionIs(Day(2, 1), PutDate, day, rest, rest);
    var booked := PutFixed([0x01] + day, rest);
    OptionIs(Repeated(0x22), PutId, Repeated(0x22), booked, booked);
    FixedJoins([0x01] + Repeated(0x22), [0x01] + day, rest);
  }

  lemma DocumentIs(document: Hash, rest: seq<Atom>)
    ensures PutOption(Some(DocumentRef(Ascii("INV-2026-0001"), Some(document))), PutDocument, rest)
      == PutFixed([0x01] + ((Word(0x0d) + Ascii("INV-2026-0001")) + [0x01]), [Digest(document)] + rest)
  {
    hide PutFixed, PutOption, Word, Ascii;
    var id, after := Ascii("INV-2026-0001"), [Digest(document)] + rest;
    OptionSome(document, PutDigest, rest);
    ByteIs(0x01, after);
    TextIs(id, PutFixed([0x01], after));
    FixedJoins(Word(0x0d) + id, [0x01], after);
    OptionIs(DocumentRef(id, Some(document)), PutDocument, (Word(0x0d) + id) + [0x01], rest, after);
  }

  lemma OptionSome<T>(v: T, put: (T, seq<Atom>) -> seq<Atom>, rest: seq<Atom>)
    ensures PutOption(Some(v), put, rest) == PutU8(1, put(v, rest))
  {
  }

  lemma OptionNone<T>(put: (T, seq<Atom>) -> seq<Atom>, rest: seq<Atom>)
    ensures PutOption(None, put, rest) == PutFixed([0x00], rest)
  {
    ByteIs(0x00, rest);
  }

  /** A text that is there, before some bytes. */
  lemma SomeTextIs(s: Label, bytes: seq<byte>, rest: seq<Atom>)
    requires |s| < 256
    ensures PutOption(Some(s), PutBytes, PutFixed(bytes, rest)) == PutFixed(([0x01] + (Word(|s|) + s)) + bytes, rest)
  {
    hide PutFixed, PutOption, PutBytes;
    TextIs(s, PutFixed(bytes, rest));
    OptionIs(s, PutBytes, Word(|s|) + s, PutFixed(bytes, rest), PutFixed(bytes, rest));
    FixedJoins([0x01] + (Word(|s|) + s), bytes, rest);
  }

  lemma NoTextIs(bytes: seq<byte>, rest: seq<Atom>)
    ensures PutOption<Text>(None, PutBytes, PutFixed(bytes, rest)) == PutFixed([0x00] + bytes, rest)
  {
    hide PutFixed, PutOption, PutBytes;
    OptionNone<Text>(PutBytes, PutFixed(bytes, rest));
    FixedJoins([0x00], bytes, rest);
  }

  lemma ReferencesAre(document: Hash)
    ensures PutReferences(ReferenceEntry(document), [])
      == PutFixed(OriginBytes(), [Digest(document)] + PutFixed(LinkBytes(), []))
  {
    hide PutFixed, PutOption, Word, Ascii, LinkBytes;
    var links := PutFixed(LinkBytes(), []);
    var after := [Digest(document)] + links;
    var file := [0x01] + ((Word(0x0d) + Ascii("INV-2026-0001")) + [0x01]);
    LinksAre([]);
    DocumentIs(document, links);
    NoTextIs(file, after);
    SomeTextIs(Ascii("golden"), [0x00] + file, after);
    var source := ([0x01] + (Word(0x06) + Ascii("golden"))) + ([0x00] + file);
    SomeTextIs(Ascii("auditor"), source, after);
    NoTextIs(([0x01] + (Word(0x07) + Ascii("auditor"))) + source, after);
  }

  /** The model writes the reference entry, at scale two, as the published vector has it. */
  lemma ReferenceEncoding(document: Hash)
    ensures PutEntry(2, ReferenceEntry(document), [])
      == PutFixed(DatesAndTexts() + (Word(0x02) + (DebitBytes() + CreditBytes())) + OriginBytes(),
           [Digest(document)] + PutFixed(LinkBytes(), []))
  {
    hide PutFixed, PutReferences, PutSeq, PutDate, PutU8, PutBytes, Word, Ascii;
    hide DebitLeg, CreditLeg, DebitBytes, CreditBytes, OriginBytes, LinkBytes;
    var e := ReferenceEntry(document);
    var after := [Digest(document)] + PutFixed(LinkBytes(), []);
    var legs := Word(0x02) + (DebitBytes() + CreditBytes());
    ReferencesAre(document);
    PostingsAre(PutFixed(OriginBytes(), after));
    FixedJoins(legs, OriginBytes(), after);
    HeadIs(e, legs + OriginBytes(), after);
    assert DatesAndTexts() + legs + OriginBytes() == DatesAndTexts() + (legs + OriginBytes());
  }

  /** Scale, key, both dates and description, before some bytes. */
  lemma HeadIs(e: Entry, bytes: seq<byte>, after: seq<Atom>)
    requires e.key == Ascii("golden-vector-key") && e.description == Ascii("reference entry")
    requires e.bookingDate == Day(3, 15) && e.valueDate == Day(3, 17)
    ensures PutU8(2, PutBytes(e.key, PutDate(e.bookingDate, PutDate(e.valueDate, PutBytes(e.description,
      PutFixed(bytes, after)))))) == PutFixed(DatesAndTexts() + bytes, after)
  {
    hide PutFixed, PutDate, PutU8, PutBytes, Word, Ascii, Day;
    var booked, valued := [0xea, 0x07, 0x00, 0x00, 0x03, 0x0f], [0xea, 0x07, 0x00, 0x00, 0x03, 0x11];
    var text := (Word(0x0f) + e.description) + bytes;
    TextIs(e.description, PutFixed(bytes, after));
    FixedJoins(Word(0x0f) + e.description, bytes, after);
    DayIs(3, 17, PutFixed(text, after));
    FixedJoins(valued, text, after);
    DayIs(3, 15, PutFixed(valued + text, after));
    FixedJoins(booked, valued + text, after);
    TextIs(e.key, PutFixed(booked + (valued + text), after));
    FixedJoins(Word(0x11) + e.key, booked + (valued + text), after);
    ByteIs(2, PutFixed((Word(0x11) + e.key) + (booked + (valued + text)), after));
    FixedJoins([2], (Word(0x11) + e.key) + (booked + (valued + text)), after);
    assert [2] + ((Word(0x11) + e.key) + (booked + (valued + text))) == DatesAndTexts() + bytes;
  }

  // ------------------------------------------- a seal, a row and a binding

  lemma HeadBytes(size: byte, root: Hash, rest: seq<Atom>)
    ensures PutHead(TreeHead(size, root), rest) == PutFixed(Word(size), [Digest(root)] + rest)
  {
    WordIs(size, [Digest(root)] + rest);
  }

  lemma SomeWordIs(n: byte, bytes: seq<byte>, rest: seq<Atom>)
    ensures PutOption<u64>(Some(n), PutU64, PutFixed(bytes, rest)) == PutFixed(([0x01] + Word(n)) + bytes, rest)
  {
    hide PutFixed, PutOption, PutU64, Word;
    WordIs(n, PutFixed(bytes, rest));
    OptionIs<u64>(n, PutU64, Word(n), PutFixed(bytes, rest), PutFixed(bytes, rest));
    FixedJoins([0x01] + Word(n), bytes, rest);
  }

  function ReferenceSeal(log: Hash, balances: Hash, accounts: Hash, previous: Hash): Seal
  {
    BuildSeal(Ascii("golden-ledger"), Ascii("2026-03"), PeriodCoverage(Some(0), Some(3), 4),
      TreeHead(4, log), TreeHead(2, balances), TreeHead(2, accounts), Some(previous))
  }

  /** What the reference seal's hash covers, in order: ledger, period, coverage, the three heads, the predecessor. */
  lemma SealPreimage(log: Hash, balances: Hash, accounts: Hash, previous: Hash)
    ensures PutSeal(ReferenceSeal(log, balances, accounts, previous), [])
      == PutFixed((Word(0x0d) + Ascii("golden-ledger")) + ((Word(0x07) + Ascii("2026-03"))
           + (([0x01] + Word(0)) + (([0x01] + Word(3)) + (Word(4) + Word(4))))),
         [Digest(log)] + PutFixed(Word(2), [Digest(balances)] + PutFixed(Word(2), [Digest(accounts)]
           + PutFixed([0x01], [Digest(previous)]))))
  {
    hide PutFixed, PutOption, PutU64, PutBytes, PutHead, Word, Ascii, Seal.ComputeHash;
    OptionSome(previous, PutDigest, []);
    assert PutDigest(previous, []) == [Digest(previous)];
    ByteIs(0x01, [Digest(previous)]);
    HeadBytes(2, accounts, PutFixed([0x01], [Digest(previous)]));
    var byAccounts := PutFixed(Word(2), [Digest(accounts)] + PutFixed([0x01], [Digest(previous)]));
    HeadBytes(2, balances, byAccounts);
    var byBalances := PutFixed(Word(2), [Digest(balances)] + byAccounts);
    HeadBytes(4, log, byBalances);
    var byLog := [Digest(log)] + byBalances;
    WordIs(4, PutFixed(Word(4), byLog));
    FixedJoins(Word(4), Word(4), byLog);
    SomeWordIs(3, Word(4) + Word(4), byLog);
    var count := ([0x01] + Word(3)) + (Word(4) + Word(4));
    SomeWordIs(0, count, byLog);
    var coverage := ([0x01] + Word(0)) + count;
    TextIs(Ascii("2026-03"), PutFixed(coverage, byLog));
    FixedJoins(Word(0x07) + Ascii("2026-03"), coverage, byLog);
    var named := (Word(0x07) + Ascii("2026-03")) + coverage;
    TextIs(Ascii("golden-ledger"), PutFixed(named, byLog));
    FixedJoins(Word(0x0d) + Ascii("golden-ledger"), named, byLog);
  }

  /** What a row's leaf covers, in order: account, currency, layer, scale, debits, credits. */
  lemma RowPreimage()
    ensures PutBalance(2, BalanceKey(1, [0x45, 0x55, 0x52], Settled), Balance(119_000, 0), [])
      == PutFixed([0x01, 0x00, 0x00, 0x00, 0x45, 0x55, 0x52, 0x00, 0x02, 0xd8, 0xd0, 0x01, 0x00, 0x00, 0x00, 0x00, 0x00]
           + Word(0x00), [])
  {
    hide PutFixed, PutI64, PutU32, PutU8, Word;
    var amount := [0xd8, 0xd0, 0x01, 0x00, 0x00, 0x00, 0x00, 0x00];
    NothingIs([]);
    AmountIs(PutFixed(Word(0), []));
    FixedJoins(amount, Word(0), []);
    ByteIs(2, PutFixed(amount + Word(0), []));
    FixedJoins([2], amount + Word(0), []);
    ByteIs(0, PutFixed([2] + (amount + Word(0)), []));
    FixedJoins([0], [2] + (amount + Word(0)), []);
    var tail := [0] + ([2] + (amount + Word(0)));
    FixedJoins([0x45, 0x55, 0x52], tail, []);
    AccountIs(1, PutFixed([0x45, 0x55, 0x52] + tail, []));
    FixedJoins([1, 0, 0, 0], [0x45, 0x55, 0x52] + tail, []);
    assert [1, 0, 0, 0] + ([0x45, 0x55, 0x52] + tail) ==
      [0x01, 0x00, 0x00, 0x00, 0x45, 0x55, 0x52, 0x00, 0x02, 0xd8, 0xd0, 0x01, 0x00, 0x00, 0x00, 0x00, 0x00] + Word(0x00);
  }

  lemma NothingIs(rest: seq<Atom>)
    ensures PutI64(0, rest) == PutFixed(Word(0x00), rest)
  {
    Widths();
    WordIs(0, rest);
  }

  /** What a binding's leaf covers: the handle, and the segments of the path. */
  lemma BindingPreimage()
    ensures PutU32(0, PutPath([Ascii("Assets"), Ascii("Cash")], []))
      == PutFixed([0x00, 0x00, 0x00, 0x00] + (Word(0x02) + ((Word(0x06) + Ascii("Assets")) + (Word(0x04) + Ascii("Cash")))), [])
  {
    hide PutFixed, PutU64, PutU32, PutBytes, Word, Ascii;
    var first, second := Word(0x06) + Ascii("Assets"), Word(0x04) + Ascii("Cash");
    TextIs(Ascii("Cash"), []);
    TextIs(Ascii("Assets"), PutFixed(second, []));
    FixedJoins(first, second, []);
    TwoItems<Text>(Ascii("Assets"), Ascii("Cash"), PutBytes, []);
    WordIs(0x02, PutFixed(first + second, []));
    FixedJoins(Word(0x02), first + second, []);
    AccountIs(0, PutFixed(Word(0x02) + (first + second), []));
    FixedJoins([0, 0, 0, 0], Word(0x02) + (first + second), []);
  }
}

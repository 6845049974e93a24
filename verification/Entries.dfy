/** Postings, entries and balances, and the content hash of an entry. */
module Entries {
  import opened Wrappers
  import opened Hashing
  import opened Canonical

  type Label = Text

  const EMPTY_LABEL: Label := []

  /** A date packed as (year * 16 + month) * 32 + day, whose order is calendar order. */
  type Date = d: int | -0x8000_0000 * 512 <= d < 0x8000_0000 * 512

  /** A three-byte currency code. */
  type Currency = s: seq<byte> | |s| == 3 witness [69, 85, 82]

  /** A UUID. */
  type Id = s: seq<byte> | |s| == 16 witness [0, 0, 0, 0, 0, 0, 0, 0, 0, 0, 0, 0, 0, 0, 0, 0]

  datatype Direction = Debit | Credit
  {
    function Inverse(): Direction
    {
      if Debit? then Credit else Debit
    }
  }

  datatype Layer = Settled | Pending

  /** Axis and value pairs in axis order, as an ordered map stores them. */
  type Dimensions = s: seq<(Label, Label)> | |s| <= U64_MAX

  datatype Posting = Posting(
    account: u32, direction: Direction, amount: i64, currency: Currency, layer: Layer, dimensions: Dimensions)
  {
    function Key(): BalanceKey
    {
      BalanceKey(account, currency, layer)
    }

    function Inverted(): Posting
    {
      this.(direction := direction.Inverse())
    }
  }

  datatype BalanceKey = BalanceKey(account: u32, currency: Currency, layer: Layer)

  /** Gross totals; the machine representation is in range when both fit an i64. */
  datatype Balance = Balance(debits: int, credits: int)
  {
    function Added(direction: Direction, amount: int): Balance
    {
      match direction
      case Debit => this.(debits := debits + amount)
      case Credit => this.(credits := credits + amount)
    }

    predicate Fits()
    {
      I64_MIN <= debits <= I64_MAX && I64_MIN <= credits <= I64_MAX
    }

    function SignedNet(): int
    {
      debits - credits
    }
  }

  const ZERO: Balance := Balance(0, 0)

  /** Gross totals are in range exactly when each fits 64 bits with a sign. */
  lemma FitsIs(b: Balance)
    ensures b.Fits() <==>
      -9_223_372_036_854_775_808 <= b.debits <= 9_223_372_036_854_775_807
      && -9_223_372_036_854_775_808 <= b.credits <= 9_223_372_036_854_775_807
  {
  }

  datatype Provenance = Provenance(actor: Option<Label>, source: Option<Label>, correlation: Option<Label>)

  datatype DocumentRef = DocumentRef(id: Label, contentHash: Option<Hash>)

  type PostingList = s: seq<Posting> | |s| <= U64_MAX

  datatype Entry = Entry(
    id: Id,
    key: Text,
    bookingDate: Date,
    valueDate: Date,
    description: Text,
    postings: PostingList,
    kind: Option<Label>,
    provenance: Provenance,
    document: Option<DocumentRef>,
    reverses: Option<Id>,
    originalBookingDate: Option<Date>)

  // ------------------------------------------------------------------ encoding

  function DirectionCode(d: Direction): byte { if d.Debit? then 0 else 1 }

  function LayerCode(l: Layer): byte { if l.Settled? then 0 else 1 }

  function PutDate(d: Date, rest: seq<Atom>): seq<Atom>
  {
    PutI32(d / 512, PutU8(d / 32 % 16, PutU8(d % 32, rest)))
  }

  function PutAxis(axis: (Label, Label), rest: seq<Atom>): seq<Atom>
  {
    PutBytes(axis.0, PutBytes(axis.1, rest))
  }

  function PutPosting(p: Posting, rest: seq<Atom>): seq<Atom>
  {
    PutU32(p.account, PutU8(DirectionCode(p.direction), PutI64(p.amount, PutFixed(p.currency,
      PutU8(LayerCode(p.layer), PutSeq(p.dimensions, PutAxis, rest))))))
  }

  function PutProvenance(p: Provenance, rest: seq<Atom>): seq<Atom>
  {
    PutOption(p.actor, PutBytes, PutOption(p.source, PutBytes, PutOption(p.correlation, PutBytes, rest)))
  }

  function PutDocument(d: DocumentRef, rest: seq<Atom>): seq<Atom>
  {
    PutBytes(d.id, PutOption(d.contentHash, PutDigest, rest))
  }

  function PutId(id: Id, rest: seq<Atom>): seq<Atom>
  {
    PutFixed(id, rest)
  }

  /** The tail of an entry, after its postings. */
  function PutReferences(e: Entry, rest: seq<Atom>): seq<Atom>
  {
    PutOption(e.kind, PutBytes, PutProvenance(e.provenance, PutOption(e.document, PutDocument,
      PutOption(e.reverses, PutId, PutOption(e.originalBookingDate, PutDate, rest)))))
  }

  /** Everything but the identifier, at scale `scale`. */
  function PutEntry(scale: byte, e: Entry, rest: seq<Atom>): seq<Atom>
  {
    PutU8(scale, PutBytes(e.key, PutDate(e.bookingDate, PutDate(e.valueDate, PutBytes(e.description,
      PutSeq(e.postings, PutPosting, PutReferences(e, rest)))))))
  }

  lemma U8Unique(a: byte, b: byte, x: seq<Atom>, y: seq<Atom>)
    requires PutU8(a, x) == PutU8(b, y)
    ensures a == b && x == y
  {
    ConsUnique(Byte(a), Byte(b), x, y);
  }

  /** A date is its year, month and day. */
  lemma DateParts(d: int)
    ensures d == d / 512 * 512 + d / 32 % 16 * 32 + d % 32
  {
    Quotients(d, d / 32);
  }

  lemma Quotients(d: int, months: int)
    requires 32 * months <= d < 32 * months + 32
    ensures d / 512 == months / 16
  {
    var year := months / 16;
    assert 512 * year <= d < 512 * (year + 1);
  }

  lemma DateUnique(a: Date, b: Date, x: seq<Atom>, y: seq<Atom>)
    requires PutDate(a, x) == PutDate(b, y)
    ensures a == b && x == y
  {
    hide PutI32, PutU8;
    var restA, restB := PutU8(a / 32 % 16, PutU8(a % 32, x)), PutU8(b / 32 % 16, PutU8(b % 32, y));
    I32Unique(a / 512, b / 512, restA, restB);
    U8Unique(a / 32 % 16, b / 32 % 16, PutU8(a % 32, x), PutU8(b % 32, y));
    U8Unique(a % 32, b % 32, x, y);
    DateParts(a);
    DateParts(b);
  }

  lemma AxisDecodable()
    ensures Decodable(PutAxis)
  {
    forall a: (Label, Label), b: (Label, Label), x, y | PutAxis(a, x) == PutAxis(b, y)
      ensures a == b && x == y
    {
      BytesUnique(a.0, b.0, PutBytes(a.1, x), PutBytes(b.1, y));
      BytesUnique(a.1, b.1, x, y);
    }
  }

  lemma PostingUnique(a: Posting, b: Posting, x: seq<Atom>, y: seq<Atom>)
    requires PutPosting(a, x) == PutPosting(b, y)
    ensures a == b && x == y
  {
    var a5, b5 := PutSeq(a.dimensions, PutAxis, x), PutSeq(b.dimensions, PutAxis, y);
    var a4, b4 := PutU8(LayerCode(a.layer), a5), PutU8(LayerCode(b.layer), b5);
    var a3, b3 := PutFixed(a.currency, a4), PutFixed(b.currency, b4);
    var a2, b2 := PutI64(a.amount, a3), PutI64(b.amount, b3);
    var a1, b1 := PutU8(DirectionCode(a.direction), a2), PutU8(DirectionCode(b.direction), b2);
    U32Unique(a.account, b.account, a1, b1);
    U8Unique(DirectionCode(a.direction), DirectionCode(b.direction), a2, b2);
    I64Unique(a.amount, b.amount, a3, b3);
    FixedUnique(a.currency, b.currency, a4, b4);
    U8Unique(LayerCode(a.layer), LayerCode(b.layer), a5, b5);
    AxisDecodable();
    SeqUnique(a.dimensions, b.dimensions, PutAxis, x, y);
  }

  lemma PostingDecodable()
    ensures Decodable(PutPosting)
  {
    forall a: Posting, b: Posting, x, y | PutPosting(a, x) == PutPosting(b, y)
      ensures a == b && x == y
    {
      PostingUnique(a, b, x, y);
    }
  }

  lemma ProvenanceUnique(a: Provenance, b: Provenance, x: seq<Atom>, y: seq<Atom>)
    requires PutProvenance(a, x) == PutProvenance(b, y)
    ensures a == b && x == y
  {
    BytesDecodable();
    var a2, b2 := PutOption(a.correlation, PutBytes, x), PutOption(b.correlation, PutBytes, y);
    OptionUnique(a.actor, b.actor, PutBytes, PutOption(a.source, PutBytes, a2), PutOption(b.source, PutBytes, b2));
    OptionUnique(a.source, b.source, PutBytes, a2, b2);
    OptionUnique(a.correlation, b.correlation, PutBytes, x, y);
  }

  lemma DocumentDecodable()
    ensures Decodable(PutDocument)
  {
    forall a: DocumentRef, b: DocumentRef, x, y | PutDocument(a, x) == PutDocument(b, y)
      ensures a == b && x == y
    {
      BytesUnique(a.id, b.id, PutOption(a.contentHash, PutDigest, x), PutOption(b.contentHash, PutDigest, y));
      DigestDecodable();
      OptionUnique(a.contentHash, b.contentHash, PutDigest, x, y);
    }
  }

  lemma IdDecodable()
    ensures Decodable(PutId)
  {
    forall a: Id, b: Id, x, y | PutId(a, x) == PutId(b, y)
      ensures a == b && x == y
    {
      FixedUnique(a, b, x, y);
    }
  }

  lemma DateDecodable()
    ensures Decodable(PutDate)
  {
    forall a: Date, b: Date, x, y | PutDate(a, x) == PutDate(b, y)
      ensures a == b && x == y
    {
      DateUnique(a, b, x, y);
    }
  }

  lemma ReferencesUnique(a: Entry, b: Entry, x: seq<Atom>, y: seq<Atom>)
    requires PutReferences(a, x) == PutReferences(b, y)
    ensures a.kind == b.kind && a.provenance == b.provenance && a.document == b.document
    ensures a.reverses == b.reverses && a.originalBookingDate == b.originalBookingDate && x == y
  {
    BytesDecodable();
    DocumentDecodable();
    IdDecodable();
    DateDecodable();
    var a4, b4 := PutOption(a.originalBookingDate, PutDate, x), PutOption(b.originalBookingDate, PutDate, y);
    var a3, b3 := PutOption(a.reverses, PutId, a4), PutOption(b.reverses, PutId, b4);
    var a2, b2 := PutOption(a.document, PutDocument, a3), PutOption(b.document, PutDocument, b3);
    OptionUnique(a.kind, b.kind, PutBytes, PutProvenance(a.provenance, a2), PutProvenance(b.provenance, b2));
    ProvenanceUnique(a.provenance, b.provenance, a2, b2);
    OptionUnique(a.document, b.document, PutDocument, a3, b3);
    OptionUnique(a.reverses, b.reverses, PutId, a4, b4);
    OptionUnique(a.originalBookingDate, b.originalBookingDate, PutDate, x, y);
  }

  /** An encoded entry can be read back in one way only, apart from its identifier. */
  lemma EntryUnique(p: byte, q: byte, a: Entry, b: Entry, x: seq<Atom>, y: seq<Atom>)
    requires PutEntry(p, a, x) == PutEntry(q, b, y)
    ensures p == q && a == b.(id := a.id) && x == y
  {
    var a5, b5 := PutReferences(a, x), PutReferences(b, y);
    var a4, b4 := PutSeq(a.postings, PutPosting, a5), PutSeq(b.postings, PutPosting, b5);
    var a3, b3 := PutBytes(a.description, a4), PutBytes(b.description, b4);
    var a2, b2 := PutDate(a.valueDate, a3), PutDate(b.valueDate, b3);
    var a1, b1 := PutDate(a.bookingDate, a2), PutDate(b.bookingDate, b2);
    U8Unique(p, q, PutBytes(a.key, a1), PutBytes(b.key, b1));
    BytesUnique(a.key, b.key, a1, b1);
    DateUnique(a.bookingDate, b.bookingDate, a2, b2);
    DateUnique(a.valueDate, b.valueDate, a3, b3);
    BytesUnique(a.description, b.description, a4, b4);
    PostingDecodable();
    SeqUnique(a.postings, b.postings, PutPosting, a5, b5);
    ReferencesUnique(a, b, x, y);
  }

  function ContentHash(scale: byte, e: Entry): Hash
  {
    Tagged(EntryTag, PutEntry(scale, e, []))
  }

  /** Equal content hashes mean equal entries up to the identifier, and conversely. */
  lemma ContentHashExact(p: byte, q: byte, a: Entry, b: Entry)
    ensures ContentHash(p, a) == ContentHash(q, b) <==> p == q && a == b.(id := a.id)
  {
    if ContentHash(p, a) == ContentHash(q, b) {
      EntryUnique(p, q, a, b, [], []);
    }
  }

  // ---------------------------------------------------- encoding into a writer

  method EncodeDate(w: CanonicalWriter, d: Date)
    modifies w
    ensures forall k :: w.buf + k == old(w.buf) + PutDate(d, k)
  {
    w.I32(d / 512);
    w.U8(d / 32 % 16);
    w.U8(d % 32);
  }

  method EncodeLabel(w: CanonicalWriter, v: Option<Label>)
    modifies w
    ensures forall k :: w.buf + k == old(w.buf) + PutOption(v, PutBytes, k)
  {
    match v {
      case None => w.U8(0);
      case Some(text) =>
        w.U8(1);
        w.Bytes(text);
    }
  }

  method EncodePosting(w: CanonicalWriter, p: Posting)
    modifies w
    ensures forall k :: w.buf + k == old(w.buf) + PutPosting(p, k)
  {
    w.U32(p.account);
    w.U8(DirectionCode(p.direction));
    w.I64(p.amount);
    w.Fixed(p.currency);
    w.U8(LayerCode(p.layer));
    EncodeDimensions(w, p.dimensions);
  }

  method EncodeDimensions(w: CanonicalWriter, d: Dimensions)
    modifies w
    ensures forall k :: w.buf + k == old(w.buf) + PutSeq(d, PutAxis, k)
  {
    w.U64(|d|);
    for i := 0 to |d|
      invariant forall k :: w.buf + PutAll(d[i..], PutAxis, k) == old(w.buf) + PutSeq(d, PutAxis, k)
    {
      forall k
        ensures PutAll(d[i..], PutAxis, k) == PutAxis(d[i], PutAll(d[i + 1..], PutAxis, k))
      {
        assert d[i..][1..] == d[i + 1..];
      }
      w.Bytes(d[i].0);
      w.Bytes(d[i].1);
    }
  }

  method EncodeDocument(w: CanonicalWriter, document: Option<DocumentRef>)
    modifies w
    ensures forall k :: w.buf + k == old(w.buf) + PutOption(document, PutDocument, k)
  {
    match document {
      case None => w.U8(0);
      case Some(d) =>
        w.U8(1);
        w.Bytes(d.id);
        match d.contentHash {
          case None => w.U8(0);
          case Some(h) =>
            w.U8(1);
            w.Digest(h);
        }
    }
  }

  method EncodeReferences(w: CanonicalWriter, e: Entry)
    modifies w
    ensures forall k :: w.buf + k == old(w.buf) + PutReferences(e, k)
  {
    EncodeLabel(w, e.kind);
    EncodeLabel(w, e.provenance.actor);
    EncodeLabel(w, e.provenance.source);
    EncodeLabel(w, e.provenance.correlation);
    EncodeDocument(w, e.document);
    match e.reverses {
      case None => w.U8(0);
      case Some(id) =>
        w.U8(1);
        w.Fixed(id);
    }
    match e.originalBookingDate {
      case None => w.U8(0);
      case Some(d) =>
        w.U8(1);
        EncodeDate(w, d);
    }
  }

  method EncodePostings(w: CanonicalWriter, ps: PostingList)
    modifies w
    ensures forall k :: w.buf + k == old(w.buf) + PutSeq(ps, PutPosting, k)
  {
    hide PutPosting;
    w.U64(|ps|);
    for i := 0 to |ps|
      invariant forall k :: w.buf + PutAll(ps[i..], PutPosting, k) == old(w.buf) + PutSeq(ps, PutPosting, k)
    {
      forall k
        ensures PutAll(ps[i..], PutPosting, k) == PutPosting(ps[i], PutAll(ps[i + 1..], PutPosting, k))
      {
        assert ps[i..][1..] == ps[i + 1..];
      }
      EncodePosting(w, ps[i]);
    }
  }

  /** Writing an entry field by field produces its encoding. */
  method EncodeEntry(w: CanonicalWriter, scale: byte, e: Entry)
    modifies w
    ensures forall k :: w.buf + k == old(w.buf) + PutEntry(scale, e, k)
  {
    w.U8(scale);
    w.Bytes(e.key);
    EncodeDate(w, e.bookingDate);
    EncodeDate(w, e.valueDate);
    w.Bytes(e.description);
    EncodePostings(w, e.postings);
    EncodeReferences(w, e);
  }

  method Digest(scale: byte, e: Entry) returns (hash: Hash)
    ensures hash == ContentHash(scale, e)
  {
    var w := new CanonicalWriter();
    EncodeEntry(w, scale, e);
    assert w.buf + [] == w.buf;
    return Tagged(EntryTag, w.buf);
  }
}

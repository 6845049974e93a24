/**
 Reversing an entry, and taking a stored entry back.
 */
module Reversals {
  import opened Wrappers
  import opened Hashing
  import opened Canonical
  import opened Entries
  import opened Books
  import opened Validation
  import opened Ledgers

  function InvertAll(ps: PostingList): (r: PostingList)
    ensures |r| == |ps| && forall i :: 0 <= i < |ps| ==> r[i] == ps[i].Inverted()
  {
    if ps == [] then [] else InvertAll(ps[..|ps| - 1]) + [ps[|ps| - 1].Inverted()]
  }

  /**
   A draft that reverses an entry: every side flipped, booked and valued on the day given, naming
   the entry and the day it was booked, and taking over nothing else but the description.
   */
  function Reverse(e: Entry, id: Id, key: Text, bookingDate: Date): (draft: Entry)
    ensures draft.id == id && draft.key == key && draft.bookingDate == draft.valueDate == bookingDate
    ensures draft.reverses == Some(e.id) && draft.originalBookingDate == Some(e.bookingDate)
    ensures draft.description == e.description && draft.kind.None? && draft.document.None?
    ensures draft.provenance.actor.None? && draft.provenance.source.None? && draft.provenance.correlation.None?
    ensures |draft.postings| == |e.postings|
    ensures forall i :: 0 <= i < |e.postings| ==>
      draft.postings[i] == e.postings[i].(direction := if e.postings[i].direction == Debit then Credit else Debit)
  {
    Entry(id, key, bookingDate, bookingDate, e.description, InvertAll(e.postings), None,
      Provenance(None, None, None), None, Some(e.id), Some(e.bookingDate))
  }

  lemma {:induction false} InvertedSums(ps: PostingList, qs: PostingList, k: BalanceKey, c: Currency)
    requires |ps| == |qs| && forall i :: 0 <= i < |ps| ==> qs[i] == ps[i].Inverted()
    ensures Sum(qs, k) == Balance(Sum(ps, k).credits, Sum(ps, k).debits)
    ensures CurrencySum(qs, c) == Balance(CurrencySum(ps, c).credits, CurrencySum(ps, c).debits)
  {
    if ps != [] {
      InvertedSums(ps[..|ps| - 1], qs[..|qs| - 1], k, c);
    }
  }

  /** An accepted inversion nets its original out, on every key. */
  lemma InversionNetsOut(before: seq<Posting>, original: Entry, e: Entry, k: BalanceKey)
    requires IsInversion(original, e)
    ensures Sum(before + original.postings + e.postings, k).SignedNet() == Sum(before, k).SignedNet()
  {
    hide Sum;
    InvertedSums(original.postings, e.postings, k, k.currency);
    SumConcat(before + original.postings, e.postings, k);
    SumConcat(before, original.postings, k);
  }

  /** Reversing a balanced entry gives a balanced draft. */
  lemma ReverseBalances(e: Entry, id: Id, key: Text, bookingDate: Date)
    requires WellBalanced(e)
    ensures WellBalanced(Reverse(e, id, key, bookingDate))
  {
    hide CurrencySum;
    var draft := Reverse(e, id, key, bookingDate);
    forall c
      ensures CurrencySum(draft.postings, c).debits == CurrencySum(draft.postings, c).credits
    {
      InvertedSums(e.postings, draft.postings, BalanceKey(0, c, Settled), c);
    }
    forall p | p in draft.postings
      ensures p.amount > 0
    {
      var j :| 0 <= j < |draft.postings| && draft.postings[j] == p;
      assert e.postings[j] in e.postings;
    }
  }

  /**
   The correction rules allow a draft made by reversing a recorded entry exactly when that
   entry is not itself a reversal and has not been reversed.
   */
  lemma ReverseIsAllowed(es: seq<Entry>, i: nat, id: Id, key: Text, bookingDate: Date)
    requires DistinctEntries(es) && i < |es|
    ensures IsInversion(es[i], Reverse(es[i], id, key, bookingDate))
    ensures ReversalAllowed(es, Reverse(es[i], id, key, bookingDate)) <==>
      es[i].reverses.None? && ReversalIndex(es, es[i].id).None?
  {
    hide IsInversion, IndexOf, ReversalIndex;
    ReverseInverts(es[i], id, key, bookingDate);
    OwnIndex(es, i);
  }

  lemma ReverseInverts(e: Entry, id: Id, key: Text, bookingDate: Date)
    ensures IsInversion(e, Reverse(e, id, key, bookingDate))
  {
  }

  lemma OwnIndex(es: seq<Entry>, i: nat)
    requires DistinctEntries(es) && i < |es|
    ensures IndexOf(es, es[i].id) == Some(i)
  {
    hide IndexOf, DistinctEntries;
    IndexOfFacts(es, es[i].id);
    OneHolder(es, i);
  }

  lemma OneHolder(es: seq<Entry>, i: nat)
    requires DistinctEntries(es) && i < |es|
    ensures forall j :: 0 <= j < |es| && es[j].id == es[i].id ==> j == i
  {
  }

  datatype IntegrityError = IntegrityError(expected: Hash, actual: Hash)

  /** Takes a stored draft as an entry if its content still hashes to what was recorded. */
  function AdoptVerified(scale: byte, draft: Entry, expected: Hash): Result<Entry, IntegrityError>
  {
    var actual := ContentHash(scale, draft);
    if actual == expected then Ok(draft) else Err(IntegrityError(expected, actual))
  }

  /** Nothing but the recorded entry can be taken back under its hash, identifiers apart. */
  lemma AdoptedIsRecorded(scale: byte, recorded: Entry, draft: Entry)
    ensures AdoptVerified(scale, draft, ContentHash(scale, recorded)).Ok? <==> draft == recorded.(id := draft.id)
    ensures match AdoptVerified(scale, draft, ContentHash(scale, recorded))
      case Ok(entry) => entry == draft
      case Err(error) => error.expected == ContentHash(scale, recorded) && error.actual == ContentHash(scale, draft)
    ensures AdoptVerified(scale, draft, ContentHash(scale, recorded)).Ok? ==>
      (WellBalanced(recorded) ==> WellBalanced(draft))
  {
    hide CurrencySum;
    ContentHashExact(scale, scale, draft, recorded);
  }
}

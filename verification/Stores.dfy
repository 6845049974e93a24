/**
 The in-memory store: the journal's reads, one page at a time.
 */
module Stores {
  import opened Wrappers
  import opened Entries
  import opened Books
  import opened Clearings
  import opened Ledgers
  import opened JournalReads
  import opened Journals
  import opened Paging

  function PositionOfItem(): OpenItem -> Site
  {
    (item: OpenItem) => item.position
  }

  function PositionOfLine(): StatementLine -> Site
  {
    (line: StatementLine) => Site(line.index, line.posting.index)
  }

  ghost predicate CandidatesOrdered(candidates: seq<(Site, PostingRef)>)
  {
    forall i, j :: 0 <= i < j < |candidates| ==> candidates[i].0.Before(candidates[j].0)
  }

  /** Open items keep the order of their candidates. */
  lemma {:induction false} OpenItemsOrdered(candidates: seq<(Site, PostingRef)>, lookup: PostingLookup, applied: PostingRef -> int)
    requires CandidatesOrdered(candidates)
    ensures var items := OpenOf(candidates, lookup, applied);
      && Positioned(items, PositionOfItem())
      && forall item :: item in items ==> exists i :: 0 <= i < |candidates| && candidates[i].0 == item.position
  {
    if candidates != [] {
      var front, last := candidates[..|candidates| - 1], candidates[|candidates| - 1];
      OpenItemsOrdered(front, lookup, applied);
      var before, items := OpenOf(front, lookup, applied), OpenOf(candidates, lookup, applied);
      forall item | item in items
        ensures exists i :: 0 <= i < |candidates| && candidates[i].0 == item.position
      {
        if item in before {
          var i :| 0 <= i < |front| && front[i].0 == item.position;
          assert candidates[i].0 == item.position;
        } else {
          assert candidates[|candidates| - 1].0 == item.position;
        }
      }
      forall i | 0 <= i < |before|
        ensures before[i].position.Before(last.0)
      {
        assert before[i] in before;
        var j :| 0 <= j < |front| && front[j].0 == before[i].position;
        assert candidates[j].0.Before(candidates[|candidates| - 1].0);
      }
    }
  }

  lemma SitesCandidates(es: seq<Entry>, key: BalanceKey)
    ensures forall s :: s in SitesOn(es, key) ==> Resolves(es, s)
    ensures CandidatesOrdered(Candidates(es, SitesOn(es, key)))
  {
    SitesOnFacts(es, key);
  }

  lemma LinesOrdered(es: seq<Entry>, key: BalanceKey, lines: seq<StatementLine>)
    requires forall s :: s in SitesOn(es, key) ==> Resolves(es, s)
    requires |lines| == |SitesOn(es, key)|
    requires forall i :: 0 <= i < |lines| ==> LineAt(lines[i], es, SitesOn(es, key)[i])
    ensures Positioned(lines, PositionOfLine())
  {
    hide SitesOn, Sum, Flat;
    SitesOnFacts(es, key);
    forall i, j | 0 <= i < j < |lines|
      ensures PositionOfLine()(lines[i]).Before(PositionOfLine()(lines[j]))
    {
      assert LineAt(lines[i], es, SitesOn(es, key)[i]) && LineAt(lines[j], es, SitesOn(es, key)[j]);
      assert SitesOn(es, key)[i].Before(SitesOn(es, key)[j]);
    }
  }

  /** Every open item of a key, drained through pages of any size: none lost, none repeated. */
  method AllOpenItems(journal: Journal, key: BalanceKey, limits: nat -> nat) returns (r: Result<seq<OpenItem>, JournalError>)
    requires journal.Valid()
    ensures forall s :: s in SitesOn(journal.entries, key) ==> Resolves(journal.entries, s)
    ensures r == Ok(OpenOf(Candidates(journal.entries, SitesOn(journal.entries, key)), LookupOf(journal.entries),
      ActiveOf(journal.clearings.events, journal.clearings.reset.Keys)))
    ensures forall item ::
      IsOpen(journal.entries, journal.clearings.events, journal.clearings.reset.Keys, key, item) <==> item in r.value
    ensures SignedResidual(r.value) == Sum(Flat(journal.entries), key).SignedNet()
  {
    hide Journal.Valid, SitesOn, OpenOf, IsOpen;
    SitesCandidates(journal.entries, key);
    OpenItemsOrdered(Candidates(journal.entries, SitesOn(journal.entries, key)), LookupOf(journal.entries),
      ActiveOf(journal.clearings.events, journal.clearings.reset.Keys));
    var all := journal.OpenItems(key);
    var out := DrainPositions(all.value, PositionOfItem(), limits);
    return Ok(out);
  }

  /** The statement of a key drained through pages of any size. */
  method WholeStatement(journal: Journal, key: BalanceKey, limits: nat -> nat)
    returns (r: Result<seq<StatementLine>, JournalError>)
    requires journal.Valid()
    ensures forall s :: s in SitesOn(journal.entries, key) ==> Resolves(journal.entries, s)
    ensures r.Ok? && |r.value| == |SitesOn(journal.entries, key)|
    ensures forall i :: 0 <= i < |r.value| ==> LineAt(r.value[i], journal.entries, SitesOn(journal.entries, key)[i])
  {
    hide Journal.Valid, SitesOn, LineAt;
    var all := journal.Statement(key);
    LinesOrdered(journal.entries, key, all.value);
    var out := DrainPositions(all.value, PositionOfLine(), limits);
    return Ok(out);
  }

  // ------------------------------------------------ draining while the ledger moves on

  /** What is open on a key in a state of the ledger. */
  function OpenItemsIn(l: Ledger, key: BalanceKey): seq<OpenItem>
  {
    SitesOnFacts(l.entries, key);
    OpenOf(Candidates(l.entries, SitesOn(l.entries, key)), LookupOf(l.entries), ActiveOf(l.events, l.resets))
  }

  /**
   Draining open items while the ledger moves on, so that each page may be read in another
   state. Nothing comes twice and the order is log order; each item was open when its page was
   read; and when the drain is done, whatever was open throughout has been listed.
   */
  method AllOpenItemsMeanwhile(states: seq<Ledger>, key: BalanceKey, limits: nat -> nat)
    returns (out: seq<OpenItem>, pages: nat, done: bool)
    ensures pages <= |states| && (done ==> pages > 0) && (!done ==> pages == |states|)
    ensures Positioned(out, PositionOfItem())
    ensures forall item :: item in out ==> exists i :: 0 <= i < pages && item in OpenItemsIn(states[i], key)
    ensures done ==> forall s: Site ::
      (forall i :: 0 <= i < pages ==> Shows(OpenItemsIn(states[i], key), PositionOfItem(), s)) ==>
      Shows(out, PositionOfItem(), s)
  {
    hide OpenItemsIn, Covers, FromReads;
    var lists := seq(|states|, i requires 0 <= i < |states| => OpenItemsIn(states[i], key));
    forall i | 0 <= i < |lists|
      ensures Positioned(lists[i], PositionOfItem())
    {
      OpenItemsPositioned(states[i], key);
    }
    out, pages, done := DrainReads(lists, PositionOfItem(), limits);
    ListedFrom(out, lists[..pages]);
    if done {
      ListedThroughout(out, lists[..pages], PositionOfItem());
    }
  }

  lemma OpenItemsPositioned(l: Ledger, key: BalanceKey)
    ensures Positioned(OpenItemsIn(l, key), PositionOfItem())
  {
    hide SitesOn, OpenOf;
    SitesCandidates(l.entries, key);
    OpenItemsOrdered(Candidates(l.entries, SitesOn(l.entries, key)), LookupOf(l.entries), ActiveOf(l.events, l.resets));
  }

  lemma ListedFrom(out: seq<OpenItem>, lists: seq<seq<OpenItem>>)
    requires FromReads(out, lists)
    ensures forall x :: x in out ==> exists i :: 0 <= i < |lists| && x in lists[i]
  {
  }

  lemma ListedThroughout(out: seq<OpenItem>, lists: seq<seq<OpenItem>>, position: OpenItem -> Site)
    requires Covers(out, lists, position, true)
    ensures forall s: Site :: (forall i :: 0 <= i < |lists| ==> Shows(lists[i], position, s)) ==> Shows(out, position, s)
  {
    hide Shows;
    forall s: Site | forall i :: 0 <= i < |lists| ==> Shows(lists[i], position, s)
      ensures Shows(out, position, s)
    {
      assert Throughout(lists, position, s);
    }
  }

  /** The statement line of a site. */
  function LineOf(es: seq<Entry>, s: Site): StatementLine
    requires Resolves(es, s)
  {
    var e, p := es[s.index], PostingAt(es, s);
    StatementLine(s.index, PostingRef(e.id, s.posting), e.bookingDate, p.direction, p.amount,
      Sum(Flat(es[..s.index]) + e.postings[..s.posting + 1], p.Key()), e.kind)
  }

  /** The statement of a key over some entries. */
  function LinesOf(es: seq<Entry>, key: BalanceKey): (lines: seq<StatementLine>)
    ensures |lines| == |SitesOn(es, key)|
  {
    SitesOnFacts(es, key);
    var sites := SitesOn(es, key);
    seq(|sites|, i requires 0 <= i < |sites| && Resolves(es, sites[i]) => LineOf(es, sites[i]))
  }

  lemma LinesAre(es: seq<Entry>, key: BalanceKey)
    ensures forall s :: s in SitesOn(es, key) ==> Resolves(es, s)
    ensures forall i :: 0 <= i < |LinesOf(es, key)| ==> LineAt(LinesOf(es, key)[i], es, SitesOn(es, key)[i])
  {
    hide SitesOn, Sum, Flat;
    SitesOnFacts(es, key);
  }

  /** As the log grows a statement only gets longer: no line of it ever changes. */
  lemma LinesGrow(es: seq<Entry>, later: seq<Entry>, key: BalanceKey)
    requires es <= later
    ensures LinesOf(es, key) <= LinesOf(later, key)
  {
    hide SitesOn, Sum, Flat;
    assert later[..|es|] == es;
    SitesPrefix(later, |es|, key);
    SitesOnFacts(es, key);
    SitesOnFacts(later, key);
    forall i | 0 <= i < |SitesOn(es, key)|
      ensures LinesOf(es, key)[i] == LinesOf(later, key)[i]
    {
      var s := SitesOn(es, key)[i];
      assert SitesOn(later, key)[i] == s && s in SitesOn(es, key);
      assert later[..s.index] == es[..s.index] && later[s.index] == es[s.index];
    }
  }

  /**
   Draining a statement while the log grows between pages: when the drain is done, it is the
   whole statement as of the last page read.
   */
  method StatementMeanwhile(logs: seq<seq<Entry>>, key: BalanceKey, limits: nat -> nat)
    returns (out: seq<StatementLine>, pages: nat, done: bool)
    requires forall i :: 0 < i < |logs| ==> logs[i - 1] <= logs[i]
    ensures pages <= |logs| && (done ==> pages > 0) && (!done ==> pages == |logs|)
    ensures done ==> out == LinesOf(logs[pages - 1], key)
  {
    hide LinesOf, Covers, FromReads;
    var lists := seq(|logs|, i requires 0 <= i < |logs| => LinesOf(logs[i], key));
    forall i | 0 <= i < |lists|
      ensures Positioned(lists[i], PositionOfLine())
    {
      LinesAre(logs[i], key);
      LinesOrdered(logs[i], key, LinesOf(logs[i], key));
    }
    out, pages, done := DrainReads(lists, PositionOfLine(), limits);
    forall i | 0 < i < pages
      ensures lists[..pages][i - 1] <= lists[..pages][i]
    {
      LinesGrow(logs[i - 1], logs[i], key);
    }
    assert Growing(lists[..pages]);
  }
}

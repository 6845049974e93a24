/**
 Pages of a list, and draining them.

 A cursor names the last element seen, not an offset: entries by their log index, postings
 by where they sit. Whatever limits a reader asks for along the way, the pages joined
 together are the whole list, each element once and in order.
 */
module Paging {
  import opened Wrappers
  import opened Books

  const DEFAULT_PAGE_SIZE: nat := 256
  const MAX_PAGE_SIZE: nat := 4096

  datatype Cursor<+P> = Cursor(after: Option<P>, limit: nat)
  {
    /** The limit asked for, clamped to a page and never zero. */
    function EffectiveLimit(): (n: nat)
      ensures 1 <= n <= 4096
      ensures 1 <= limit <= 4096 ==> n == limit
      ensures limit == 0 ==> n == 1
      ensures limit > 4096 ==> n == 4096
    {
      if limit < 1 then 1 else if limit > MAX_PAGE_SIZE then MAX_PAGE_SIZE else limit
    }
  }

  /** Where a page that starts at `start` ends. */
  function PageEnd(start: nat, limit: nat, len: nat): nat
    requires start <= len
  {
    if start + limit < len then start + limit else len
  }

  // ------------------------------------------------------------ by log index

  /** Where a cursor over the log resumes. */
  function Resume(after: Option<nat>, len: nat): (start: nat)
    ensures start <= len
  {
    if after.None? then 0 else if after.value + 1 < len then after.value + 1 else len
  }

  /** One page of the log, each record with its index. */
  method EntryPage<T>(es: seq<T>, cursor: Cursor<nat>) returns (records: seq<(nat, T)>, next: Option<Cursor<nat>>)
    ensures var start := Resume(cursor.after, |es|); var end := PageEnd(start, cursor.EffectiveLimit(), |es|);
      && |records| == end - start
      && (forall j :: 0 <= j < |records| ==> records[j] == (start + j, es[start + j]))
      && (next.Some? <==> start < end < |es|)
      && (next.Some? ==> next.value == Cursor(Some(end - 1), cursor.limit))
    ensures forall j :: 0 <= j < |records| ==>
      records[j].0 == (if cursor.after.Some? then cursor.after.value + 1 else 0) + j < |es| && records[j].1 == es[records[j].0]
    ensures |records| < cursor.EffectiveLimit() ==>
      (if cursor.after.Some? then cursor.after.value + 1 else 0) + |records| >= |es|
    ensures |records| <= cursor.EffectiveLimit()
  {
    var start := Resume(cursor.after, |es|);
    var limit := cursor.EffectiveLimit();
    records := [];
    while start + |records| < |es| && |records| < limit
      invariant start + |records| <= |es| && |records| <= limit
      invariant forall j :: 0 <= j < |records| ==> records[j] == (start + j, es[start + j])
      decreases |es| - |records|
    {
      records := records + [(start + |records|, es[start + |records|])];
    }
    next := if records != [] && start + |records| < |es|
      then Some(Cursor(Some(records[|records| - 1].0), cursor.limit)) else None;
  }

  /** Joining the pages of a log, with any limit for each page, gives the log. */
  method DrainEntries<T>(es: seq<T>, limits: nat -> nat) returns (out: seq<T>)
    ensures out == es
  {
    out := [];
    var cursor: Option<Cursor<nat>> := Some(Cursor(None, limits(0)));
    var pages := 0;
    while cursor.Some?
      invariant |out| <= |es| && out == es[..|out|]
      invariant if cursor.Some? then Resume(cursor.value.after, |es|) == |out| && (|out| < |es| || |es| == 0)
        else out == es
      decreases |es| - |out|, if cursor.Some? then 1 else 0
    {
      var records, next := EntryPage(es, cursor.value);
      if records == [] {
        break;
      }
      ghost var before := |out|;
      var items := seq(|records|, j requires 0 <= j < |records| => records[j].1);
      assert items == es[before..before + |items|];
      assert es[..before + |items|] == es[..before] + es[before..before + |items|];
      out := out + items;
      pages := pages + 1;
      cursor := if next.Some? then Some(Cursor(next.value.after, limits(pages))) else None;
    }
  }

  // ------------------------------------------------------------- by position

  /** The position each element sits at is after that of the one before. */
  ghost predicate Positioned<T>(all: seq<T>, position: T -> Site)
  {
    forall i, j :: 0 <= i < j < |all| ==> position(all[i]).Before(position(all[j]))
  }

  /** The first element past a position. */
  function FirstPast<T>(all: seq<T>, position: T -> Site, after: Site, from: nat): (n: nat)
    requires from <= |all|
    ensures from <= n <= |all|
    ensures forall i :: from <= i < n ==> !after.Before(position(all[i]))
    ensures n < |all| ==> after.Before(position(all[n]))
    decreases |all| - from
  {
    if from == |all| || after.Before(position(all[from])) then from else FirstPast(all, position, after, from + 1)
  }

  /** One page of a positioned list, resuming after a position. */
  method PositionPage<T>(all: seq<T>, position: T -> Site, cursor: Cursor<Site>)
    returns (items: seq<T>, next: Option<Cursor<Site>>)
    ensures var start := if cursor.after.None? then 0 else FirstPast(all, position, cursor.after.value, 0);
      var end := PageEnd(start, cursor.EffectiveLimit(), |all|);
      && items == all[start..end]
      && (next.Some? <==> start < end < |all|)
      && (next.Some? ==> next.value == Cursor(Some(position(all[end - 1])), cursor.limit))
    ensures |items| <= cursor.EffectiveLimit()
    ensures Positioned(all, position) ==> forall item :: item in items ==>
      item in all && (cursor.after.Some? ==> cursor.after.value.Before(position(item)))
    ensures Positioned(all, position) && |items| < cursor.EffectiveLimit() ==> forall item ::
      item in all && (cursor.after.Some? ==> cursor.after.value.Before(position(item))) ==> item in items
  {
    var start := if cursor.after.None? then 0 else FirstPast(all, position, cursor.after.value, 0);
    var end := PageEnd(start, cursor.EffectiveLimit(), |all|);
    items := all[start..end];
    next := if items != [] && start + |items| < |all|
      then Some(Cursor(Some(position(items[|items| - 1])), cursor.limit)) else None;
  }

  /** A page that ended inside an entry is resumed inside it: the next page starts right after. */
  lemma ResumesAfter<T>(all: seq<T>, position: T -> Site, n: nat)
    requires Positioned(all, position) && n < |all|
    ensures FirstPast(all, position, position(all[n]), 0) == n + 1
  {
    forall i | 0 <= i <= n
      ensures !position(all[n]).Before(position(all[i]))
    {
      if i < n {
        assert position(all[i]).Before(position(all[n]));
      }
    }
    if n + 1 < |all| {
      assert position(all[n]).Before(position(all[n + 1]));
    }
  }

  /** Joining the pages of a positioned list, with any limit for each page, gives the list. */
  method DrainPositions<T>(all: seq<T>, position: T -> Site, limits: nat -> nat) returns (out: seq<T>)
    requires Positioned(all, position)
    ensures out == all
  {
    hide Positioned, Site.Before, FirstPast;
    out := [];
    var cursor: Option<Cursor<Site>> := Some(Cursor(None, limits(0)));
    var pages := 0;
    while cursor.Some?
      invariant |out| <= |all| && out == all[..|out|]
      invariant match cursor
        case None => out == all
        case Some(c) => if c.after.None? then out == [] else 0 < |out| < |all| && c.after.value == position(all[|out| - 1])
      decreases |all| - |out|, if cursor.Some? then 1 else 0
    {
      var items, next := PositionPage(all, position, cursor.value);
      if |out| > 0 {
        ResumesAfter(all, position, |out| - 1);
      }
      if items == [] {
        break;
      }
      ghost var before := |out|;
      assert items == all[before..before + |items|];
      assert all[..before + |items|] == all[..before] + all[before..before + |items|];
      out := out + items;
      pages := pages + 1;
      cursor := if next.Some? then Some(Cursor(next.value.after, limits(pages))) else None;
    }
  }

  // ------------------------------------------------ pages of a list that changes

  /** The list has an element at a position. */
  ghost predicate Shows<T(!new)>(list: seq<T>, position: T -> Site, s: Site)
  {
    exists x :: x in list && position(x) == s
  }

  /** Every read has an element at a position. */
  ghost predicate Throughout<T(!new)>(lists: seq<seq<T>>, position: T -> Site, s: Site)
  {
    forall i :: 0 <= i < |lists| ==> Shows(lists[i], position, s)
  }

  /** Each read only adds to the end of the one before. */
  ghost predicate Growing<T>(lists: seq<seq<T>>)
  {
    forall i :: 0 < i < |lists| ==> lists[i - 1] <= lists[i]
  }

  /** A position is not past the last element listed, if there is one. */
  ghost predicate Reached<T>(out: seq<T>, position: T -> Site, s: Site)
  {
    out != [] && !position(out[|out| - 1]).Before(s)
  }

  /** What is in every read and has been reached is listed. */
  ghost predicate Covers<T(!new)>(out: seq<T>, lists: seq<seq<T>>, position: T -> Site, all: bool)
  {
    forall s: Site :: Throughout(lists, position, s) && (all || Reached(out, position, s)) ==> Shows(out, position, s)
  }

  ghost predicate FromReads<T>(out: seq<T>, lists: seq<seq<T>>)
  {
    forall x :: x in out ==> exists i :: 0 <= i < |lists| && x in lists[i]
  }

  function StartOf<T>(list: seq<T>, position: T -> Site, after: Option<Site>): (start: nat)
    ensures start <= |list|
  {
    if after.None? then 0 else FirstPast(list, position, after.value, 0)
  }

  /** A page joined to what has been listed keeps the order. */
  lemma PageFollows<T>(out: seq<T>, list: seq<T>, position: T -> Site, after: Option<Site>, end: nat)
    requires Positioned(out, position) && Positioned(list, position)
    requires if out == [] then after == None else after == Some(position(out[|out| - 1]))
    requires StartOf(list, position, after) <= end <= |list|
    ensures Positioned(out + list[StartOf(list, position, after)..end], position)
  {
    var start := StartOf(list, position, after);
    var items := list[start..end];
    if out != [] {
      forall i | 0 <= i < |items|
        ensures position(out[|out| - 1]).Before(position(items[i]))
      {
        assert items[i] == list[start + i];
      }
      forall i, j | 0 <= i < |out| && 0 <= j < |items|
        ensures position(out[i]).Before(position(items[j]))
      {
        assert position(out[|out| - 1]).Before(position(items[j]));
      }
    }
  }

  /** And keeps covered what every read has. */
  lemma PageCovers<T(!new)>(out: seq<T>, lists: seq<seq<T>>, list: seq<T>, position: T -> Site, after: Option<Site>, end: nat)
    requires Positioned(list, position) && Covers(out, lists, position, false)
    requires if out == [] then after == None else after == Some(position(out[|out| - 1]))
    requires StartOf(list, position, after) <= end <= |list|
    requires end == StartOf(list, position, after) ==> end == |list|
    ensures Covers(out + list[StartOf(list, position, after)..end], lists + [list], position, end == |list|)
  {
    var start := StartOf(list, position, after);
    var items := list[start..end];
    var later := out + items;
    forall s: Site | Throughout(lists + [list], position, s) && (end == |list| || Reached(later, position, s))
      ensures Shows(later, position, s)
    {
      assert (lists + [list])[|lists|] == list;
      assert Throughout(lists, position, s) by {
        forall i | 0 <= i < |lists|
          ensures Shows(lists[i], position, s)
        {
          assert (lists + [list])[i] == lists[i];
        }
      }
      var x :| x in list && position(x) == s;
      var i :| 0 <= i < |list| && list[i] == x;
      if i < start {
        assert Reached(out, position, s);
        var y :| y in out && position(y) == s;
        assert y in later;
      } else {
        BeforeEnd(list, position, start, end, i, later, s);
        assert items[i - start] == x;
        assert x in later;
      }
    }
  }

  /** An element past the page stands after everything listed, so it has not been reached. */
  lemma BeforeEnd<T>(list: seq<T>, position: T -> Site, start: nat, end: nat, i: nat, later: seq<T>, s: Site)
    requires Positioned(list, position) && start <= end <= |list| && start <= i < |list| && position(list[i]) == s
    requires end == |list| || (end > start && later != [] && later[|later| - 1] == list[end - 1] && Reached(later, position, s))
    ensures i < end
  {
    if end < |list| {
      forall k | end <= k < |list|
        ensures position(list[end - 1]).Before(position(list[k]))
      {
      }
    }
  }

  lemma FromMore<T>(out: seq<T>, lists: seq<seq<T>>, list: seq<T>, items: seq<T>)
    requires FromReads(out, lists) && forall x :: x in items ==> x in list
    ensures FromReads(out + items, lists + [list])
  {
    forall x | x in out + items
      ensures exists i :: 0 <= i < |lists + [list]| && x in (lists + [list])[i]
    {
      if x in out {
        var i :| 0 <= i < |lists| && x in lists[i];
        assert x in (lists + [list])[i];
      } else {
        assert x in (lists + [list])[|lists|];
      }
    }
  }

  /**
   Draining a list that is read again for every page, as it may have changed since. No position
   comes twice and the order is kept; every element was in the list when its page was read; and
   once the drain is done, whatever position was in every read is there. If reads only add to
   the end, what comes out is the last read.
   */
  method DrainReads<T(!new)>(lists: seq<seq<T>>, position: T -> Site, limits: nat -> nat)
    returns (out: seq<T>, pages: nat, done: bool)
    requires forall i :: 0 <= i < |lists| ==> Positioned(lists[i], position)
    ensures pages <= |lists| && (done ==> pages > 0) && (!done ==> pages == |lists|)
    ensures Positioned(out, position) && FromReads(out, lists[..pages]) && Covers(out, lists[..pages], position, done)
    ensures Growing(lists[..pages]) && done ==> out == lists[pages - 1]
  {
    hide Positioned, Draining, Covers, FromReads, Growing, StartOf;
    out, pages := [], 0;
    var cursor: Option<Cursor<Site>> := Some(Cursor(None, limits(0)));
    DrainStarts(position, limits(0));
    assert lists[..0] == [];
    while cursor.Some? && pages < |lists|
      invariant pages <= |lists| && (cursor.None? ==> pages > 0)
      invariant Draining(out, lists[..pages], position, cursor)
      decreases |lists| - pages
    {
      var items, next := ReadPage(lists[pages], position, cursor.value);
      assert lists[..pages + 1] == lists[..pages] + [lists[pages]];
      DrainStep(out, lists[..pages], lists[pages], position, cursor.value, items, next, limits(pages + 1));
      out := out + items;
      pages := pages + 1;
      cursor := if next.Some? then Some(Cursor(next.value.after, limits(pages))) else None;
    }
    done := cursor.None?;
    DrainEnds(out, lists[..pages], position, cursor);
  }

  /** What holds of what has been listed after some reads. */
  ghost predicate Draining<T(!new)>(out: seq<T>, lists: seq<seq<T>>, position: T -> Site, cursor: Option<Cursor<Site>>)
  {
    && Positioned(out, position) && FromReads(out, lists) && Covers(out, lists, position, cursor.None?)
    && (cursor.Some? ==> cursor.value.after == if out == [] then None else Some(position(out[|out| - 1])))
    && (lists == [] ==> out == [] && cursor.Some?)
    && (Growing(lists) && lists != [] ==>
          out <= lists[|lists| - 1] && (cursor.None? ==> out == lists[|lists| - 1]))
  }

  lemma DrainStarts<T(!new)>(position: T -> Site, limit: nat)
    ensures Draining([], [], position, Some(Cursor(None, limit)))
  {
  }

  lemma DrainStep<T(!new)>(out: seq<T>, lists: seq<seq<T>>, list: seq<T>, position: T -> Site, cursor: Cursor<Site>,
    items: seq<T>, next: Option<Cursor<Site>>, limit: nat)
    requires Positioned(list, position) && Draining(out, lists, position, Some(cursor))
    requires PageAt(list, position, cursor, items, next)
    ensures Draining(out + items, lists + [list], position,
      if next.Some? then Some(Cursor(next.value.after, limit)) else None)
  {
    hide Positioned, Covers, FromReads, StartOf, Growing;
    var end := StartOf(list, position, cursor.after) + |items|;
    PageFollows(out, list, position, cursor.after, end);
    PageCovers(out, lists, list, position, cursor.after, end);
    FromMore(out, lists, list, items);
    if Growing(lists + [list]) {
      GrowsOn(lists, list);
      PageExtends(out, list, position, cursor.after, end);
    }
  }

  lemma GrowsOn<T>(lists: seq<seq<T>>, list: seq<T>)
    requires Growing(lists + [list])
    ensures Growing(lists) && (lists != [] ==> lists[|lists| - 1] <= list)
  {
    var more := lists + [list];
    forall i | 0 < i < |lists|
      ensures lists[i - 1] <= lists[i]
    {
      assert more[i - 1] <= more[i];
    }
    if lists != [] {
      assert more[|lists| - 1] <= more[|lists|];
    }
  }

  lemma DrainEnds<T(!new)>(out: seq<T>, lists: seq<seq<T>>, position: T -> Site, cursor: Option<Cursor<Site>>)
    requires Draining(out, lists, position, cursor)
    ensures Positioned(out, position) && FromReads(out, lists) && Covers(out, lists, position, cursor.None?)
    ensures Growing(lists) && lists != [] && cursor.None? ==> out == lists[|lists| - 1]
  {
    hide Positioned, Covers, FromReads, Growing;
  }

  /** A page of a list: what follows the cursor, and where to resume unless that was the end. */
  ghost predicate PageAt<T(!new)>(list: seq<T>, position: T -> Site, cursor: Cursor<Site>, items: seq<T>, next: Option<Cursor<Site>>)
  {
    var start := StartOf(list, position, cursor.after);
    var end := start + |items|;
    && end <= |list| && items == list[start..end] && (end == start ==> end == |list|)
    && (next.None? <==> end == |list|)
    && (next.Some? ==> items != [] && next.value.after == Some(position(items[|items| - 1])))
    && forall x :: x in items ==> x in list
  }

  method ReadPage<T(!new)>(list: seq<T>, position: T -> Site, cursor: Cursor<Site>) returns (items: seq<T>, next: Option<Cursor<Site>>)
    ensures PageAt(list, position, cursor, items, next)
  {
    items, next := PositionPage(list, position, cursor);
  }

  /** Where the list only grew, the page goes on where what is listed ends. */
  lemma PageExtends<T>(out: seq<T>, list: seq<T>, position: T -> Site, after: Option<Site>, end: nat)
    requires Positioned(list, position) && out <= list
    requires after == if out == [] then None else Some(position(out[|out| - 1]))
    requires StartOf(list, position, after) <= end <= |list|
    ensures StartOf(list, position, after) == |out|
    ensures out + list[StartOf(list, position, after)..end] == list[..end]
  {
    if out != [] {
      assert out[|out| - 1] == list[|out| - 1];
      ResumesAfter(list, position, |out| - 1);
    }
    assert out == list[..|out|];
  }
}

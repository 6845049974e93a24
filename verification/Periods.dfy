/**
 Accounting periods, their lifecycle, and the sealed watermark.

 `Calendar` is the calendar as a plain table with a watermark, and its questions are
 answered by scanning the whole table. The class answers them through an index by
 start date, looking at no more than two neighbours.
 */
module Periods {
  import opened Wrappers
  import opened Canonical
  import opened Entries
  import opened OrderedMaps

  type PeriodId = Text

  datatype PeriodState = Open | Closing | Sealed

  datatype Period = Period(id: PeriodId, start: Date, end: Date, state: PeriodState)
  {
    predicate Contains(date: Date)
    {
      start <= date <= end
    }

    predicate Overlaps(other: Period)
    {
      start <= other.end && other.start <= end
    }
  }

  datatype PeriodError =
    | EndBeforeStart(id: PeriodId, start: Date, end: Date)
    | Overlap(id: PeriodId, existing: PeriodId)
    | Duplicate(id: PeriodId)
    | Unknown(id: PeriodId)
    | InvalidTransition(id: PeriodId, from: PeriodState, to: PeriodState)
    | NotClosing(id: PeriodId, state: PeriodState)
    | SealedOutOfOrder(id: PeriodId, ends: Date, sealedThrough: Date)
    | UnsealedPredecessor(id: PeriodId, predecessor: PeriodId, state: PeriodState)

  /** Creates an open period, or refuses an inverted range. */
  function NewPeriod(id: PeriodId, start: Date, end: Date): (r: Result<Period, PeriodError>)
    ensures r.Ok? <==> start <= end
    ensures r.Ok? ==> r.value.id == id && r.value.start == start && r.value.end == end && r.value.state == Open
    ensures r.Ok? ==> forall d: Date :: r.value.Contains(d) <==> start <= d <= end
    ensures r.Err? ==> r.error == EndBeforeStart(id, start, end)
  {
    if end < start then Err(EndBeforeStart(id, start, end)) else Ok(Period(id, start, end, Open))
  }

  datatype Calendar = Calendar(periods: map<PeriodId, Period>, sealedThrough: Option<Date>)
  {
    /** Periods are filed under their own identifiers, are not inverted, and are disjoint; no
        sealed period reaches past the watermark. */
    ghost predicate WellFormed()
    {
      && (forall id :: id in periods ==> periods[id].id == id && periods[id].start <= periods[id].end)
      && (forall p, q :: p in periods && q in periods && p != q ==> !periods[p].Overlaps(periods[q]))
      && (forall id :: id in periods && periods[id].state == Sealed ==> FrozenOn(periods[id].end))
    }

    /** A date at or before the watermark. */
    predicate FrozenOn(date: Date)
    {
      sealedThrough.Some? && date <= sealedThrough.value
    }

    /** The watermark is the last day of some sealed period, or there is none of either. */
    ghost predicate WatermarkExact()
    {
      if sealedThrough.None? then forall id :: id in periods ==> periods[id].state != Sealed
      else exists id :: id in periods && periods[id].state == Sealed && periods[id].end == sealedThrough.value
    }

    /**
     Whether the watermark is exact once a period is filed: the period is sealed and reaches it,
     or it was exact already and is not the last day of the period being replaced.
     */
    ghost predicate StaysExact(p: Period)
    {
      || (p.state == Sealed && (sealedThrough.Some? ==> sealedThrough.value <= p.end))
      || (WatermarkExact() && (p.id in periods ==> sealedThrough != Some(p.end)))
    }

    /** The state governing a date, by scanning every period. */
    ghost function StateOn(date: Date): PeriodState
    {
      if FrozenOn(date) then Sealed
      else if exists id :: id in periods && periods[id].Contains(date) then
        var id :| id in periods && periods[id].Contains(date); periods[id].state
      else Open
    }

    /** What sealing a period next takes. */
    ghost predicate Sealable(id: PeriodId)
    {
      && id in periods
      && periods[id].state == Closing
      && (forall q :: q in periods && periods[q].start < periods[id].start ==> periods[q].state == Sealed)
      && !FrozenOn(periods[id].end)
    }

    /** Why a period cannot be filed: its identifier is taken, or it meets others, the earliest of which is named. */
    ghost predicate DefineRefused(p: Period, error: PeriodError)
    {
      if p.id in periods then error == Duplicate(p.id)
      else
        && error.Overlap? && error.id == p.id
        && error.existing in periods && periods[error.existing].Overlaps(p)
        && forall q :: q in periods && periods[q].Overlaps(p) ==> periods[error.existing].start <= periods[q].start
    }

    /** A period that starts before a day and is not sealed. */
    predicate UnsealedBefore(id: PeriodId, day: Date)
    {
      id in periods && periods[id].start < day && periods[id].state != Sealed
    }

    /** The first reason a period cannot be sealed; of several unsealed predecessors, the earliest. */
    ghost predicate SealRefused(id: PeriodId, error: PeriodError)
    {
      if id !in periods then error == Unknown(id)
      else if periods[id].state != Closing then error == NotClosing(id, periods[id].state)
      else if exists q :: UnsealedBefore(q, periods[id].start) then
        && error.UnsealedPredecessor? && error.id == id
        && UnsealedBefore(error.predecessor, periods[id].start)
        && error.state == periods[error.predecessor].state
        && forall q :: UnsealedBefore(q, periods[id].start) ==> periods[error.predecessor].start <= periods[q].start
      else FrozenOn(periods[id].end) && error == SealedOutOfOrder(id, periods[id].end, sealedThrough.value)
    }

    /** The watermark after a period with this state is filed. */
    function Marked(p: Period): Calendar
    {
      if p.state == Sealed && !FrozenOn(p.end) then this.(sealedThrough := Some(p.end)) else this
    }

    function Filed(p: Period): Calendar
    {
      Marked(p).(periods := periods[p.id := p])
    }

    /** A later calendar whose watermark has not moved back and which moved no boundary. */
    ghost predicate AdvancesTo(later: Calendar)
    {
      && (forall date: Date :: FrozenOn(date) ==> later.FrozenOn(date))
      && (forall id :: id in periods ==>
            id in later.periods && later.periods[id].start == periods[id].start && later.periods[id].end == periods[id].end)
    }
  }

  predicate Permitted(from: PeriodState, to: PeriodState)
  {
    (from == Open && to == Closing) || (from == Closing && to == Sealed) || (from == Closing && to == Open)
  }

  /** Two ranges overlap exactly when some day lies in both. */
  lemma OverlapsIsSharedDay(a: Period, b: Period)
    requires a.start <= a.end && b.start <= b.end
    ensures a.Overlaps(b) <==> exists d: Date :: a.Contains(d) && b.Contains(d)
  {
    if a.Overlaps(b) {
      var d: Date := if a.start <= b.start then b.start else a.start;
      assert a.Contains(d) && b.Contains(d);
    }
  }

  /** A calendar is well formed exactly when no day has two periods and no sealed period is past the watermark. */
  lemma WellFormedInDays(c: Calendar)
    ensures c.WellFormed() <==>
      (forall id :: id in c.periods ==> c.periods[id].id == id && c.periods[id].start <= c.periods[id].end)
      && (forall p, q, d: Date ::
            p in c.periods && q in c.periods && c.periods[p].Contains(d) && c.periods[q].Contains(d) ==> p == q)
      && (forall id, d: Date :: id in c.periods && c.periods[id].state == Sealed && c.periods[id].Contains(d) ==>
            c.sealedThrough.Some? && d <= c.sealedThrough.value)
  {
    if forall id :: id in c.periods ==> c.periods[id].start <= c.periods[id].end {
      forall p, q | p in c.periods && q in c.periods
        ensures c.periods[p].Overlaps(c.periods[q]) <==>
          exists d: Date :: c.periods[p].Contains(d) && c.periods[q].Contains(d)
      {
        OverlapsIsSharedDay(c.periods[p], c.periods[q]);
      }
      forall id | id in c.periods
        ensures c.periods[id].Contains(c.periods[id].end)
      {
      }
    }
  }

  /** A range meets no period filed exactly when no day of it belongs to one. */
  lemma MeetingIsSharedDay(c: Calendar, p: Period)
    requires c.WellFormed() && p.start <= p.end
    ensures (forall id :: id in c.periods ==> !c.periods[id].Overlaps(p)) <==>
      (forall id, d: Date :: id in c.periods && c.periods[id].Contains(d) ==> !p.Contains(d))
  {
    forall id | id in c.periods
      ensures c.periods[id].Overlaps(p) <==> exists d: Date :: c.periods[id].Contains(d) && p.Contains(d)
    {
      OverlapsIsSharedDay(c.periods[id], p);
    }
  }

  /** The reason a period is refused, in days: its identifier is taken, or it shares one with the period named, the earliest such. */
  lemma RefusedInDays(c: Calendar, p: Period, error: PeriodError)
    requires c.WellFormed() && p.start <= p.end
    ensures c.DefineRefused(p, error) <==>
      if p.id in c.periods then error == Duplicate(p.id)
      else
        && error.Overlap? && error.id == p.id && error.existing in c.periods
        && (exists d: Date :: c.periods[error.existing].Contains(d) && p.Contains(d))
        && forall q, d: Date :: q in c.periods && c.periods[q].Contains(d) && p.Contains(d) ==>
             c.periods[error.existing].start <= c.periods[q].start
  {
    forall id | id in c.periods
      ensures c.periods[id].Overlaps(p) <==> exists d: Date :: c.periods[id].Contains(d) && p.Contains(d)
    {
      OverlapsIsSharedDay(c.periods[id], p);
    }
  }

  /** A period may be sealed exactly when no reason against it can be given. */
  lemma SealableIs(c: Calendar, id: PeriodId)
    ensures c.Sealable(id) <==> forall error :: !c.SealRefused(id, error)
    ensures c.Sealable(id) ==>
      id in c.periods && c.periods[id].state == Closing
      && (c.sealedThrough.Some? ==> c.sealedThrough.value < c.periods[id].end)
      && forall q :: q in c.periods && c.periods[q].start < c.periods[id].start ==> c.periods[q].state == Sealed
  {
    if id !in c.periods {
      assert c.SealRefused(id, Unknown(id));
    } else if c.periods[id].state != Closing {
      assert c.SealRefused(id, NotClosing(id, c.periods[id].state));
    } else if exists q :: c.UnsealedBefore(q, c.periods[id].start) {
      var q := EarliestUnsealed(c, c.periods.Keys, c.periods[id].start);
      assert c.SealRefused(id, UnsealedPredecessor(id, q, c.periods[q].state));
    } else {
      assert c.FrozenOn(c.periods[id].end) ==>
        c.SealRefused(id, SealedOutOfOrder(id, c.periods[id].end, c.sealedThrough.value));
      forall q | q in c.periods && c.periods[q].start < c.periods[id].start
        ensures c.periods[q].state == Sealed
      {
        assert !c.UnsealedBefore(q, c.periods[id].start);
      }
    }
  }

  /** Of the periods before a day that are not sealed, the one that starts first. */
  lemma {:induction false} EarliestUnsealed(c: Calendar, ids: set<PeriodId>, day: Date) returns (q: PeriodId)
    requires ids <= c.periods.Keys && exists p :: p in ids && c.UnsealedBefore(p, day)
    ensures c.UnsealedBefore(q, day)
    ensures forall p :: p in ids && c.UnsealedBefore(p, day) ==> c.periods[q].start <= c.periods[p].start
  {
    var p :| p in ids && c.UnsealedBefore(p, day);
    var rest := ids - {p};
    if exists o :: o in rest && c.UnsealedBefore(o, day) {
      var least := EarliestUnsealed(c, rest, day);
      q := if c.periods[p].start <= c.periods[least].start then p else least;
    } else {
      q := p;
    }
  }

  /** Each reason a period cannot be sealed is given exactly when it is the first that applies. */
  lemma SealRefusalIs(c: Calendar, id: PeriodId, error: PeriodError)
    requires c.SealRefused(id, error)
    ensures !c.Sealable(id) && error.id == id
    ensures error.Unknown? <==> id !in c.periods
    ensures error.NotClosing? <==> id in c.periods && c.periods[id].state != Closing
    ensures error.UnsealedPredecessor? <==>
      id in c.periods && c.periods[id].state == Closing
      && exists q :: q in c.periods && c.periods[q].start < c.periods[id].start && c.periods[q].state != Sealed
    ensures error.SealedOutOfOrder? <==>
      id in c.periods && c.periods[id].state == Closing
      && forall q :: q in c.periods && c.periods[q].start < c.periods[id].start ==> c.periods[q].state == Sealed
    ensures error.NotClosing? ==> error.state == c.periods[id].state
    ensures error.UnsealedPredecessor? ==>
      error.predecessor in c.periods && error.state == c.periods[error.predecessor].state != Sealed
      && c.periods[error.predecessor].start < c.periods[id].start
      && forall q :: q in c.periods && c.periods[q].state != Sealed ==>
           c.periods[error.predecessor].start <= c.periods[q].start
    ensures error.SealedOutOfOrder? ==>
      c.sealedThrough.Some? && error == SealedOutOfOrder(id, c.periods[id].end, c.sealedThrough.value)
      && c.periods[id].end <= c.sealedThrough.value
  {
    if id in c.periods && c.periods[id].state == Closing {
      forall q | q in c.periods
        ensures c.UnsealedBefore(q, c.periods[id].start) <==>
          c.periods[q].start < c.periods[id].start && c.periods[q].state != Sealed
      {
      }
    }
  }

  /** Advancing moves no boundary, drops no period, and never takes the watermark back. */
  lemma AdvancesIs(c: Calendar, later: Calendar)
    ensures c.AdvancesTo(later) <==>
      (c.sealedThrough.Some? ==> later.sealedThrough.Some? && c.sealedThrough.value <= later.sealedThrough.value)
      && forall id :: id in c.periods ==>
           id in later.periods && later.periods[id].start == c.periods[id].start && later.periods[id].end == c.periods[id].end
  {
    if c.AdvancesTo(later) && c.sealedThrough.Some? {
      assert c.FrozenOn(c.sealedThrough.value);
    }
  }

  /** In a well-formed calendar the scan has one answer. */
  lemma StateOnCovered(c: Calendar, id: PeriodId, date: Date)
    requires c.WellFormed() && id in c.periods && c.periods[id].Contains(date) && !c.FrozenOn(date)
    ensures c.StateOn(date) == c.periods[id].state
  {
    forall q | q in c.periods && c.periods[q].Contains(date)
      ensures q == id
    {
      var clash := c.periods[q].Overlaps(c.periods[id]);
    }
  }

  /** Sealing a sealable period puts the watermark on that period's own last day. */
  lemma SealingSetsWatermark(c: Calendar, id: PeriodId)
    requires c.WellFormed() && c.Sealable(id)
    ensures var later := c.Filed(c.periods[id].(state := Sealed));
      && later.WellFormed() && c.AdvancesTo(later)
      && later.sealedThrough == Some(c.periods[id].end)
      && forall date: Date :: later.FrozenOn(date) <==> date <= c.periods[id].end
  {
  }

  /** Two tables with the same periods and exact watermarks are the same calendar. */
  lemma WatermarkDetermined(a: Calendar, b: Calendar)
    requires a.WellFormed() && b.WellFormed() && a.WatermarkExact() && b.WatermarkExact()
    requires a.periods == b.periods
    ensures a == b
  {
  }

  /**
   A period that ends behind the watermark cannot be sealed in any later calendar, and while it
   is not marked sealed by other means neither can any period that starts after it.
   */
  lemma StuckBehindWatermark(c: Calendar, later: Calendar, stuck: PeriodId)
    requires c.AdvancesTo(later) && later.WellFormed()
    requires stuck in c.periods && c.FrozenOn(c.periods[stuck].end)
    ensures stuck in later.periods && !later.Sealable(stuck)
    ensures later.periods[stuck].state != Sealed ==>
      forall id :: id in later.periods && later.periods[stuck].start <= later.periods[id].start ==> !later.Sealable(id)
  {
    forall id | id in later.periods && later.periods[stuck].start == later.periods[id].start
      ensures id == stuck
    {
      assert id != stuck ==> !later.periods[id].Overlaps(later.periods[stuck]);
    }
  }

  /** The index by start date lists every period once, under the day it starts. */
  ghost predicate Indexed(periods: map<PeriodId, Period>, byStart: map<int, PeriodId>)
  {
    && (forall id :: id in periods ==> periods[id].start in byStart && byStart[periods[id].start] == id)
    && (forall s :: s in byStart ==> byStart[s] in periods && periods[byStart[s]].start == s)
  }

  /** Among disjoint periods a new range can only meet its two neighbours by start date. */
  lemma NeighboursSuffice(c: Calendar, byStart: map<int, PeriodId>, period: Period, before: Option<int>, after: Option<int>)
    requires c.WellFormed() && Indexed(c.periods, byStart) && period.start <= period.end
    requires if before.Some?
      then before.value in byStart && before.value <= period.start
        && (forall s :: s in byStart && s <= period.start ==> s <= before.value)
        && !c.periods[byStart[before.value]].Overlaps(period)
      else forall s :: s in byStart ==> s > period.start
    requires if after.Some?
      then after.value in byStart && period.start <= after.value
        && (forall s :: s in byStart && period.start <= s ==> after.value <= s)
        && !c.periods[byStart[after.value]].Overlaps(period)
      else forall s :: s in byStart ==> s < period.start
    ensures forall id :: id in c.periods ==> !c.periods[id].Overlaps(period)
  {
    forall id | id in c.periods
      ensures !c.periods[id].Overlaps(period)
    {
      var q := c.periods[id];
      if q.start <= period.start {
        var b := byStart[before.value];
        assert q.start <= before.value;
        assert b != id ==> !q.Overlaps(c.periods[b]);
      } else {
        assert after.value <= q.start;
      }
    }
  }

  /** Of the periods a new range meets, the neighbour found first by start date is the earliest. */
  lemma NearestIsEarliest(c: Calendar, byStart: map<int, PeriodId>, period: Period, before: Option<int>, met: int)
    requires c.WellFormed() && Indexed(c.periods, byStart) && period.start <= period.end
    requires met in byStart && c.periods[byStart[met]].Overlaps(period)
    requires if before.Some?
      then before.value in byStart && before.value <= period.start
        && (forall s :: s in byStart && s <= period.start ==> s <= before.value)
        && (before.value == met || !c.periods[byStart[before.value]].Overlaps(period))
      else forall s :: s in byStart ==> s > period.start
    requires before != Some(met) ==> forall s :: s in byStart && period.start <= s ==> met <= s
    ensures forall q :: q in c.periods && c.periods[q].Overlaps(period) ==> met <= c.periods[q].start
  {
    forall q | q in c.periods && c.periods[q].Overlaps(period)
      ensures met <= c.periods[q].start
    {
      var other := c.periods[q];
      if other.start <= period.start {
        var b := byStart[before.value];
        assert other.start <= before.value;
        assert b != q ==> !other.Overlaps(c.periods[b]);
      }
    }
  }

  /** Filing a period that meets no other keeps the calendar well formed. */
  lemma FiledWellFormed(c: Calendar, p: Period)
    requires c.WellFormed() && p.start <= p.end
    requires forall q :: q in c.periods && q != p.id ==> !c.periods[q].Overlaps(p)
    requires p.id in c.periods ==> c.periods[p.id].start == p.start && c.periods[p.id].end == p.end
    ensures c.Filed(p).WellFormed() && c.AdvancesTo(c.Filed(p))
  {
  }

  lemma IndexFiled(periods: map<PeriodId, Period>, byStart: map<int, PeriodId>, p: Period)
    requires Indexed(periods, byStart) && p.id !in periods && p.start !in byStart
    ensures Indexed(periods[p.id := p], byStart[p.start := p.id])
  {
  }

  /** Replacing a period by one with the same range does too. */
  lemma SameRangeFiled(c: Calendar, p: Period)
    requires c.WellFormed() && p.id in c.periods
    requires c.periods[p.id].start == p.start && c.periods[p.id].end == p.end
    ensures c.Filed(p).WellFormed() && c.AdvancesTo(c.Filed(p))
  {
    forall q | q in c.periods && q != p.id
      ensures !c.periods[q].Overlaps(p)
    {
      assert !c.periods[q].Overlaps(c.periods[p.id]);
    }
    FiledWellFormed(c, p);
  }

  lemma FiledUnderOwn(c: Calendar, id: PeriodId)
    requires c.WellFormed() && id in c.periods
    ensures c.periods[id].id == id
  {
  }

  lemma IndexSameRange(periods: map<PeriodId, Period>, byStart: map<int, PeriodId>, p: Period)
    requires Indexed(periods, byStart) && p.id in periods && periods[p.id].start == p.start
    ensures Indexed(periods[p.id := p], byStart)
  {
  }

  class PeriodCalendar {
    var periods: map<PeriodId, Period>
    /** Start date to identifier. */
    var byStart: map<int, PeriodId>
    var sealedThrough: Option<Date>

    ghost function Table(): Calendar
      reads this
    {
      Calendar(periods, sealedThrough)
    }

    /** The table is well formed and the index lists its periods by start date. */
    ghost predicate Valid()
      reads this
    {
      Table().WellFormed() && Indexed(periods, byStart)
    }

    constructor ()
      ensures Valid() && Table() == Calendar(map[], None)
    {
      periods, byStart, sealedThrough := map[], map[], None;
    }

    /** The earliest period a new range meets: only its two neighbours by start date need looking at. */
    method FirstMet(period: Period) returns (met: Option<PeriodId>)
      requires Valid() && period.start <= period.end
      ensures met.None? ==> forall q :: q in periods ==> !periods[q].Overlaps(period)
      ensures met.Some? ==>
        met.value in periods && periods[met.value].Overlaps(period)
        && forall q :: q in periods && periods[q].Overlaps(period) ==> periods[met.value].start <= periods[q].start
    {
      var before := LastAtMost(byStart.Keys, period.start);
      if before.Some? && periods[byStart[before.value]].Overlaps(period) {
        NearestIsEarliest(Table(), byStart, period, before, before.value);
        return Some(byStart[before.value]);
      }
      var after := FirstAtLeast(byStart.Keys, period.start);
      if after.Some? && periods[byStart[after.value]].Overlaps(period) {
        NearestIsEarliest(Table(), byStart, period, before, after.value);
        return Some(byStart[after.value]);
      }
      NeighboursSuffice(Table(), byStart, period, before, after);
      return None;
    }

    /**
     Files a new period after looking at the two neighbours by start date; that refuses a new
     identifier exactly when some day would belong to two periods.
     */
    method Define(period: Period) returns (r: Result<(), PeriodError>)
      requires Valid() && period.start <= period.end
      modifies this
      ensures Valid() && old(Table()).AdvancesTo(Table())
      ensures r.Ok? <==>
        period.id !in old(periods)
        && forall id, d: Date :: id in old(periods) && old(periods)[id].Contains(d) ==> !period.Contains(d)
      ensures Table() == if r.Ok? then old(Table()).Filed(period) else old(Table())
      ensures r.Err? ==> old(Table()).DefineRefused(period, r.error)
      ensures old(Table()).WatermarkExact() ==> Table().WatermarkExact()
    {
      if period.id in periods {
        return Err(Duplicate(period.id));
      }
      MeetingIsSharedDay(Table(), period);
      var met := FirstMet(period);
      if met.Some? {
        return Err(Overlap(period.id, met.value));
      }
      FiledWellFormed(Table(), period);
      IndexFiled(periods, byStart, period);
      byStart := byStart[period.start := period.id];
      MarkSealedThrough(period);
      periods := periods[period.id := period];
      if old(Table()).WatermarkExact() {
        FiledExact(old(Table()), period);
      }
      return Ok(());
    }

    /** Advances the watermark if the period is sealed and reaches further. */
    method MarkSealedThrough(period: Period)
      modifies this`sealedThrough
      ensures Table() == old(Table()).Marked(period)
    {
      if period.state == Sealed && (sealedThrough.None? || period.end > sealedThrough.value) {
        sealedThrough := Some(period.end);
      }
    }

    /**
     Files a period unless the same range is filed already; then only the stored state is
     replaced, and the watermark stays where it was or advances. The table still gives the
     watermark away exactly when `StaysExact` says so: not after the sealed period that set it
     is put back as anything else.
     */
    method Ensure(period: Period) returns (r: Result<(), PeriodError>)
      requires Valid() && period.start <= period.end
      modifies this
      ensures Valid() && old(Table()).AdvancesTo(Table())
      ensures r.Ok? <==> if period.id in old(periods)
        then old(periods)[period.id].start == period.start && old(periods)[period.id].end == period.end
        else forall id, d: Date :: id in old(periods) && old(periods)[id].Contains(d) ==> !period.Contains(d)
      ensures r.Err? ==> old(Table()).DefineRefused(period, r.error)
      ensures Table() == if r.Ok? then old(Table()).Filed(period) else old(Table())
      ensures r.Ok? ==> (Table().WatermarkExact() <==> old(Table()).StaysExact(period))
      ensures old(Table()).WatermarkExact() && r.Ok? ==>
        (Table().WatermarkExact() <==>
           (period.id in old(periods) && old(sealedThrough) == Some(period.end) ==> period.state == Sealed))
    {
      hide Calendar.WatermarkExact;
      ghost var before := Table();
      if period.id in periods {
        if periods[period.id].start == period.start && periods[period.id].end == period.end {
          SameRangeFiled(Table(), period);
          FiledExactIff(before, period);
          StaysExactIff(before, period);
          MarkSealedThrough(period);
          periods := periods[period.id := period];
          return Ok(());
        }
        return Err(Duplicate(period.id));
      }
      MeetingIsSharedDay(before, period);
      r := Define(period);
      if r.Ok? {
        FiledExactIff(before, period);
        StaysExactIff(before, period);
      }
    }

    /** The period containing a date: only the last one starting at or before it can. */
    method PeriodOn(date: Date) returns (r: Option<Period>)
      requires Valid()
      ensures r.Some? ==> r.value.id in periods && periods[r.value.id] == r.value && r.value.Contains(date)
      ensures r.None? ==> forall id :: id in periods ==> !periods[id].Contains(date)
    {
      var last := LastAtMost(byStart.Keys, date);
      if last.None? {
        return None;
      }
      var p := periods[byStart[last.value]];
      forall id | id in periods && periods[id].Contains(date)
        ensures id == p.id
      {
        assert periods[id].start <= p.start;
        assert id != p.id ==> !periods[id].Overlaps(p);
      }
      return if p.Contains(date) then Some(p) else None;
    }

    method StateOn(date: Date) returns (state: PeriodState)
      requires Valid()
      ensures state == Table().StateOn(date)
      ensures sealedThrough.Some? && date <= sealedThrough.value ==> state == Sealed
      ensures forall id :: id in periods && periods[id].Contains(date) && !Table().FrozenOn(date) ==> state == periods[id].state
      ensures !Table().FrozenOn(date) && (forall id :: id in periods ==> !periods[id].Contains(date)) ==> state == Open
    {
      if sealedThrough.Some? && date <= sealedThrough.value {
        return Sealed;
      }
      var p := PeriodOn(date);
      if p.Some? {
        StateOnCovered(Table(), p.value.id, date);
      }
      return if p.Some? then p.value.state else Open;
    }

    /** Moves a period to the next state of its lifecycle. */
    method Transition(id: PeriodId, to: PeriodState) returns (r: Result<(), PeriodError>)
      requires Valid()
      modifies this
      ensures Valid() && old(Table()).AdvancesTo(Table())
      ensures r == if id !in old(periods) then Err(Unknown(id))
        else if (old(periods)[id].state, to) in {(Open, Closing), (Closing, Open), (Closing, Sealed)} then Ok(())
        else Err(InvalidTransition(id, old(periods)[id].state, to))
      ensures Table() == if r.Ok? then old(Table()).Filed(old(periods)[id].(state := to)) else old(Table())
      ensures old(Table()).WatermarkExact() ==> Table().WatermarkExact()
    {
      if id !in periods {
        return Err(Unknown(id));
      }
      var period := periods[id];
      if !Permitted(period.state, to) {
        return Err(InvalidTransition(id, period.state, to));
      }
      hide Calendar.WellFormed, Calendar.AdvancesTo, Calendar.WatermarkExact, Indexed;
      var moved := period.(state := to);
      FiledUnderOwn(Table(), id);
      SameRangeFiled(Table(), moved);
      IndexSameRange(periods, byStart, moved);
      periods := periods[id := moved];
      MarkSealedThrough(moved);
      if old(Table()).WatermarkExact() {
        FiledExact(old(Table()), moved);
      }
      return Ok(());
    }

    /** The sealing preconditions: closing, nothing earlier unsealed, and past the watermark. */
    method CheckSealable(id: PeriodId) returns (r: Result<Period, PeriodError>)
      requires Valid()
      ensures r.Ok? <==> Table().Sealable(id)
      ensures r.Ok? ==> id in periods && r.value == periods[id] && r.value.state == Closing
      ensures r.Err? ==> Table().SealRefused(id, r.error)
    {
      if id !in periods {
        return Err(Unknown(id));
      }
      var period := periods[id];
      if period.state != Closing {
        return Err(NotClosing(id, period.state));
      }
      var blocker := FirstUnsealedBefore(period.start);
      if blocker.Some? {
        assert Table().UnsealedBefore(blocker.value.id, period.start);
        return Err(UnsealedPredecessor(id, blocker.value.id, blocker.value.state));
      }
      if sealedThrough.Some? && period.end <= sealedThrough.value {
        return Err(SealedOutOfOrder(id, period.end, sealedThrough.value));
      }
      return Ok(period);
    }

    /** The first period, in start order, that starts before a date and is not sealed. */
    method FirstUnsealedBefore(start: Date) returns (r: Option<Period>)
      requires Valid()
      ensures r.Some? ==>
        r.value.id in periods && periods[r.value.id] == r.value
        && r.value.start < start && r.value.state != Sealed
        && forall o :: o in periods && periods[o].start < r.value.start ==> periods[o].state == Sealed
      ensures r.None? ==> forall o :: o in periods && periods[o].start < start ==> periods[o].state == Sealed
    {
      var cursor := FirstAtLeast(byStart.Keys, -0x8000_0000 * 512);
      while cursor.Some? && cursor.value < start
        invariant cursor.Some? ==> cursor.value in byStart
        invariant forall o :: o in periods && (cursor.None? || periods[o].start < cursor.value) ==>
          periods[o].state == Sealed
        decreases if cursor.Some? then start - cursor.value else 0
      {
        var p := periods[byStart[cursor.value]];
        if p.state != Sealed {
          return Some(p);
        }
        var here := cursor.value;
        cursor := FirstAtLeast(byStart.Keys, here + 1);
        forall o | o in periods && (cursor.None? || periods[o].start < cursor.value)
          ensures periods[o].state == Sealed
        {
          assert periods[o].start in byStart.Keys;
          assert periods[o].start <= here;
        }
      }
      return None;
    }

    /** Replays a stored table in any order; the watermark comes back with it. */
    static method FromPeriods(table: seq<Period>) returns (r: Result<PeriodCalendar, PeriodError>)
      requires forall p :: p in table ==> p.start <= p.end
      ensures r.Ok? <==>
        (forall i, j :: 0 <= i < j < |table| ==> table[i].id != table[j].id)
        && (forall i, j, d: Date :: 0 <= i < j < |table| && table[i].Contains(d) ==> !table[j].Contains(d))
      ensures r.Ok? ==> fresh(r.value) && r.value.Valid() && r.value.Table().WatermarkExact()
      ensures r.Ok? ==> Lists(table, r.value.periods)
      ensures r.Err? ==> exists k :: 0 <= k < |table| && ClashesAt(table, k, r.error)
    {
      hide Period.Contains, Period.Overlaps, Calendar.WellFormed, Calendar.AdvancesTo, Calendar.Marked, Indexed;
      SeparateInDays(table);
      var calendar := new PeriodCalendar();
      for i := 0 to |table|
        invariant fresh(calendar) && calendar.Valid() && calendar.Table().WatermarkExact()
        invariant Lists(table[..i], calendar.periods) && Separate(table[..i])
      {
        ListedNext(table, i, calendar.Table());
        var defined := calendar.Define(table[i]);
        if defined.Err? {
          ClashFound(table, i, calendar.Table(), defined.error);
          return Err(defined.error);
        }
      }
      assert table[..|table|] == table;
      return Ok(calendar);
    }
  }

  /** A map holds exactly the periods of a table, each under its own identifier. */
  ghost predicate Lists(table: seq<Period>, periods: map<PeriodId, Period>)
  {
    forall p :: p in table <==> p.id in periods && periods[p.id] == p
  }

  /** No two rows of a table share an identifier or a day. */
  ghost predicate Separate(table: seq<Period>)
  {
    forall i, j :: 0 <= i < j < |table| ==> table[i].id != table[j].id && !table[i].Overlaps(table[j])
  }

  lemma SeparateInDays(table: seq<Period>)
    requires forall p :: p in table ==> p.start <= p.end
    ensures Separate(table) <==>
      (forall i, j :: 0 <= i < j < |table| ==> table[i].id != table[j].id)
      && (forall i, j, d: Date :: 0 <= i < j < |table| && table[i].Contains(d) ==> !table[j].Contains(d))
  {
    forall i, j | 0 <= i < j < |table|
      ensures table[i].Overlaps(table[j]) <==> exists d: Date :: table[i].Contains(d) && table[j].Contains(d)
    {
      OverlapsIsSharedDay(table[i], table[j]);
    }
  }

  /** Row `k` is the first that cannot be filed after the rows before it; the error names the earliest row it meets. */
  ghost predicate ClashesAt(table: seq<Period>, k: nat, error: PeriodError)
  {
    && k < |table| && Separate(table[..k])
    && if exists i :: 0 <= i < k && table[i].id == table[k].id then error == Duplicate(table[k].id)
       else exists j ::
         0 <= j < k && error == Overlap(table[k].id, table[j].id) && table[j].Overlaps(table[k])
         && forall i :: 0 <= i < k && table[i].Overlaps(table[k]) ==> table[j].start <= table[i].start
  }

  /** What the error tells of the row: its identifier is taken, or it shares a day with the row named, the earliest such. */
  lemma ClashTells(table: seq<Period>, k: nat, error: PeriodError)
    requires ClashesAt(table, k, error) && forall p :: p in table ==> p.start <= p.end
    ensures error.Duplicate? <==> exists i :: 0 <= i < k && table[i].id == table[k].id
    ensures error.Duplicate? || error.Overlap?
    ensures error.id == table[k].id
    ensures error.Overlap? ==> exists j, d: Date ::
      0 <= j < k && table[j].id == error.existing && table[j].Contains(d) && table[k].Contains(d)
      && forall i, e: Date :: 0 <= i < k && table[i].Contains(e) && table[k].Contains(e) ==> table[j].start <= table[i].start
  {
    if error.Overlap? {
      var j :| 0 <= j < k && error == Overlap(table[k].id, table[j].id) && table[j].Overlaps(table[k])
        && forall i :: 0 <= i < k && table[i].Overlaps(table[k]) ==> table[j].start <= table[i].start;
      OverlapsIsSharedDay(table[j], table[k]);
      var d: Date :| table[j].Contains(d) && table[k].Contains(d);
      forall i, e: Date | 0 <= i < k && table[i].Contains(e) && table[k].Contains(e)
        ensures table[j].start <= table[i].start
      {
        OverlapsIsSharedDay(table[i], table[k]);
      }
    }
  }

  lemma ClashFound(table: seq<Period>, k: nat, c: Calendar, error: PeriodError)
    requires k < |table| && Lists(table[..k], c.periods) && Separate(table[..k]) && c.WellFormed()
    requires c.DefineRefused(table[k], error)
    ensures ClashesAt(table, k, error)
  {
    forall i | 0 <= i < k
      ensures table[i].id in c.periods && c.periods[table[i].id] == table[i]
    {
      assert table[i] in table[..k];
    }
    if table[k].id in c.periods {
      assert c.periods[table[k].id] in table[..k];
    } else {
      assert c.periods[error.existing] in table[..k];
      var j :| 0 <= j < k && table[j] == c.periods[error.existing];
      assert error == Overlap(table[k].id, table[j].id);
    }
  }

  lemma ListedNext(table: seq<Period>, i: nat, c: Calendar)
    requires i < |table| && Lists(table[..i], c.periods) && Separate(table[..i])
    requires c.WellFormed() && table[i].start <= table[i].end
    ensures var p, periods := table[i], c.periods;
      && ((p.id !in periods && forall id, d: Date :: id in periods && periods[id].Contains(d) ==> !p.Contains(d)) <==>
           Separate(table[..i + 1]))
      && (Separate(table) ==> Separate(table[..i + 1]))
      && (p.id !in periods ==> Lists(table[..i + 1], periods[p.id := p]))
  {
    hide Period.Contains, Period.Overlaps;
    var p, periods := table[i], c.periods;
    MeetingIsSharedDay(c, p);
    assert table[..i + 1] == table[..i] + [p];
    forall k | 0 <= k < i
      ensures table[k].id in periods && periods[table[k].id] == table[k]
    {
      assert table[k] in table[..i];
    }
    forall id | id in periods
      ensures exists k :: 0 <= k < i && table[k] == periods[id]
    {
      assert periods[id] in table[..i];
    }
    if Separate(table[..i + 1]) {
      forall k | 0 <= k < i
        ensures table[k].id != p.id && !table[k].Overlaps(p)
      {
        assert table[..i + 1][k] == table[k] && table[..i + 1][i] == p;
      }
    }
  }

  lemma FiledExact(c: Calendar, p: Period)
    requires c.WellFormed() && c.WatermarkExact()
    requires p.id in c.periods ==> c.periods[p.id].state != Sealed
    ensures c.Filed(p).WatermarkExact()
  {
    var later := c.Filed(p);
    if p.state == Sealed && !c.FrozenOn(p.end) {
      assert later.periods[p.id].end == later.sealedThrough.value;
    } else if c.sealedThrough.Some? {
      var id :| id in c.periods && c.periods[id].state == Sealed && c.periods[id].end == c.sealedThrough.value;
      assert later.periods[id] == c.periods[id];
    }
  }

  /** After a period is filed the watermark is exact exactly when `StaysExact` says so. */
  lemma FiledExactIff(c: Calendar, p: Period)
    requires c.WellFormed() && p.start <= p.end
    requires if p.id in c.periods then c.periods[p.id].start == p.start && c.periods[p.id].end == p.end
      else forall q :: q in c.periods ==> !c.periods[q].Overlaps(p)
    ensures c.Filed(p).WatermarkExact() <==> c.StaysExact(p)
  {
    var later := c.Filed(p);
    if p.state == Sealed && (c.sealedThrough.Some? ==> c.sealedThrough.value <= p.end) {
      assert later.periods[p.id] == p && later.sealedThrough == Some(p.end);
    } else if c.sealedThrough.Some? {
      var through := c.sealedThrough.value;
      forall id
        ensures id in later.periods && later.periods[id].state == Sealed && later.periods[id].end == through <==>
          id in c.periods && c.periods[id].state == Sealed && c.periods[id].end == through && (p.id in c.periods ==> through != p.end)
      {
        if id in c.periods && c.periods[id].end == through == p.end {
          assert c.periods[id].Overlaps(p);
          assert p.id in c.periods && id != p.id ==> !c.periods[id].Overlaps(c.periods[p.id]);
        }
      }
    }
  }

  /** From an exact watermark, only the period that set it can take the exactness away. */
  lemma StaysExactIff(c: Calendar, p: Period)
    requires c.WellFormed()
    requires p.id in c.periods ==> c.periods[p.id].start == p.start && c.periods[p.id].end == p.end
    ensures c.WatermarkExact() ==>
      (c.StaysExact(p) <==> (p.id in c.periods && c.sealedThrough == Some(p.end) ==> p.state == Sealed))
  {
    hide Calendar.WatermarkExact;
  }

  /**
   A restart from the stored table, in whatever order, brings every period back and freezes no
   day that was not frozen. It restores the watermark, and so the calendar, exactly when the
   watermark was the last day of a period stored as sealed.
   */
  lemma RestartRestores(c: Calendar, restored: Calendar, table: seq<Period>)
    requires c.WellFormed() && restored.WellFormed() && restored.WatermarkExact()
    requires Lists(table, c.periods) && Lists(table, restored.periods)
    ensures restored.periods == c.periods
    ensures restored == c <==> c.WatermarkExact()
    ensures forall date: Date :: restored.FrozenOn(date) ==> c.FrozenOn(date)
  {
    forall id
      ensures id in c.periods <==> id in restored.periods
      ensures id in c.periods ==> restored.periods[id] == c.periods[id]
    {
      if id in c.periods {
        assert c.periods[id] in table;
      }
      if id in restored.periods {
        assert restored.periods[id] in table;
      }
    }
    assert c.periods == restored.periods;
    if c.WatermarkExact() {
      WatermarkDetermined(c, restored);
    }
  }

  /**
   A period sealed and then put back as open reopens nothing while the calendar lives, and
   everything it had closed once the calendar is read from its own table again.
   */
  lemma ReopenedByRestart(id: PeriodId, start: Date, end: Date, day: Date, restored: Calendar, table: seq<Period>)
    requires start <= day <= end
    requires restored.WellFormed() && restored.WatermarkExact() && Lists(table, restored.periods)
    requires var live := PutBack(id, start, end); Lists(table, live.periods)
    ensures var live := PutBack(id, start, end);
      && live.WellFormed() && live.StateOn(day) == Sealed
      && restored.StateOn(day) == Open && restored.sealedThrough == None
  {
    var live := PutBack(id, start, end);
    var period := Period(id, start, end, Open);
    assert live.periods == map[id := period] && live.sealedThrough == Some(end);
    RestartRestores(live, restored, table);
    assert restored.periods[id] == period;
  }

  /** Defined, closed, sealed, and filed again as open. */
  function PutBack(id: PeriodId, start: Date, end: Date): (c: Calendar)
    ensures c.periods == map[id := Period(id, start, end, Open)] && c.sealedThrough == Some(end)
  {
    var period := Period(id, start, end, Open);
    Calendar(map[], None).Filed(period).Filed(period.(state := Closing)).Filed(period.(state := Sealed)).Filed(period)
  }
}

/**
 * `verify_timestamps`: the records are grouped by (id, id_2); a group is flagged incomplete
 * unless its latest end minus its earliest start is 6 days 23:59:59, its earliest start is
 * at 00:00:00 and its latest end is at 23:59:59. Timestamps are whole seconds counted from
 * a midnight.
 */
module Timestamps {
  import opened Numeric
  import opened Clock

  /** `pd.Timedelta(days=6, hours=23, minutes=59, seconds=59)` in seconds. */
  const WeekSpan: int := 6 * SecondsPerDay + 23 * 3600 + 59 * 60 + 59

  /** 23:59:59 as a second of the day. */
  const LastSecondOfDay: int := SecondsPerDay - 1

  datatype TimestampRecord = TimestampRecord(id: int, id2: int, start: int, end: int)

  function Starts(g: seq<TimestampRecord>): (ts: seq<int>)
    ensures |ts| == |g| && forall i :: 0 <= i < |g| ==> ts[i] == g[i].start
  {
    if g == [] then [] else Starts(g[..|g| - 1]) + [g[|g| - 1].start]
  }

  function Ends(g: seq<TimestampRecord>): (ts: seq<int>)
    ensures |ts| == |g| && forall i :: 0 <= i < |g| ==> ts[i] == g[i].end
  {
    if g == [] then [] else Ends(g[..|g| - 1]) + [g[|g| - 1].end]
  }

  /** The group's predicate: not (exact week span, starts at midnight, ends at 23:59:59). */
  predicate Incomplete(g: seq<TimestampRecord>)
    requires |g| > 0
  {
    var first, last := Min(Starts(g)), Max(Ends(g));
    !(last - first == WeekSpan && TimeOfDay(first) == 0 && TimeOfDay(last) == LastSecondOfDay)
  }

  /** The records of the (id, id_2) group, in table order. */
  function Group(records: seq<TimestampRecord>, id: int, id2: int): (g: seq<TimestampRecord>)
    ensures forall r :: r in g <==> r in records && r.id == id && r.id2 == id2
  {
    if records == [] then []
    else
      var last := records[|records| - 1];
      Group(records[..|records| - 1], id, id2) + (if last.id == id && last.id2 == id2 then [last] else [])
  }

  /** The (id, id_2) pairs occurring in the table. */
  function Pairs(records: seq<TimestampRecord>): (ps: set<(int, int)>)
    ensures forall p :: p in ps <==> exists r :: r in records && (r.id, r.id2) == p
  {
    set r | r in records :: (r.id, r.id2)
  }

  /** `verify_timestamps`: one flag per (id, id_2) pair that occurs, true when the group is incomplete. */
  function VerifyTimestamps(records: seq<TimestampRecord>): (flags: map<(int, int), bool>)
    ensures forall id, id2 :: (id, id2) in flags <==> exists r :: r in records && r.id == id && r.id2 == id2
    ensures forall id, id2 :: (id, id2) in flags ==>
              |Group(records, id, id2)| > 0 && flags[(id, id2)] == Incomplete(Group(records, id, id2))
  {
    map p | p in Pairs(records) :: p := (
      var g := Group(records, p.0, p.1);
      assert exists r :: r in records && (r.id, r.id2) == p;
      var r :| r in records && (r.id, r.id2) == p;
      assert r in g;
      Incomplete(g))
  }

  /**
   * The third condition follows from the other two: a group is complete exactly when its
   * earliest start is at midnight and its latest end is 604799 seconds later.
   */
  lemma CompleteIff(g: seq<TimestampRecord>)
    requires |g| > 0
    ensures !Incomplete(g) <==> TimeOfDay(Min(Starts(g))) == 0 && Max(Ends(g)) == Min(Starts(g)) + WeekSpan
  {
    SpanConditions(Min(Starts(g)), Max(Ends(g)));
  }

  /** For a span starting at midnight, lasting 604799 seconds puts its end at 23:59:59. */
  lemma SpanConditions(first: int, last: int)
    ensures (last - first == WeekSpan && TimeOfDay(first) == 0 && TimeOfDay(last) == LastSecondOfDay) <==>
            (TimeOfDay(first) == 0 && last == first + WeekSpan)
  {
    assert SecondsPerDay == 86400 && WeekSpan == 604799 && LastSecondOfDay == 86399;
    if TimeOfDay(first) == 0 && last == first + WeekSpan {
      var day := first / 86400;
      assert first == day * 86400;
      assert last == (day + 6) * 86400 + 86399;
      assert last % 86400 == 86399;
    }
  }

  /**
   * A complete group starts at midnight of some day D, ends at 23:59:59 of day D + 6, and
   * every record of it lies within those seven days.
   */
  lemma CompleteGroupSpansSevenDays(g: seq<TimestampRecord>)
    requires |g| > 0
    requires !Incomplete(g)
    ensures exists day: int ::
              (exists i :: 0 <= i < |g| && g[i].start == day * SecondsPerDay) &&
              (exists i :: 0 <= i < |g| && g[i].end == (day + 6) * SecondsPerDay + LastSecondOfDay) &&
              (forall i :: 0 <= i < |g| ==>
                 day * SecondsPerDay <= g[i].start && g[i].end <= (day + 7) * SecondsPerDay - 1)
  {
    var first, last := Min(Starts(g)), Max(Ends(g));
    var day := first / SecondsPerDay;
    assert first == day * SecondsPerDay;
    var i :| 0 <= i < |g| && Starts(g)[i] == first;
    var j :| 0 <= j < |g| && Ends(g)[j] == last;
    assert forall k :: 0 <= k < |g| ==> first <= Starts(g)[k] && Ends(g)[k] <= last;
    assert g[i].start == day * SecondsPerDay;
    assert g[j].end == (day + 6) * SecondsPerDay + LastSecondOfDay;
  }
}

/** The normaliser: parse each validated record into a minute-offset interval,
    sort the intervals stably by start minute, then sweep them with a cursor and
    drop every interval that starts before the cursor. */
module Convert {
  import opened Schedule
  import opened Validate

  function DigitValue(c: char): (d: int)
    requires IsDigit(c)
    ensures 0 <= d <= 9
  {
    c as int - '0' as int
  }

  /** `Number` of a two-digit group. */
  function TwoDigitValue(hi: char, lo: char): (n: int)
    requires IsDigit(hi) && IsDigit(lo)
    ensures 0 <= n <= 99
  {
    10 * DigitValue(hi) + DigitValue(lo)
  }

  function Hour(s: string): int
    requires IsClock(s)
  {
    TwoDigitValue(s[0], s[1])
  }

  function Minute(s: string): int
    requires IsClock(s)
  {
    TwoDigitValue(s[3], s[4])
  }

  /** Minutes since midnight, `hour * 60 + minute`; with no range check the
      largest value is that of "99:99". */
  function ParseClock(s: string): (minutes: int)
    requires IsClock(s)
    ensures 0 <= minutes <= 99 * 60 + 99
  {
    Hour(s) * 60 + Minute(s)
  }

  function DigitChar(d: int): (c: char)
    requires 0 <= d <= 9
    ensures IsDigit(c)
  {
    ('0' as int + d) as char
  }

  /** Writes an hour and a minute as `HH:MM`, the format the parser reads. */
  function FormatClock(hour: int, minute: int): (s: string)
    requires 0 <= hour <= 99 && 0 <= minute <= 99
    ensures IsClock(s)
  {
    [DigitChar(hour / 10), DigitChar(hour % 10), ':', DigitChar(minute / 10), DigitChar(minute % 10)]
  }

  /** Parsing reads back the hour and minute that were written. */
  lemma ParseFormatClock(hour: int, minute: int)
    requires 0 <= hour <= 99 && 0 <= minute <= 99
    ensures Hour(FormatClock(hour, minute)) == hour && Minute(FormatClock(hour, minute)) == minute
    ensures ParseClock(FormatClock(hour, minute)) == hour * 60 + minute
  {
  }

  /** Every string the pattern accepts is the formatting of its own fields. */
  lemma FormatParseClock(s: string)
    requires IsClock(s)
    ensures FormatClock(Hour(s), Minute(s)) == s
  {
    var t := FormatClock(Hour(s), Minute(s));
    assert t[0] == s[0] && t[1] == s[1] && t[3] == s[3] && t[4] == s[4];
  }

  /** For a real time of day (hour below 24, minute below 60) the parsed value
      lies within the day and determines the hour and minute. */
  lemma ParseClockTimeOfDay(s: string)
    requires IsClock(s) && Hour(s) < 24 && Minute(s) < 60
    ensures 0 <= ParseClock(s) < DayMinutes
    ensures ParseClock(s) / 60 == Hour(s) && ParseClock(s) % 60 == Minute(s)
  {
  }

  /** The interval of one validated record: it keeps the name, starts at the
      parsed `from` and ends at the parsed `to`, whatever their order. */
  function ToInterval(r: RawRecord): (iv: Interval)
    requires IsValidRecord(r)
    ensures iv.name == r.name && iv.from == ParseClock(r.from.value)
    ensures iv.End() == ParseClock(r.to.value)
  {
    var from := ParseClock(r.from.value);
    Interval(r.name, from, ParseClock(r.to.value) - from)
  }

  /** The `map` stage. */
  function ToIntervals(records: seq<RawRecord>): (intervals: seq<Interval>)
    requires forall x :: x in records ==> IsValidRecord(x)
    ensures |intervals| == |records|
    ensures forall i :: 0 <= i < |records| ==> intervals[i] == ToInterval(records[i])
    decreases |records|
  {
    if records == [] then [] else [ToInterval(records[0])] + ToIntervals(records[1..])
  }

  /** Inserts `x` in front of the first interval that starts no earlier than it. */
  function InsertByFrom(x: Interval, sorted: seq<Interval>): (r: seq<Interval>)
    ensures |r| == |sorted| + 1 && multiset(r) == multiset(sorted) + multiset{x}
    ensures Sorted(sorted) ==> Sorted(r)
    decreases |sorted|
  {
    if sorted == [] || x.from <= sorted[0].from then [x] + sorted
    else
      var head, rest := sorted[0], InsertByFrom(x, sorted[1..]);
      assert sorted == [head] + sorted[1..];
      assert multiset(sorted) == multiset{head} + multiset(sorted[1..]);
      assert multiset([head] + rest) == multiset{head} + multiset(rest);
      assert Sorted(sorted) ==> Sorted([head] + rest) by {
        if Sorted(sorted) {
          assert Sorted(sorted[1..]);
          HeadBeforeInsert(head, x, sorted[1..], rest);
        }
      }
      [head] + rest
  }

  /** An interval that starts no later than everything in `t` and strictly
      before `x` still comes first once `x` joins `t`. */
  lemma HeadBeforeInsert(head: Interval, x: Interval, t: seq<Interval>, rest: seq<Interval>)
    requires Sorted([head] + t) && head.from < x.from
    requires Sorted(rest) && multiset(rest) == multiset(t) + multiset{x}
    ensures Sorted([head] + rest)
  {
    forall j | 0 <= j < |rest| ensures head.from <= rest[j].from {
      assert rest[j] in multiset(rest);
      if rest[j] != x {
        assert rest[j] in multiset(t);
        assert rest[j] in t;
        var k :| 0 <= k < |t| && t[k] == rest[j];
        assert ([head] + t)[0] == head && ([head] + t)[k + 1] == rest[j];
      }
    }
    var r := [head] + rest;
    forall i, j | 0 <= i < j < |r| ensures r[i].from <= r[j].from {
      if i > 0 {
        assert r[i] == rest[i - 1] && r[j] == rest[j - 1];
      } else {
        assert r[j] == rest[j - 1];
      }
    }
  }

  /** The `sort` stage: ascending by start minute, ties kept in input order. */
  function SortByFrom(s: seq<Interval>): (r: seq<Interval>)
    ensures Sorted(r)
    ensures |r| == |s| && multiset(r) == multiset(s)
    decreases |s|
  {
    if s == [] then []
    else
      assert s == [s[0]] + s[1..];
      InsertByFrom(s[0], SortByFrom(s[1..]))
  }

  /** The intervals of `s` that start at minute `minute`, in order. */
  function StartingAt(s: seq<Interval>, minute: int): seq<Interval>
    decreases |s|
  {
    if s == [] then []
    else (if s[0].from == minute then [s[0]] else []) + StartingAt(s[1..], minute)
  }

  lemma StartingAtCons(y: Interval, u: seq<Interval>, minute: int)
    ensures StartingAt([y] + u, minute) == (if y.from == minute then [y] else []) + StartingAt(u, minute)
  {
    assert ([y] + u)[1..] == u;
  }

  lemma {:induction false} InsertByFromStable(x: Interval, t: seq<Interval>, minute: int)
    ensures StartingAt(InsertByFrom(x, t), minute) ==
            (if x.from == minute then [x] else []) + StartingAt(t, minute)
    decreases |t|
  {
    if t == [] || x.from <= t[0].from {
      StartingAtCons(x, t, minute);
    } else {
      var rest := InsertByFrom(x, t[1..]);
      InsertByFromStable(x, t[1..], minute);
      StartingAtCons(t[0], rest, minute);
      StartingAtCons(t[0], t[1..], minute);
      assert t == [t[0]] + t[1..];
      assert InsertByFrom(x, t) == [t[0]] + rest;
      var mine := if x.from == minute then [x] else [];
      var first := if t[0].from == minute then [t[0]] else [];
      assert mine == [] || first == [];
      assert first + (mine + StartingAt(t[1..], minute)) == mine + (first + StartingAt(t[1..], minute));
    }
  }

  /** The sort is stable: intervals with equal start minutes keep their order. */
  lemma {:induction false} SortByFromStable(s: seq<Interval>, minute: int)
    ensures StartingAt(SortByFrom(s), minute) == StartingAt(s, minute)
    decreases |s|
  {
    if s != [] {
      SortByFromStable(s[1..], minute);
      InsertByFromStable(s[0], SortByFrom(s[1..]), minute);
    }
  }

  /** The `filter` stage as a function of the cursor it threads: an interval
      starting before the cursor is dropped, any other is kept and moves the
      cursor to its end, backwards if its duration is negative. */
  function SweepFrom(s: seq<Interval>, cursor: int): (kept: seq<Interval>)
    ensures |kept| <= |s|
    decreases |s|
  {
    if s == [] then []
    else if s[0].from < cursor then SweepFrom(s[1..], cursor)
    else [s[0]] + SweepFrom(s[1..], s[0].End())
  }

  /** One step of the sweep. */
  lemma SweepFromCons(x: Interval, t: seq<Interval>, cursor: int)
    ensures SweepFrom([x] + t, cursor) ==
              if x.from < cursor then SweepFrom(t, cursor) else [x] + SweepFrom(t, x.End())
  {
    assert ([x] + t)[1..] == t;
  }

  /** One pass of the `filter` callback over the next interval `s[0]`. */
  lemma SweepStep(s: seq<Interval>, cursor: int, acc: seq<Interval>)
    requires s != []
    ensures s[0].from < cursor ==> acc + SweepFrom(s, cursor) == acc + SweepFrom(s[1..], cursor)
    ensures s[0].from >= cursor ==>
              acc + SweepFrom(s, cursor) == acc + [s[0]] + SweepFrom(s[1..], s[0].from + s[0].duration)
  {
    if s[0].from >= cursor {
      var rest := SweepFrom(s[1..], s[0].from + s[0].duration);
      assert SweepFrom(s, cursor) == [s[0]] + rest;
      assert acc + ([s[0]] + rest) == acc + [s[0]] + rest;
    }
  }

  /** Appending one interval to the sweep's input: the sweep keeps it exactly
      when it starts at or after the cursor left by what it kept before. */
  lemma {:induction false} SweepSnoc(s: seq<Interval>, x: Interval, cursor: int)
    ensures SweepFrom(s + [x], cursor) ==
              SweepFrom(s, cursor) + (if x.from < LastEnd(SweepFrom(s, cursor), cursor) then [] else [x])
    decreases |s|
  {
    if s == [] {
      assert s + [x] == [x] + [];
      SweepFromCons(x, [], cursor);
      assert [x] + [] == [x];
    } else {
      var t := s[1..];
      assert s + [x] == [s[0]] + (t + [x]);
      assert s == [s[0]] + t;
      SweepFromCons(s[0], t + [x], cursor);
      SweepFromCons(s[0], t, cursor);
      if s[0].from < cursor {
        SweepSnoc(t, x, cursor);
      } else {
        SweepSnoc(t, x, s[0].End());
        var kept := SweepFrom(t, s[0].End());
        assert LastEnd([s[0]] + kept, cursor) == LastEnd(kept, s[0].End());
      }
    }
  }

  /** Every kept interval starts at or after the end of the previously kept
      one, and the first at or after the initial cursor. */
  lemma {:induction false} SweepChained(s: seq<Interval>, cursor: int)
    ensures Chained(SweepFrom(s, cursor), cursor)
    decreases |s|
  {
    if s != [] {
      if s[0].from < cursor {
        SweepChained(s[1..], cursor);
      } else {
        SweepChained(s[1..], s[0].End());
        assert SweepFrom(s, cursor)[1..] == SweepFrom(s[1..], s[0].End());
      }
    }
  }

  /** The sweep only drops: what it keeps is in input order. */
  lemma {:induction false} SweepSubsequence(s: seq<Interval>, cursor: int)
    ensures IsSubsequence(SweepFrom(s, cursor), s)
    decreases |s|
  {
    if s != [] {
      var kept := SweepFrom(s, cursor);
      if s[0].from < cursor {
        SweepSubsequence(s[1..], cursor);
        assert kept == SweepFrom(s[1..], cursor);
      } else {
        SweepSubsequence(s[1..], s[0].End());
        assert kept[0] == s[0] && kept[1..] == SweepFrom(s[1..], s[0].End());
      }
    }
  }

  /** The sweep drops nothing exactly when the input is already chained. */
  lemma {:induction false} SweepIdentity(s: seq<Interval>, cursor: int)
    ensures SweepFrom(s, cursor) == s <==> Chained(s, cursor)
    decreases |s|
  {
    if s != [] {
      if s[0].from < cursor {
        SweepSubsequence(s[1..], cursor);
        SubsequenceLength(SweepFrom(s[1..], cursor), s[1..]);
        assert |SweepFrom(s, cursor)| < |s|;
      } else {
        SweepIdentity(s[1..], s[0].End());
        if SweepFrom(s, cursor) == s {
          assert SweepFrom(s[1..], s[0].End()) == SweepFrom(s, cursor)[1..];
        }
      }
    }
  }

  /** Sweeping the sweep's own output keeps all of it. */
  lemma SweepIdempotent(s: seq<Interval>, cursor: int)
    ensures SweepFrom(SweepFrom(s, cursor), cursor) == SweepFrom(s, cursor)
  {
    SweepChained(s, cursor);
    SweepIdentity(SweepFrom(s, cursor), cursor);
  }

  /** What `convertData` returns for validated records. */
  function Converted(records: seq<RawRecord>): (converted: seq<Interval>)
    requires forall x :: x in records ==> IsValidRecord(x)
    ensures Chained(converted, 0) && |converted| <= |records|
  {
    var sorted := SortByFrom(ToIntervals(records));
    SweepChained(sorted, 0);
    SweepFrom(sorted, 0)
  }

  /** The promises of the normaliser: sorted, free of overlaps as the cursor
      sees them, a subsequence of the stably sorted intervals, and made only of
      intervals built from the input records. */
  lemma ConvertedShape(records: seq<RawRecord>)
    requires forall x :: x in records ==> IsValidRecord(x)
    ensures Sorted(Converted(records)) && Chained(Converted(records), 0)
    ensures IsSubsequence(Converted(records), SortByFrom(ToIntervals(records)))
    ensures |Converted(records)| <= |records|
    ensures forall iv :: iv in Converted(records) ==>
              exists i :: 0 <= i < |records| && iv == ToInterval(records[i])
  {
    var sorted := SortByFrom(ToIntervals(records));
    SweepChained(sorted, 0);
    SweepSubsequence(sorted, 0);
    SubsequenceSorted(Converted(records), sorted);
    SubsequenceLength(Converted(records), sorted);
    ConvertedFromRecords(records);
  }

  /** Each normalised interval is the interval of one of the input records. */
  lemma ConvertedFromRecords(records: seq<RawRecord>)
    requires forall x :: x in records ==> IsValidRecord(x)
    ensures forall iv :: iv in Converted(records) ==>
              exists i :: 0 <= i < |records| && iv == ToInterval(records[i])
  {
    var intervals := ToIntervals(records);
    var sorted := SortByFrom(intervals);
    SweepSubsequence(sorted, 0);
    SubsequenceElements(Converted(records), sorted);
    forall iv | iv in Converted(records)
      ensures exists i :: 0 <= i < |records| && iv == ToInterval(records[i])
    {
      assert iv in multiset(sorted);
      assert iv in multiset(intervals);
      var i :| 0 <= i < |intervals| && intervals[i] == iv;
      assert iv == ToInterval(records[i]);
    }
  }

  /** The cursor the sweep leaves behind is 0 or the parsed `to` of a record. */
  lemma ConvertedLastEnd(records: seq<RawRecord>)
    requires forall x :: x in records ==> IsValidRecord(x)
    ensures Converted(records) == [] ||
            exists i :: 0 <= i < |records| && IsValidRecord(records[i]) &&
                        LastEnd(Converted(records), 0) == ParseClock(records[i].to.value)
  {
    var converted := Converted(records);
    if converted != [] {
      var last := converted[|converted| - 1];
      ConvertedFromRecords(records);
      assert last in converted;
      var i :| 0 <= i < |records| && last == ToInterval(records[i]);
      assert records[i] in records;
      assert LastEnd(converted, 0) == ParseClock(records[i].to.value);
    }
  }

  /** Every normalised interval carries a non-empty name. */
  lemma ConvertedNamed(records: seq<RawRecord>)
    requires forall x :: x in records ==> IsValidRecord(x)
    ensures forall iv :: iv in Converted(records) ==> iv.name.Some? && iv.name.value != ""
  {
    ConvertedFromRecords(records);
    forall iv | iv in Converted(records) ensures iv.name.Some? && iv.name.value != "" {
      var i :| 0 <= i < |records| && iv == ToInterval(records[i]);
      assert records[i] in records;
    }
  }

  /** convertData: the `map` and `sort` stages are the pure functions above;
      the `filter` stage is the loop over the sorted intervals with the cursor
      `minutePointer`. */
  method ConvertData(records: seq<RawRecord>) returns (converted: seq<Interval>)
    requires forall x :: x in records ==> IsValidRecord(x)
    ensures converted == Converted(records)
    ensures Sorted(converted) && Chained(converted, 0)
  {
    var sorted := SortByFrom(ToIntervals(records));
    var minutePointer := 0;
    converted := [];
    var i := 0;
    ghost var pending := sorted;
    while i < |sorted|
      invariant 0 <= i <= |sorted| && pending == sorted[i..]
      invariant converted + SweepFrom(pending, minutePointer) == SweepFrom(sorted, 0)
    {
      var datum := sorted[i];
      assert pending[0] == datum;
      SweepStep(pending, minutePointer, converted);
      if datum.from >= minutePointer {
        minutePointer := datum.from + datum.duration;
        converted := converted + [datum];
      }
      i := i + 1;
      pending := pending[1..];
    }
    assert pending == [];
    assert converted + [] == converted;
    ConvertedShape(records);
  }

  /** Position by position: each normalised interval starts at or after the
      cursor in force when the filter reached it. */
  lemma ConvertedCursorAt(records: seq<RawRecord>)
    requires forall x :: x in records ==> IsValidRecord(x)
    ensures forall k :: 0 <= k < |Converted(records)| ==>
              CursorAt(Converted(records), k, 0) <= Converted(records)[k].from
  {
    ChainedAt(Converted(records), 0);
  }

  /** An interval starting inside the one kept before it is dropped. */
  lemma OverlapDropped()
    ensures SweepFrom([Interval(Some("A"), 0, 60), Interval(Some("B"), 30, 60)], 0)
         == [Interval(Some("A"), 0, 60)]
  {
    var s := [Interval(Some("A"), 0, 60), Interval(Some("B"), 30, 60)];
    assert s[1..][1..] == [];
  }
}

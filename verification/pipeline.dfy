/** The three stages in the order the generator runs them for each input file:
    validate, convert, fill. The result is what the pie chart is drawn from. */
module Pipeline {
  import opened Schedule
  import opened Validate
  import opened Convert
  import opened Fill

  /** The schedule drawn for one parsed JSON array. */
  function ScheduleOf(raw: seq<RawRecord>): (schedule: seq<Interval>)
    ensures schedule != [] && schedule[0].from == 0 && Contiguous(schedule)
  {
    var converted := Converted(ValidateData(raw));
    FillCovers(converted, 0);
    FillFrom(converted, 0)
  }

  method GenerateSchedule(raw: seq<RawRecord>) returns (filledData: seq<Interval>)
    ensures filledData == ScheduleOf(raw)
    ensures filledData != [] && filledData[0].from == 0 && Contiguous(filledData)
  {
    var validatedData := ValidateData(raw);
    var convertedData := ConvertData(validatedData);
    filledData := FillData(convertedData);
    SchedulePartitionsDay(raw);
  }

  /** For any input the schedule starts at minute 0, has neither gaps nor
      overlaps, reaches at least minute 1440, holds the normalised intervals
      in order once its idle intervals are removed, and every idle interval
      in it has positive length. */
  lemma SchedulePartitionsDay(raw: seq<RawRecord>)
    ensures ScheduleOf(raw) != [] && ScheduleOf(raw)[0].from == 0
    ensures Contiguous(ScheduleOf(raw))
    ensures ScheduleOf(raw)[|ScheduleOf(raw)| - 1].End() ==
              (if LastEnd(Converted(ValidateData(raw)), 0) < DayMinutes then DayMinutes
               else LastEnd(Converted(ValidateData(raw)), 0))
    ensures Named(ScheduleOf(raw)) == Converted(ValidateData(raw))
    ensures forall x :: x in ScheduleOf(raw) ==> x.name.Some? || x.duration > 0
  {
    var converted := Converted(ValidateData(raw));
    ConvertedShape(ValidateData(raw));
    ConvertedNamed(ValidateData(raw));
    FillCovers(converted, 0);
    FillAddsOnlyIdle(converted, 0);
    FillKeepsInput(converted, 0);
  }

  /** When no valid record ends after minute 1440 the schedule ends exactly
      at minute 1440. */
  lemma ScheduleEndsAtMidnight(raw: seq<RawRecord>)
    requires forall r :: r in raw && IsValidRecord(r) ==> ParseClock(r.to.value) <= DayMinutes
    ensures ScheduleOf(raw)[|ScheduleOf(raw)| - 1].End() == DayMinutes
  {
    var valid := ValidateData(raw);
    SchedulePartitionsDay(raw);
    ConvertedLastEnd(valid);
    assert LastEnd(Converted(valid), 0) <= DayMinutes by {
      if Converted(valid) != [] {
        var i :| 0 <= i < |valid| && IsValidRecord(valid[i]) &&
                 LastEnd(Converted(valid), 0) == ParseClock(valid[i].to.value);
        ValidateDataSubsequence(raw);
        SubsequenceElements(valid, raw);
        assert valid[i] in valid;
      }
    }
  }

  /** Sleep 00:00-07:00 and Work 09:00-17:00 fill the day in four intervals. */
  lemma SleepAndWorkExample(sleep: RawRecord, work: RawRecord)
    requires sleep == RawRecord(Some("Sleep"), Some("00:00"), Some("07:00"))
    requires work == RawRecord(Some("Work"), Some("09:00"), Some("17:00"))
    ensures ScheduleOf([sleep, work])
         == [Interval(Some("Sleep"), 0, 420), Idle(420, 120),
             Interval(Some("Work"), 540, 480), Idle(1020, 420)]
  {
    SleepAndWorkConverted(sleep, work);
    SleepAndWorkFilled(Interval(Some("Sleep"), 0, 420), Interval(Some("Work"), 540, 480));
  }

  /** The two normalised Sleep/Work intervals get an idle interval between
      them and one after them. */
  lemma SleepAndWorkFilled(a: Interval, b: Interval)
    requires a.from == 0 && a.duration == 420 && b.from == 540 && b.duration == 480
    ensures FillFrom([a, b], 0) == [a, Idle(420, 120), b, Idle(1020, 420)]
  {
    FillFromCons(a, [b], 0);
    FillFromCons(b, [], 420);
    assert [a, b] == [a] + [b];
  }

  /** The Sleep/Work records are both valid and normalise to 0/420 and 540/480. */
  lemma SleepAndWorkConverted(sleep: RawRecord, work: RawRecord)
    requires sleep == RawRecord(Some("Sleep"), Some("00:00"), Some("07:00"))
    requires work == RawRecord(Some("Work"), Some("09:00"), Some("17:00"))
    ensures ValidateData([sleep, work]) == [sleep, work]
    ensures Converted([sleep, work]) == [Interval(Some("Sleep"), 0, 420), Interval(Some("Work"), 540, 480)]
  {
    var a := Interval(Some("Sleep"), 0, 420);
    var b := Interval(Some("Work"), 540, 480);
    assert IsValidRecord(sleep) && IsValidRecord(work);
    ValidateDataAppend([sleep], [work]);
    ValidateDataSingle(sleep);
    ValidateDataSingle(work);
    assert [sleep, work] == [sleep] + [work];
    assert ToInterval(sleep) == a;
    assert ToInterval(work) == b;
    assert ToIntervals([sleep, work]) == [a, b];
    assert [a, b][1..] == [b] && [b][1..] == [];
    assert SortByFrom([b]) == [b];
    assert SortByFrom([a, b]) == [a, b];
    SweepFromCons(a, [b], 0);
    SweepFromCons(b, [], 420);
    assert [a, b] == [a] + [b];
  }

  /** A clock field that passes the pattern but lies past midnight is taken
      as it is: "99:99" ends the interval at minute 6039 and no closing idle
      interval is added. */
  lemma PastMidnightExample(x: RawRecord)
    requires x == RawRecord(Some("X"), Some("00:00"), Some("99:99"))
    ensures ScheduleOf([x]) == [Interval(Some("X"), 0, 6039)]
  {
    assert IsValidRecord(x);
    assert [x][1..] == [];
    assert ValidateData([x]) == [x];
    var iv := Interval(Some("X"), 0, 6039);
    assert ToInterval(x) == iv;
    assert ToIntervals([x]) == [iv];
    assert SortByFrom([iv]) == [iv];
    SweepFromCons(iv, [], 0);
    assert Converted([x]) == [iv];
    FillFromCons(iv, [], 0);
  }

  /** A single-digit hour fails the pattern; the record is dropped and the day
      is one idle interval. */
  lemma SingleDigitHourExample(x: RawRecord)
    requires x == RawRecord(Some("X"), Some("9:00"), Some("10:00"))
    ensures ScheduleOf([x]) == [Idle(0, DayMinutes)]
  {
    assert !IsValidRecord(x);
    ValidateDataSingle(x);
    assert ToIntervals([]) == [];
  }

  /** When no valid record ends before it starts, the schedule is also
      ascending by start minute. */
  lemma ScheduleSortedWhenForward(raw: seq<RawRecord>)
    requires forall r :: r in raw && IsValidRecord(r) ==> ParseClock(r.from.value) <= ParseClock(r.to.value)
    ensures Sorted(ScheduleOf(raw))
  {
    var valid := ValidateData(raw);
    var converted := Converted(valid);
    SchedulePartitionsDay(raw);
    ConvertedShape(valid);
    ValidateDataSubsequence(raw);
    SubsequenceElements(valid, raw);
    FillAddsOnlyIdle(converted, 0);
    var r := ScheduleOf(raw);
    forall k | 0 <= k < |r| ensures r[k].duration >= 0 {
      assert r[k] in r;
      if r[k] in converted {
        var i :| 0 <= i < |valid| && r[k] == ToInterval(valid[i]);
        assert valid[i] in valid;
      }
    }
    ContiguousSorted(r);
  }

  /** A record that ends before it starts is kept with a negative duration:
      the schedule stays contiguous and ends at 1440, but the closing idle
      interval starts back at 09:00 and covers minutes 540-600 a second time. */
  lemma BackwardsRecordExample(x: RawRecord)
    requires x == RawRecord(Some("X"), Some("10:00"), Some("09:00"))
    ensures ScheduleOf([x]) == [Idle(0, 600), Interval(Some("X"), 600, -60), Idle(540, 900)]
  {
    assert IsValidRecord(x);
    ValidateDataSingle(x);
    var iv := Interval(Some("X"), 600, -60);
    assert ToInterval(x) == iv;
    assert ToIntervals([x]) == [iv];
    assert SortByFrom([iv]) == [iv];
    SweepFromCons(iv, [], 0);
    assert Converted([x]) == [iv];
    FillFromCons(iv, [], 0);
  }
}

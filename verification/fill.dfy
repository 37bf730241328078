/** The gap filler: walk the intervals with a cursor, put an idle interval in
    front of every one that starts after the cursor, and close the day with an
    idle interval up to minute 1440 when the cursor stops short of it. */
module Fill {
  import opened Schedule

  /** What `fillData` returns for the intervals `s` once its cursor stands at `cursor`. */
  function FillFrom(s: seq<Interval>, cursor: int): (filled: seq<Interval>)
    ensures |s| <= |filled| <= 2 * |s| + 1
    decreases |s|
  {
    if s == [] then
      (if cursor < DayMinutes then [Idle(cursor, DayMinutes - cursor)] else [])
    else
      (if s[0].from > cursor then [Idle(cursor, s[0].from - cursor)] else [])
      + [s[0]] + FillFrom(s[1..], s[0].End())
  }

  /** fillData: a loop that pushes onto `filledData` and moves `minutePointer`. */
  method FillData(data: seq<Interval>) returns (filledData: seq<Interval>)
    ensures filledData == FillFrom(data, 0)
    ensures data == [] ==> filledData == [Idle(0, DayMinutes)]
  {
    var minutePointer := 0;
    filledData := [];
    var i := 0;
    ghost var pending := data;
    while i < |data|
      invariant 0 <= i <= |data| && pending == data[i..]
      invariant filledData + FillFrom(pending, minutePointer) == FillFrom(data, 0)
    {
      var datum := data[i];
      assert pending[0] == datum;
      FillStep(pending, minutePointer, filledData);
      if datum.from > minutePointer {
        filledData := filledData + [Idle(minutePointer, datum.from - minutePointer)];
      }
      minutePointer := datum.from + datum.duration;
      filledData := filledData + [datum];
      i := i + 1;
      pending := pending[1..];
    }
    assert pending == [];
    FillEnd(minutePointer, filledData);
    if minutePointer < DayMinutes {
      filledData := filledData + [Idle(minutePointer, DayMinutes - minutePointer)];
    }
  }

  /** After the last interval: the closing idle interval, if any. */
  lemma FillEnd(cursor: int, acc: seq<Interval>)
    ensures cursor < DayMinutes ==> acc + FillFrom([], cursor) == acc + [Idle(cursor, DayMinutes - cursor)]
    ensures cursor >= DayMinutes ==> acc + FillFrom([], cursor) == acc
  {
    assert acc + [] == acc;
  }

  /** One pass of the loop body: what is pushed for the next interval `s[0]`,
      in the order the loop pushes it. */
  lemma FillStep(s: seq<Interval>, cursor: int, acc: seq<Interval>)
    requires s != []
    ensures s[0].from > cursor ==>
              acc + FillFrom(s, cursor) ==
              acc + [Idle(cursor, s[0].from - cursor)] + [s[0]] + FillFrom(s[1..], s[0].from + s[0].duration)
    ensures s[0].from <= cursor ==>
              acc + FillFrom(s, cursor) == acc + [s[0]] + FillFrom(s[1..], s[0].from + s[0].duration)
  {
    var rest := FillFrom(s[1..], s[0].from + s[0].duration);
    if s[0].from > cursor {
      var gap := [Idle(cursor, s[0].from - cursor)];
      assert FillFrom(s, cursor) == gap + [s[0]] + rest;
      assert acc + (gap + [s[0]] + rest) == acc + gap + [s[0]] + rest;
    } else {
      assert FillFrom(s, cursor) == [] + [s[0]] + rest;
      assert [] + [s[0]] + rest == [s[0]] + rest;
      assert acc + ([s[0]] + rest) == acc + [s[0]] + rest;
    }
  }

  /** One step of the filler: an optional gap, then the interval itself. */
  lemma FillFromCons(x: Interval, t: seq<Interval>, cursor: int)
    ensures FillFrom([x] + t, cursor) ==
              (if x.from > cursor then [Idle(cursor, x.from - cursor)] else []) + [x] + FillFrom(t, x.End())
  {
    assert ([x] + t)[1..] == t;
  }

  /** The intervals of `s` that carry a name: what is left once the idle
      intervals are removed. */
  function Named(s: seq<Interval>): seq<Interval>
    decreases |s|
  {
    if s == [] then [] else (if s[0].name.Some? then [s[0]] else []) + Named(s[1..])
  }

  lemma NamedCons(y: Interval, u: seq<Interval>)
    ensures Named([y] + u) == (if y.name.Some? then [y] else []) + Named(u)
  {
    assert ([y] + u)[1..] == u;
  }

  lemma {:induction false} NamedAppend(a: seq<Interval>, b: seq<Interval>)
    ensures Named(a + b) == Named(a) + Named(b)
    decreases |a|
  {
    if a == [] {
      assert a + b == b;
    } else {
      var t := a[1..];
      assert a == [a[0]] + t;
      assert a + b == [a[0]] + (t + b);
      NamedCons(a[0], t + b);
      NamedCons(a[0], t);
      NamedAppend(t, b);
    }
  }

  /** Removing the idle intervals the filler inserted gives back its input. */
  lemma {:induction false} FillKeepsInput(s: seq<Interval>, cursor: int)
    requires forall x :: x in s ==> x.name.Some?
    ensures Named(FillFrom(s, cursor)) == s
    decreases |s|
  {
    if s == [] {
      assert Named(FillFrom(s, cursor)) == [] by {
        if cursor < DayMinutes {
          assert [Idle(cursor, DayMinutes - cursor)][1..] == [];
        }
      }
    } else {
      var t := s[1..];
      var gap := if s[0].from > cursor then [Idle(cursor, s[0].from - cursor)] else [];
      var rest := FillFrom(t, s[0].End());
      assert s == [s[0]] + t;
      FillFromCons(s[0], t, cursor);
      assert FillFrom(s, cursor) == gap + ([s[0]] + rest);
      FillKeepsInput(t, s[0].End());
      NamedAppend(gap, [s[0]] + rest);
      assert Named(gap) == [] by {
        if gap != [] {
          NamedCons(gap[0], []);
          assert gap == [gap[0]] + [];
        }
      }
      NamedCons(s[0], rest);
    }
  }

  /** Every input interval, named or not, appears in the output, in order. */
  lemma {:induction false} FillKeepsEveryInterval(s: seq<Interval>, cursor: int)
    ensures IsSubsequence(s, FillFrom(s, cursor))
    decreases |s|
  {
    if s != [] {
      var t := s[1..];
      var rest := FillFrom(t, s[0].End());
      FillKeepsEveryInterval(t, s[0].End());
      var kept := [s[0]] + rest;
      assert kept[0] == s[0] && kept[1..] == rest;
      assert IsSubsequence(s, kept);
      assert s == [s[0]] + t;
      FillFromCons(s[0], t, cursor);
      if s[0].from > cursor {
        var filled := FillFrom(s, cursor);
        assert filled == [Idle(cursor, s[0].from - cursor)] + kept;
        assert filled[1..] == kept;
      } else {
        assert FillFrom(s, cursor) == kept;
      }
    }
  }

  /** Everything in the output is an input interval or an idle interval of
      positive length. */
  lemma {:induction false} FillAddsOnlyIdle(s: seq<Interval>, cursor: int)
    ensures forall x :: x in FillFrom(s, cursor) ==> x in s || (x.name.None? && x.duration > 0)
    decreases |s|
  {
    if s != [] {
      FillAddsOnlyIdle(s[1..], s[0].End());
      assert forall x :: x in s[1..] ==> x in s;
    }
  }

  /** On chained input the output starts at the cursor, has no gap and no
      overlap, and ends at minute 1440 or at the end of the last input
      interval, whichever is later. It is empty only for empty input with the
      cursor already at or past 1440. */
  lemma {:induction false} FillCovers(s: seq<Interval>, cursor: int)
    requires Chained(s, cursor)
    ensures FillFrom(s, cursor) == [] <==> s == [] && cursor >= DayMinutes
    ensures FillFrom(s, cursor) != [] ==>
              FillFrom(s, cursor)[0].from == cursor &&
              FillFrom(s, cursor)[|FillFrom(s, cursor)| - 1].End() ==
                (if LastEnd(s, cursor) < DayMinutes then DayMinutes else LastEnd(s, cursor))
    ensures Contiguous(FillFrom(s, cursor))
    decreases |s|
  {
    if s != [] {
      var gap := if s[0].from > cursor then [Idle(cursor, s[0].from - cursor)] else [];
      var rest := FillFrom(s[1..], s[0].End());
      FillCovers(s[1..], s[0].End());
      ContiguousAppend(gap, [s[0]]);
      ContiguousAppend(gap + [s[0]], rest);
      var r := FillFrom(s, cursor);
      assert r == gap + [s[0]] + rest;
      assert r[0].from == cursor;
      if rest != [] {
        assert r[|r| - 1] == rest[|rest| - 1];
        assert s[1..] != [] ==> s[|s| - 1] == s[1..][|s[1..]| - 1];
      } else {
        assert r[|r| - 1] == s[0];
      }
    }
  }

  /** On chained input the filler changes nothing exactly when the input
      already starts at the cursor, is contiguous and reaches minute 1440. */
  lemma {:induction false} FillIdentity(s: seq<Interval>, cursor: int)
    requires Chained(s, cursor)
    ensures FillFrom(s, cursor) == s <==>
              (s == [] && cursor >= DayMinutes) ||
              (s != [] && s[0].from == cursor && Contiguous(s) && LastEnd(s, cursor) >= DayMinutes)
    decreases |s|
  {
    FillCovers(s, cursor);
    if s != [] && s[0].from == cursor && Contiguous(s) && LastEnd(s, cursor) >= DayMinutes {
      FillOnPartition(s, cursor);
    }
  }

  lemma {:induction false} FillOnPartition(s: seq<Interval>, cursor: int)
    requires s != [] && s[0].from == cursor && Contiguous(s) && LastEnd(s, cursor) >= DayMinutes
    ensures FillFrom(s, cursor) == s
    decreases |s|
  {
    var t := s[1..];
    assert FillFrom(s, cursor) == [s[0]] + FillFrom(t, s[0].End());
    if t == [] {
      assert s[0].End() >= DayMinutes;
    } else {
      ContiguousTail(s);
      assert t[0].from == s[0].End();
      assert LastEnd(t, s[0].End()) == LastEnd(s, cursor);
      FillOnPartition(t, s[0].End());
    }
    assert s == [s[0]] + t;
  }

  lemma ContiguousTail(s: seq<Interval>)
    requires s != [] && Contiguous(s)
    ensures Contiguous(s[1..])
    ensures |s| > 1 ==> s[1..][0].from == s[0].End()
  {
    var t := s[1..];
    forall i | 0 < i < |t| ensures t[i - 1].End() == t[i].from {
      assert t[i - 1] == s[i] && t[i] == s[i + 1];
    }
    if |s| > 1 {
      assert t[0] == s[1];
    }
  }

  /** A kept interval with a negative duration moves the cursor back to its
      `to`, so the next gap starts there and minutes 540-600 are covered a
      second time. */
  lemma NegativeDurationMovesCursorBack(a: Interval, b: Interval)
    requires a == Interval(Some("A"), 600, -60) && b == Interval(Some("B"), 700, 10)
    ensures FillFrom([a, b], 0) == [Idle(0, 600), a, Idle(540, 160), b, Idle(710, 730)]
  {
    FillFromCons(a, [b], 0);
    FillFromCons(b, [], 540);
    assert [a, b] == [a] + [b];
  }

  /** Empty input becomes one idle interval spanning the whole day. */
  lemma FillEmpty()
    ensures FillFrom([], 0) == [Idle(0, DayMinutes)]
  {
  }
}

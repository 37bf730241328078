/** The values that flow through the schedule generator: raw JSON records,
    minute-offset intervals, and the predicates that describe an ordered,
    gap-free partition of one day. */
module Schedule {

  datatype Option<+T> = None | Some(value: T)

  /** Minutes in the day the chart covers. */
  const DayMinutes: int := 1440

  /** One element of the parsed JSON array. An absent or `null` field is `None`. */
  datatype RawRecord = RawRecord(name: Option<string>, from: Option<string>, to: Option<string>)

  /** A span of minutes; `name == None` marks an idle interval. */
  datatype Interval = Interval(name: Option<string>, from: int, duration: int)
  {
    /** The minute at which the interval ends, i.e. the cursor it leaves behind. */
    function End(): int { from + duration }
  }

  function Idle(from: int, duration: int): Interval
  {
    Interval(None, from, duration)
  }

  /** Ascending by start minute. */
  ghost predicate Sorted(s: seq<Interval>)
  {
    forall i, j :: 0 <= i < j < |s| ==> s[i].from <= s[j].from
  }

  /** Every interval starts at or after the end of the one before it, and the
      first at or after `cursor`: what a left-to-right sweep with a cursor
      starting at `cursor` accepts without dropping anything. */
  ghost predicate Chained(s: seq<Interval>, cursor: int)
    decreases |s|
  {
    s == [] || (cursor <= s[0].from && Chained(s[1..], s[0].End()))
  }

  /** The cursor a sweep over `s` leaves behind: the end of the last interval. */
  function LastEnd(s: seq<Interval>, cursor: int): int
  {
    if s == [] then cursor else s[|s| - 1].End()
  }

  /** Each interval ends exactly where the next one starts. */
  ghost predicate Contiguous(s: seq<Interval>)
  {
    forall i :: 0 < i < |s| ==> s[i - 1].End() == s[i].from
  }

  /** `a` is `b` with some elements removed, the rest in their original order. */
  ghost predicate IsSubsequence<T>(a: seq<T>, b: seq<T>)
    decreases |b|
  {
    if a == [] then true
    else if b == [] then false
    else (a[0] == b[0] && IsSubsequence(a[1..], b[1..])) || IsSubsequence(a, b[1..])
  }

  /** The cursor in force when the sweep reaches position `i` of `s`. */
  function CursorAt(s: seq<Interval>, i: int, cursor: int): int
    requires 0 <= i <= |s|
  {
    if i == 0 then cursor else s[i - 1].End()
  }

  /** The chained property stated position by position. */
  lemma {:induction false} ChainedAt(s: seq<Interval>, cursor: int)
    ensures Chained(s, cursor) <==> forall i :: 0 <= i < |s| ==> CursorAt(s, i, cursor) <= s[i].from
    decreases |s|
  {
    if s != [] {
      var t := s[1..];
      ChainedAt(t, s[0].End());
      if Chained(s, cursor) {
        forall i | 0 <= i < |s| ensures CursorAt(s, i, cursor) <= s[i].from {
          if i > 0 {
            assert t[i - 1] == s[i];
            assert CursorAt(t, i - 1, s[0].End()) == CursorAt(s, i, cursor);
          }
        }
      }
      if forall i :: 0 <= i < |s| ==> CursorAt(s, i, cursor) <= s[i].from {
        assert CursorAt(s, 0, cursor) <= s[0].from;
        forall j | 0 <= j < |t| ensures CursorAt(t, j, s[0].End()) <= t[j].from {
          assert t[j] == s[j + 1];
          assert CursorAt(t, j, s[0].End()) == CursorAt(s, j + 1, cursor);
        }
      }
    }
  }

  lemma {:induction false} SubsequenceLength<T>(a: seq<T>, b: seq<T>)
    requires IsSubsequence(a, b)
    ensures |a| <= |b|
    decreases |b|
  {
    if a != [] {
      if a[0] == b[0] && IsSubsequence(a[1..], b[1..]) {
        SubsequenceLength(a[1..], b[1..]);
      } else {
        SubsequenceLength(a, b[1..]);
      }
    }
  }

  lemma {:induction false} SubsequenceElements<T>(a: seq<T>, b: seq<T>)
    requires IsSubsequence(a, b)
    ensures forall x :: x in a ==> x in b
    decreases |b|
  {
    if a != [] {
      if a[0] == b[0] && IsSubsequence(a[1..], b[1..]) {
        SubsequenceElements(a[1..], b[1..]);
        assert forall x :: x in a ==> x == a[0] || x in a[1..];
      } else {
        SubsequenceElements(a, b[1..]);
      }
    }
  }

  /** Dropping elements from a sorted sequence leaves it sorted. */
  lemma {:induction false} SubsequenceSorted(a: seq<Interval>, b: seq<Interval>)
    requires IsSubsequence(a, b) && Sorted(b)
    ensures Sorted(a)
    decreases |b|
  {
    if a != [] {
      if a[0] == b[0] && IsSubsequence(a[1..], b[1..]) {
        SubsequenceSorted(a[1..], b[1..]);
        SubsequenceElements(a[1..], b[1..]);
        forall j | 0 < j < |a| ensures a[0].from <= a[j].from {
          assert a[j] in a[1..];
          var k :| 0 <= k < |b[1..]| && b[1..][k] == a[j];
          assert b[k + 1] == a[j];
        }
      } else {
        SubsequenceSorted(a, b[1..]);
      }
    }
  }

  /** Joining two contiguous runs that meet end to start gives a contiguous run. */
  lemma ContiguousAppend(a: seq<Interval>, b: seq<Interval>)
    requires Contiguous(a) && Contiguous(b)
    requires a != [] && b != [] ==> a[|a| - 1].End() == b[0].from
    ensures Contiguous(a + b)
  {
    var ab := a + b;
    forall i | 0 < i < |ab| ensures ab[i - 1].End() == ab[i].from {
      if i < |a| {
        assert ab[i - 1] == a[i - 1] && ab[i] == a[i];
      } else if i == |a| {
        assert ab[i - 1] == a[|a| - 1] && ab[i] == b[0];
      } else {
        assert ab[i - 1] == b[i - 1 - |a|] && ab[i] == b[i - |a|];
      }
    }
  }

  /** In a contiguous run whose durations are never negative the start
      minutes never decrease. */
  lemma ContiguousSorted(s: seq<Interval>)
    requires Contiguous(s)
    requires forall i :: 0 <= i < |s| ==> s[i].duration >= 0
    ensures Sorted(s)
  {
    forall i, j | 0 <= i < j < |s| ensures s[i].from <= s[j].from {
      ContiguousAscends(s, i, j);
    }
  }

  lemma {:induction false} ContiguousAscends(s: seq<Interval>, i: int, j: int)
    requires Contiguous(s)
    requires forall k :: 0 <= k < |s| ==> s[k].duration >= 0
    requires 0 <= i <= j < |s|
    ensures s[i].from <= s[j].from
    decreases j - i
  {
    if i < j {
      ContiguousAscends(s, i, j - 1);
      assert s[j - 1].End() == s[j].from;
    }
  }
}

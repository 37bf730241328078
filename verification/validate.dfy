/** The validator: a stable filter that keeps the records with a name and two
    well-formed `HH:MM` bounds. Hours and minutes are not range-checked. */
module Validate {
  import opened Schedule

  /** `\d` of a JavaScript regular expression: an ASCII decimal digit. */
  predicate IsDigit(c: char)
  {
    '0' <= c <= '9'
  }

  /** The whole string matches `^\d{2}:\d{2}$`. */
  predicate IsClock(s: string)
  {
    |s| == 5 && IsDigit(s[0]) && IsDigit(s[1]) && s[2] == ':' && IsDigit(s[3]) && IsDigit(s[4])
  }

  /** JavaScript truthiness of a string-or-absent name: present and non-empty. */
  predicate IsTruthy(name: Option<string>)
  {
    name.Some? && name.value != ""
  }

  /** A bound is present (truthy) and matches the clock pattern. */
  predicate IsClockField(field: Option<string>)
  {
    field.Some? && IsClock(field.value)
  }

  predicate IsValidRecord(r: RawRecord)
  {
    IsTruthy(r.name) && IsClockField(r.from) && IsClockField(r.to)
  }

  /** Keeps the valid records, in their original order. */
  function ValidateData(records: seq<RawRecord>): (kept: seq<RawRecord>)
    ensures forall x :: x in kept ==> IsValidRecord(x)
    ensures |kept| <= |records|
    decreases |records|
  {
    if records == [] then []
    else (if IsValidRecord(records[0]) then [records[0]] else []) + ValidateData(records[1..])
  }

  /** Filtering a concatenation filters each part: together with the
      one-record case this determines ValidateData completely. */
  lemma {:induction false} ValidateDataAppend(a: seq<RawRecord>, b: seq<RawRecord>)
    ensures ValidateData(a + b) == ValidateData(a) + ValidateData(b)
    decreases |a|
  {
    if a == [] {
      assert a + b == b;
    } else {
      assert (a + b)[1..] == a[1..] + b;
      ValidateDataAppend(a[1..], b);
    }
  }

  /** One record survives exactly when it is valid. */
  lemma ValidateDataSingle(r: RawRecord)
    ensures ValidateData([r]) == if IsValidRecord(r) then [r] else []
  {
    assert [r][1..] == [];
  }

  /** Each valid record survives as often as it occurs; no invalid one survives. */
  lemma {:induction false} ValidateDataCounts(records: seq<RawRecord>, x: RawRecord)
    ensures multiset(ValidateData(records))[x] == if IsValidRecord(x) then multiset(records)[x] else 0
    decreases |records|
  {
    if records != [] {
      ValidateDataCounts(records[1..], x);
      assert records == [records[0]] + records[1..];
    }
  }

  /** Survivors keep their original relative order. */
  lemma {:induction false} ValidateDataSubsequence(records: seq<RawRecord>)
    ensures IsSubsequence(ValidateData(records), records)
    decreases |records|
  {
    if records != [] {
      ValidateDataSubsequence(records[1..]);
      var rest := ValidateData(records[1..]);
      var kept := ValidateData(records);
      if IsValidRecord(records[0]) {
        assert kept[0] == records[0] && kept[1..] == rest;
      } else {
        assert kept == rest;
      }
    }
  }

  /** Nothing is dropped exactly when every record is valid. */
  lemma {:induction false} ValidateDataIdentity(records: seq<RawRecord>)
    ensures ValidateData(records) == records <==> forall x :: x in records ==> IsValidRecord(x)
    decreases |records|
  {
    if records != [] {
      ValidateDataIdentity(records[1..]);
      if !IsValidRecord(records[0]) {
        assert |ValidateData(records)| < |records|;
      } else if ValidateData(records) == records {
        assert ValidateData(records[1..]) == records[1..];
      }
      assert forall x :: x in records ==> x == records[0] || x in records[1..];
    }
  }

  /** Validating already-validated data changes nothing. */
  lemma ValidateDataIdempotent(records: seq<RawRecord>)
    ensures ValidateData(ValidateData(records)) == ValidateData(records)
  {
    ValidateDataIdentity(ValidateData(records));
  }

  /** The pattern counts digits only: "99:99" passes, "9:00" does not. */
  lemma ClockPatternExamples()
    ensures IsClock("99:99") && IsClock("00:00")
    ensures !IsClock("9:00") && !IsClock("09:0a") && !IsClock("09-00")
  {
  }
}

/**
 Filtering of the line-oriented JSON log a pytest run leaves behind: only
 the records whose `$report_type` is `TestReport` are kept for the report.
 */
module PytestJson {
  import opened Common

  /** A decoded JSON value. */
  datatype Json =
    | JNull
    | JBool(b: bool)
    | JNumber(n: int)
    | JString(s: string)
    | JArray(items: seq<Json>)
    | JObject(fields: map<string, Json>)

  /** One line of the log, decoded to an object. */
  type Row = map<string, Json>

  /** `row.get('$report_type', None) == 'TestReport'`. */
  predicate IsTestReport(row: Row) {
    Get(row, "$report_type") == Some(JString("TestReport"))
  }

  /** True when `a` is `b` with some elements left out, the rest in their order. */
  predicate IsSubsequence<T(==)>(a: seq<T>, b: seq<T>)
    decreases |b|
  {
    if |a| == 0 then true
    else if |b| == 0 then false
    else if a[|a| - 1] == b[|b| - 1] then IsSubsequence(a[..|a| - 1], b[..|b| - 1])
    else IsSubsequence(a, b[..|b| - 1])
  }

  /**
   The rows that are test reports, in their original order: every kept row
   is a test report, and every test report of the input is kept as often as
   it occurs there.
   */
  function Sanitise(rows: seq<Row>): (kept: seq<Row>)
    ensures |kept| <= |rows|
    ensures forall i | 0 <= i < |kept| :: IsTestReport(kept[i])
    ensures forall row | IsTestReport(row) :: multiset(kept)[row] == multiset(rows)[row]
  {
    if |rows| == 0 then []
    else
      var last := rows[|rows| - 1];
      var front := Sanitise(rows[..|rows| - 1]);
      assert rows == rows[..|rows| - 1] + [last];
      if IsTestReport(last) then front + [last] else front
  }

  /** The kept rows are a subsequence of the input. */
  lemma {:induction false} SanitiseIsSubsequence(rows: seq<Row>)
    ensures IsSubsequence(Sanitise(rows), rows)
  {
    if |rows| > 0 {
      var front := rows[..|rows| - 1];
      SanitiseIsSubsequence(front);
      if !IsTestReport(rows[|rows| - 1]) {
        SubsequenceOfLonger(Sanitise(front), front, rows[|rows| - 1]);
      } else {
        var kept := Sanitise(rows);
        assert kept[..|kept| - 1] == Sanitise(front);
      }
    }
  }

  /** A subsequence stays one when the longer sequence grows at its end. */
  lemma {:induction false} SubsequenceOfLonger<T>(a: seq<T>, b: seq<T>, x: T)
    requires IsSubsequence(a, b)
    ensures IsSubsequence(a, b + [x])
    decreases |b|, 1
  {
    var bx := b + [x];
    assert bx[..|bx| - 1] == b;
    if |a| > 0 && a[|a| - 1] == x {
      SubsequenceDropLast(a, b);
    }
  }

  /** Dropping the last element of the shorter side keeps the subsequence relation. */
  lemma {:induction false} SubsequenceDropLast<T>(a: seq<T>, b: seq<T>)
    requires |a| > 0 && IsSubsequence(a, b)
    ensures IsSubsequence(a[..|a| - 1], b)
    decreases |b|, 0
  {
    var b' := b[..|b| - 1];
    assert b' + [b[|b| - 1]] == b;
    if a[|a| - 1] == b[|b| - 1] {
      SubsequenceOfLonger(a[..|a| - 1], b', b[|b| - 1]);
    } else {
      SubsequenceDropLast(a, b');
      SubsequenceOfLonger(a[..|a| - 1], b', b[|b| - 1]);
    }
  }

  /** Filtering a filtered log changes nothing. */
  lemma {:induction false} SanitiseIdempotent(rows: seq<Row>)
    ensures Sanitise(Sanitise(rows)) == Sanitise(rows)
  {
    AllReportsKept(Sanitise(rows));
  }

  /** A log of test reports only passes the filter unchanged. */
  lemma {:induction false} AllReportsKept(rows: seq<Row>)
    requires forall i | 0 <= i < |rows| :: IsTestReport(rows[i])
    ensures Sanitise(rows) == rows
  {
    if |rows| > 0 {
      AllReportsKept(rows[..|rows| - 1]);
      assert rows == rows[..|rows| - 1] + [rows[|rows| - 1]];
    }
  }
}

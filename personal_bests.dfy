/**
 * The personal-best table: the results sheet is folded, row by row and in
 * order, into a table from (course, event) to the fastest time with the meet
 * and date it was swum at. A later row replaces an entry only when it is
 * strictly faster, so of equal times the earliest row is kept.
 */
module PersonalBests {
  import opened Wrappers
  import opened Csv
  import opened TimeCodec
  import opened SwimTypes

  /** One table entry: the time and where and when it was swum (either may be `undefined`). */
  datatype SwimmerTime = SwimmerTime(time: real, meet: Option<string>, date: Option<string>)

  /** `pb[course][event]`, flattened to one map. */
  type PbTable = map<(Course, string), SwimmerTime>

  /** What the callback reads from a row: course, event and parsed time first, meet and date when it stores. */
  datatype ResultRow = ResultRow(
    course: Option<string>, event: Option<string>, time: Option<Number>,
    meet: Option<string>, date: Option<string>)

  /** The columns `Course`, `Event`, `Final Time`, `meet_name` and `event_date` of a parsed record. */
  function ReadResult(r: Record): (row: ResultRow)
    ensures NonNegative(row)
  {
    ResultRow(Field(r, "Course"), Field(r, "Event"), TimeField(r, "Final Time"),
      Field(r, "meet_name"), Field(r, "event_date"))
  }

  /** `swimData`, with each record read as above. */
  function ReadResults(records: seq<Record>): (rows: seq<ResultRow>)
    ensures |rows| == |records|
    ensures forall j :: 0 <= j < |records| ==> rows[j] == ReadResult(records[j])
  {
    if records == [] then [] else ReadResults(records[..|records| - 1]) + [ReadResult(records[|records| - 1])]
  }

  /** A parsed time is never negative. */
  predicate NonNegative(row: ResultRow) {
    row.time.Some? && row.time.value.Finite? ==> row.time.value.value >= 0.0
  }

  /** A row the loop does not skip: course, event and time are all truthy. */
  predicate Counted(row: ResultRow) {
    Truthy(row.course) && Truthy(row.event) && IsTruthy(row.time)
  }

  /** A counted row whose course names no table: reading `pb[c][e]` throws and the load stops. */
  predicate Aborts(row: ResultRow) {
    Counted(row) && CourseOf(row.course.value).None?
  }

  /** The table key a row updates, if it is counted and its course is known. */
  function KeyOf(row: ResultRow): (k: Option<(Course, string)>)
    ensures k.Some? <==> Counted(row) && !Aborts(row)
  {
    if Counted(row) then
      match CourseOf(row.course.value)
      case Some(c) => Some((c, row.event.value))
      case None => None
    else None
  }

  /** The row's time in seconds (0 when it is not truthy). */
  function TimeOf(row: ResultRow): real {
    if IsTruthy(row.time) then row.time.value.value else 0.0
  }

  /** The entry a counted row would store. */
  function EntryOf(row: ResultRow): SwimmerTime {
    SwimmerTime(TimeOf(row), row.meet, row.date)
  }

  /** Every stored time is positive (a truthy parsed time). */
  predicate PositiveTimes(pb: PbTable) {
    forall k :: k in pb ==> pb[k].time > 0.0
  }

  /**
   * One call of the `forEach` callback on `pb`; `None` when it throws. A
   * skipped row changes nothing, a counted row touches only its own key, and
   * there it keeps the stored entry unless the row is strictly faster.
   */
  function PbStep(pb: PbTable, r: ResultRow): (o: Option<PbTable>)
    ensures o.None? <==> Aborts(r)
    ensures !Counted(r) ==> o == Some(pb)
    ensures KeyOf(r).Some? ==> o.Some? && var k := KeyOf(r).value;
      && o.value - {k} == pb - {k}
      && k in o.value
      && (if k in pb && pb[k].time <= TimeOf(r) then o.value[k] == pb[k] else o.value[k] == EntryOf(r))
    ensures o.Some? && PositiveTimes(pb) && NonNegative(r) ==> PositiveTimes(o.value)
  {
    match KeyOf(r)
    case None => if Aborts(r) then None else Some(pb)
    case Some(k) =>
      if k !in pb || pb[k].time > TimeOf(r) then Some(pb[k := EntryOf(r)]) else Some(pb)
  }

  /** The table after the callback has run on every row, in order; `None` once a row throws. */
  function PersonalBestsOf(rows: seq<ResultRow>): (o: Option<PbTable>)
    ensures o.Some? && (forall j :: 0 <= j < |rows| ==> NonNegative(rows[j])) ==> PositiveTimes(o.value)
  {
    if rows == [] then Some(map[])
    else
      match PersonalBestsOf(rows[..|rows| - 1])
      case None => None
      case Some(pb) => PbStep(pb, rows[|rows| - 1])
  }

  /** Once the load has stopped at some row, no later row resumes it. */
  lemma {:induction false} AbortPersists(rows: seq<ResultRow>, n: nat)
    requires n <= |rows| && PersonalBestsOf(rows[..n]).None?
    ensures PersonalBestsOf(rows).None?
  {
    if n < |rows| {
      var m := |rows| - 1;
      assert rows[..m][..n] == rows[..n];
      AbortPersists(rows[..m], n);
    } else {
      assert rows[..n] == rows;
    }
  }

  /** The fold over one more row is one more step. */
  lemma FoldStep(rows: seq<ResultRow>, i: nat)
    requires i < |rows|
    ensures PersonalBestsOf(rows[..i + 1])
      == match PersonalBestsOf(rows[..i]) case None => None case Some(pb) => PbStep(pb, rows[i])
  {
    assert rows[..i + 1][..i] == rows[..i];
  }

  /** The `forEach` over the result records, updating the table in place. */
  method BuildPersonalBests(records: seq<Record>) returns (pb: Option<PbTable>)
    ensures pb == PersonalBestsOf(ReadResults(records))
  {
    ghost var rows := ReadResults(records);
    var table: PbTable := map[];
    var i := 0;
    while i < |records|
      invariant 0 <= i <= |records|
      invariant PersonalBestsOf(rows[..i]) == Some(table)
    {
      var r := records[i];
      var c, e, t := Field(r, "Course"), Field(r, "Event"), TimeField(r, "Final Time");
      ghost var row := rows[i];
      assert row == ResultRow(c, e, t, Field(r, "meet_name"), Field(r, "event_date"));
      FoldStep(rows, i);
      ghost var before := table;
      if Truthy(c) && Truthy(e) && IsTruthy(t) {
        var course := CourseOf(c.value);
        if course.None? {
          AbortPersists(rows, i + 1);
          return None;
        }
        var key := (course.value, e.value);
        assert KeyOf(row) == Some(key) && TimeOf(row) == t.value.value;
        if key !in table || table[key].time > t.value.value {
          table := table[key := SwimmerTime(t.value.value, Field(r, "meet_name"), Field(r, "event_date"))];
        }
      }
      assert PbStep(before, row) == Some(table);
      i := i + 1;
    }
    assert rows[..i] == rows;
    return Some(table);
  }

  /**
   * The row a personal best comes from, defined without the table: among the
   * rows with key `k`, the earliest one with the smallest time.
   */
  function BestRow(rows: seq<ResultRow>, k: (Course, string)): (b: Option<nat>)
    ensures b.Some? ==> b.value < |rows| && KeyOf(rows[b.value]) == Some(k)
    ensures b.Some? ==> forall j :: 0 <= j < |rows| && KeyOf(rows[j]) == Some(k) ==> TimeOf(rows[b.value]) <= TimeOf(rows[j])
    ensures b.Some? ==> forall j :: 0 <= j < b.value && KeyOf(rows[j]) == Some(k) ==> TimeOf(rows[b.value]) < TimeOf(rows[j])
    ensures b.None? ==> forall j :: 0 <= j < |rows| ==> KeyOf(rows[j]) != Some(k)
  {
    if rows == [] then None
    else
      var n := |rows| - 1;
      var p := BestRow(rows[..n], k);
      if KeyOf(rows[n]) == Some(k) && (p.None? || TimeOf(rows[p.value]) > TimeOf(rows[n])) then Some(n) else p
  }

  /**
   * After the loop, a key is in the table exactly when some row has that key,
   * and its entry is the one of the earliest fastest such row.
   */
  lemma {:induction false} PersonalBestsAreBestRows(rows: seq<ResultRow>, k: (Course, string))
    requires PersonalBestsOf(rows).Some?
    ensures var pb := PersonalBestsOf(rows).value;
      && (k in pb <==> BestRow(rows, k).Some?)
      && (k in pb ==> pb[k] == EntryOf(rows[BestRow(rows, k).value]))
  {
    if rows != [] {
      var n := |rows| - 1;
      var p := rows[..n];
      PersonalBestsAreBestRows(p, k);
      var b := BestRow(p, k);
      if b.Some? {
        assert rows[b.value] == p[b.value];
      }
    }
  }

  /** The load stops exactly when some counted row names a course other than SCY and LCM. */
  lemma {:induction false} PersonalBestsAbortIff(rows: seq<ResultRow>)
    ensures PersonalBestsOf(rows).None? <==> exists i :: 0 <= i < |rows| && Aborts(rows[i])
  {
    if rows != [] {
      var n := |rows| - 1;
      var p := rows[..n];
      PersonalBestsAbortIff(p);
      if exists i :: 0 <= i < |p| && Aborts(p[i]) {
        var i :| 0 <= i < |p| && Aborts(p[i]);
        assert rows[i] == p[i];
      }
      if exists i :: 0 <= i < |rows| && Aborts(rows[i]) {
        var i :| 0 <= i < |rows| && Aborts(rows[i]);
        if i < n {
          assert p[i] == rows[i];
        }
      }
    }
  }

  /**
   * Two 50 Freestyle rows in 30.10 and a later 30.50: the entry keeps the
   * first row's meet, since neither later row is strictly faster.
   */
  lemma TieKeepsEarliestExample()
    ensures PersonalBestsOf([
      ResultRow(Some("SCY"), Some("50 Freestyle"), Some(Finite(30.1)), Some("A"), Some("d1")),
      ResultRow(Some("SCY"), Some("50 Freestyle"), Some(Finite(30.1)), Some("B"), Some("d2")),
      ResultRow(Some("SCY"), Some("50 Freestyle"), Some(Finite(30.5)), Some("C"), Some("d3"))])
      == Some(map[(SCY, "50 Freestyle") := SwimmerTime(30.1, Some("A"), Some("d1"))])
  {
    var r1 := ResultRow(Some("SCY"), Some("50 Freestyle"), Some(Finite(30.1)), Some("A"), Some("d1"));
    var r2 := ResultRow(Some("SCY"), Some("50 Freestyle"), Some(Finite(30.1)), Some("B"), Some("d2"));
    var r3 := ResultRow(Some("SCY"), Some("50 Freestyle"), Some(Finite(30.5)), Some("C"), Some("d3"));
    var first := map[(SCY, "50 Freestyle") := SwimmerTime(30.1, Some("A"), Some("d1"))];
    assert [r1, r2, r3][..2] == [r1, r2] && [r1, r2][..1] == [r1] && [r1][..0] == [];
    assert PersonalBestsOf([r1]) == Some(first);
    assert PersonalBestsOf([r1, r2]) == Some(first);
  }
}

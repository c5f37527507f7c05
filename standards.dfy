/**
 * The standards table: the standards sheet is folded, row by row and in
 * order, into a table from (level, course, event) to the qualifying time.
 * A later row for the same key overwrites an earlier one.
 */
module Standards {
  import opened Wrappers
  import opened Csv
  import opened TimeCodec
  import opened SwimTypes

  /** `std[level][course][event]`, flattened to one map. */
  type StdTable = map<(Level, Course, string), real>

  /** What the callback reads from a row: `Standard`, `Course`, `Event` and the parsed `Time`. */
  datatype StandardRow = StandardRow(
    level: Option<string>, course: Option<string>, event: Option<string>, time: Option<Number>)

  /** The four columns of a parsed record. */
  function ReadStandard(r: Record): (row: StandardRow)
    ensures NonNegative(row)
  {
    StandardRow(Field(r, "Standard"), Field(r, "Course"), Field(r, "Event"), TimeField(r, "Time"))
  }

  /** `stdData`, with each record read as above. */
  function ReadStandards(records: seq<Record>): (rows: seq<StandardRow>)
    ensures |rows| == |records|
    ensures forall j :: 0 <= j < |records| ==> rows[j] == ReadStandard(records[j])
  {
    if records == [] then [] else ReadStandards(records[..|records| - 1]) + [ReadStandard(records[|records| - 1])]
  }

  /** A parsed time is never negative. */
  predicate NonNegative(row: StandardRow) {
    row.time.Some? && row.time.value.Finite? ==> row.time.value.value >= 0.0
  }

  /** A row the loop stores: all four values are truthy. */
  predicate Counted(row: StandardRow) {
    Truthy(row.level) && Truthy(row.course) && Truthy(row.event) && IsTruthy(row.time)
  }

  /**
   * A counted row whose level or course names no table: `std[s]` or
   * `std[s][c]` is `undefined`, the assignment throws and the load stops.
   */
  predicate Aborts(row: StandardRow) {
    Counted(row) && (LevelOf(row.level.value).None? || CourseOf(row.course.value).None?)
  }

  /** The table key a row sets, if it is counted and names known tables. */
  function KeyOf(row: StandardRow): (k: Option<(Level, Course, string)>)
    ensures k.Some? <==> Counted(row) && !Aborts(row)
  {
    if Counted(row) && LevelOf(row.level.value).Some? && CourseOf(row.course.value).Some? then
      Some((LevelOf(row.level.value).value, CourseOf(row.course.value).value, row.event.value))
    else None
  }

  /** The row's threshold in seconds (0 when it is not truthy). */
  function TimeOf(row: StandardRow): real {
    if IsTruthy(row.time) then row.time.value.value else 0.0
  }

  /** Every stored threshold is positive (a truthy parsed time). */
  predicate PositiveTimes(std: StdTable) {
    forall k :: k in std ==> std[k] > 0.0
  }

  /**
   * One call of the `forEach` callback on `std`; `None` when it throws. A
   * skipped row changes nothing, and a counted row sets its own key to its
   * time and touches no other.
   */
  function StdStep(std: StdTable, r: StandardRow): (o: Option<StdTable>)
    ensures o.None? <==> Aborts(r)
    ensures !Counted(r) ==> o == Some(std)
    ensures KeyOf(r).Some? ==> o.Some? && var k := KeyOf(r).value;
      && o.value - {k} == std - {k}
      && k in o.value && o.value[k] == TimeOf(r)
    ensures o.Some? && PositiveTimes(std) && NonNegative(r) ==> PositiveTimes(o.value)
  {
    match KeyOf(r)
    case None => if Aborts(r) then None else Some(std)
    case Some(k) => Some(std[k := TimeOf(r)])
  }

  /** The table after the callback has run on every row, in order; `None` once a row throws. */
  function StandardsOf(rows: seq<StandardRow>): (o: Option<StdTable>)
    ensures o.Some? && (forall j :: 0 <= j < |rows| ==> NonNegative(rows[j])) ==> PositiveTimes(o.value)
  {
    if rows == [] then Some(map[])
    else
      match StandardsOf(rows[..|rows| - 1])
      case None => None
      case Some(std) => StdStep(std, rows[|rows| - 1])
  }

  /** Once the load has stopped at some row, no later row resumes it. */
  lemma {:induction false} AbortPersists(rows: seq<StandardRow>, n: nat)
    requires n <= |rows| && StandardsOf(rows[..n]).None?
    ensures StandardsOf(rows).None?
  {
    if n < |rows| {
      var m := |rows| - 1;
      assert rows[..m][..n] == rows[..n];
      AbortPersists(rows[..m], n);
    } else {
      assert rows[..n] == rows;
    }
  }

  /** The fold over one more row is one more step. */
  lemma FoldStep(rows: seq<StandardRow>, i: nat)
    requires i < |rows|
    ensures StandardsOf(rows[..i + 1])
      == match StandardsOf(rows[..i]) case None => None case Some(std) => StdStep(std, rows[i])
  {
    assert rows[..i + 1][..i] == rows[..i];
  }

  /** The `forEach` over the standard records, assigning into the table in place. */
  method BuildStandards(records: seq<Record>) returns (std: Option<StdTable>)
    ensures std == StandardsOf(ReadStandards(records))
  {
    ghost var rows := ReadStandards(records);
    var table: StdTable := map[];
    var i := 0;
    while i < |records|
      invariant 0 <= i <= |records|
      invariant StandardsOf(rows[..i]) == Some(table)
    {
      var r := records[i];
      var s, c, e := Field(r, "Standard"), Field(r, "Course"), Field(r, "Event");
      var t := TimeField(r, "Time");
      ghost var row := rows[i];
      assert row == StandardRow(s, c, e, t);
      FoldStep(rows, i);
      ghost var before := table;
      if Truthy(s) && Truthy(c) && Truthy(e) && IsTruthy(t) {
        var level, course := LevelOf(s.value), CourseOf(c.value);
        if level.None? || course.None? {
          AbortPersists(rows, i + 1);
          return None;
        }
        table := table[(level.value, course.value, e.value) := t.value.value];
      }
      assert StdStep(before, row) == Some(table);
      i := i + 1;
    }
    assert rows[..i] == rows;
    return Some(table);
  }

  /** The row a threshold comes from, defined without the table: the last row with key `k`. */
  function LastRow(rows: seq<StandardRow>, k: (Level, Course, string)): (b: Option<nat>)
    ensures b.Some? ==> b.value < |rows| && KeyOf(rows[b.value]) == Some(k)
    ensures b.Some? ==> forall j :: b.value < j < |rows| ==> KeyOf(rows[j]) != Some(k)
    ensures b.None? ==> forall j :: 0 <= j < |rows| ==> KeyOf(rows[j]) != Some(k)
  {
    if rows == [] then None
    else if KeyOf(rows[|rows| - 1]) == Some(k) then Some(|rows| - 1)
    else LastRow(rows[..|rows| - 1], k)
  }

  /**
   * After the loop, a key is in the table exactly when some row has that key,
   * and it holds the time of the last such row.
   */
  lemma {:induction false} StandardsAreLastRows(rows: seq<StandardRow>, k: (Level, Course, string))
    requires StandardsOf(rows).Some?
    ensures var std := StandardsOf(rows).value;
      && (k in std <==> LastRow(rows, k).Some?)
      && (k in std ==> std[k] == TimeOf(rows[LastRow(rows, k).value]))
  {
    if rows != [] {
      var n := |rows| - 1;
      var p := rows[..n];
      StandardsAreLastRows(p, k);
      var b := LastRow(p, k);
      if b.Some? {
        assert rows[b.value] == p[b.value];
      }
    }
  }

  /** The load stops exactly when some counted row names an unknown level or course. */
  lemma {:induction false} StandardsAbortIff(rows: seq<StandardRow>)
    ensures StandardsOf(rows).None? <==> exists i :: 0 <= i < |rows| && Aborts(rows[i])
  {
    if rows != [] {
      var n := |rows| - 1;
      var p := rows[..n];
      StandardsAbortIff(p);
      if exists i :: 0 <= i < |p| && Aborts(p[i]) {
        var i :| 0 <= i < |p| && Aborts(p[i]);
        assert rows[i] == p[i];
      }
      if exists i :: 0 <= i < |rows| && Aborts(rows[i]) {
        var i :| 0 <= i < |rows| && Aborts(rows[i]);
        if i < n {
          assert p[i] == rows[i];
        }
      }
    }
  }

  /** Two State SCY 50 Freestyle rows, 28.00 then 27.50: the later one wins. */
  lemma LaterRowOverwritesExample()
    ensures StandardsOf([
      StandardRow(Some("State"), Some("SCY"), Some("50 Freestyle"), Some(Finite(28.0))),
      StandardRow(Some("State"), Some("SCY"), Some("50 Freestyle"), Some(Finite(27.5)))])
      == Some(map[(State, SCY, "50 Freestyle") := 27.5])
  {
    var r1 := StandardRow(Some("State"), Some("SCY"), Some("50 Freestyle"), Some(Finite(28.0)));
    var r2 := StandardRow(Some("State"), Some("SCY"), Some("50 Freestyle"), Some(Finite(27.5)));
    assert [r1, r2][..1] == [r1] && [r1][..0] == [];
    var k := (State, SCY, "50 Freestyle");
    assert StandardsOf([r1]) == Some(map[k := 28.0]);
    assert KeyOf(r2) == Some(k) && TimeOf(r2) == 27.5;
    assert map[k := 28.0][k := 27.5] == map[k := 27.5];
  }
}

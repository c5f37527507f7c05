/**
 * The vocabulary the two sheets share: the pool courses, the standard
 * levels, and how the page reads a column of a parsed row.
 */
module SwimTypes {
  import opened Wrappers
  import opened Csv
  import opened TimeCodec

  /** Short-course yards and long-course metres: the two tables `pb` and `std[level]` hold. */
  datatype Course = SCY | LCM

  /** The two standards the page checks against. */
  datatype Level = Regionals | State

  /**
   * The table `pb[c]` or `std[s][c]` that the column text `c` selects: the
   * cast `as Course` checks nothing, so any other text selects `undefined`.
   */
  function CourseOf(c: string): (o: Option<Course>)
    ensures o.Some? ==> CourseName(o.value) == c
    ensures o.None? ==> c != CourseName(SCY) && c != CourseName(LCM)
  {
    if c == "SCY" then Some(SCY) else if c == "LCM" then Some(LCM) else None
  }

  /** The text that names a course in both sheets and in the course selector. */
  function CourseName(c: Course): string {
    match c
    case SCY => "SCY"
    case LCM => "LCM"
  }

  /** The table `std[s]` that the column text `s` selects. */
  function LevelOf(s: string): (o: Option<Level>)
    ensures o.Some? ==> LevelName(o.value) == s
    ensures o.None? ==> s != LevelName(Regionals) && s != LevelName(State)
  {
    if s == "Regionals" then Some(Regionals) else if s == "State" then Some(State) else None
  }

  /** The text that names a level in the standards sheet and on the tabs. */
  function LevelName(l: Level): string {
    match l
    case Regionals => "Regionals"
    case State => "State"
  }

  /** A column value that JavaScript treats as true: present and not empty. */
  predicate Truthy(v: Option<string>) {
    v.Some? && v.value != ""
  }

  /** `parseTime(r[name])`. */
  function TimeField(r: Record, name: string): Option<Number> {
    ParseTime(Field(r, name))
  }
}

/**
 * The qualification card for one standard level: the personal best and the
 * standard for the selected course and event, whether the best meets the
 * standard, and the status line under the two times.
 */
module Qualification {
  import opened Wrappers
  import opened TimeCodec
  import opened SwimTypes
  import opened PersonalBests
  import opened Standards

  /** `swimmerData[course][event]?.time`. */
  function PbTime(pb: PbTable, course: Course, event: string): Option<real> {
    if (course, event) in pb then Some(pb[(course, event)].time) else None
  }

  /** `standards[level][course][event]`. */
  function StdTime(std: StdTable, level: Level, course: Course, event: string): Option<real> {
    if (level, course, event) in std then Some(std[(level, course, event)]) else None
  }

  /** A number that JavaScript treats as true: present and not zero. */
  predicate Positive(v: Option<real>) {
    v.Some? && v.value != 0.0
  }

  /** `met`: both values are present and the best is no slower than the standard. */
  predicate Met(pb: Option<real>, std: Option<real>) {
    pb.Some? && std.Some? && pb.value <= std.value
  }

  /** The three status lines of a card. */
  datatype Verdict = Qualified | Needs(deficit: real) | NoTimeAvailable

  /**
   * The status of a card: qualified when met; otherwise, when both values are
   * truthy, the seconds still to take off the best; otherwise no time.
   */
  function Evaluate(pb: Option<real>, std: Option<real>): (v: Verdict)
    ensures v.Qualified? <==> pb.Some? && std.Some? && pb.value <= std.value
    ensures v.Needs? ==> Positive(pb) && Positive(std)
    ensures v.Needs? ==> pb.Some? && std.Some? && v.deficit > 0.0 && pb.value == std.value + v.deficit
    ensures v.NoTimeAvailable? ==> !Met(pb, std) && !(Positive(pb) && Positive(std))
  {
    if Met(pb, std) then Qualified
    else if Positive(pb) && Positive(std) then Needs(pb.value - std.value)
    else NoTimeAvailable
  }

  /**
   * On the tables the load builds (every stored time positive), a card says
   * "No time available" exactly when a value is missing, "Needs" exactly when
   * both are present and the best is slower, and "Qualified" otherwise.
   */
  lemma CardVerdict(pb: PbTable, std: StdTable, level: Level, course: Course, event: string)
    requires PersonalBests.PositiveTimes(pb) && Standards.PositiveTimes(std)
    ensures var p, s := PbTime(pb, course, event), StdTime(std, level, course, event);
      var v := Evaluate(p, s);
      && (v.NoTimeAvailable? <==> p.None? || s.None?)
      && (v.Needs? <==> p.Some? && s.Some? && p.value > s.value)
      && (v.Qualified? <==> p.Some? && s.Some? && p.value <= s.value)
  {
    var p, s := PbTime(pb, course, event), StdTime(std, level, course, event);
    if p.Some? {
      assert pb[(course, event)].time > 0.0;
    }
    if s.Some? {
      assert std[(level, course, event)] > 0.0;
    }
  }

  /**
   * The deficit is exactly the improvement needed: a best faster by the
   * deficit qualifies, and a best faster by anything less does not.
   */
  lemma DeficitIsExact(pb: real, std: real, e: real)
    requires Evaluate(Some(pb), Some(std)).Needs?
    ensures Evaluate(Some(pb - Evaluate(Some(pb), Some(std)).deficit), Some(std)) == Qualified
    ensures e < Evaluate(Some(pb), Some(std)).deficit ==> !Met(Some(pb - e), Some(std))
  {
  }

  /** A qualifying best stays qualified when it improves. */
  lemma QualifiedWhenFaster(pb: real, faster: real, std: real)
    requires Evaluate(Some(pb), Some(std)) == Qualified && faster <= pb
    ensures Evaluate(Some(faster), Some(std)) == Qualified
  {
  }

  /** The status line: "Qualified", "Needs <deficit to 2 places>s to qualify" or "No time available". */
  function Message(v: Verdict): (m: string)
    ensures v.Qualified? <==> m == "Qualified"
    ensures v.NoTimeAvailable? <==> m == "No time available"
    ensures v.Needs? <==> |m| > 6 && m[..6] == "Needs "
  {
    match v
    case Qualified => assert "Qualified"[0] != "Needs "[0]; "Qualified"
    case Needs(d) => "Needs " + ToFixed2(d) + "s to qualify"
    case NoTimeAvailable => assert "No time available"[1] != "Needs "[1]; "No time available"
  }

  /** A deficit of whole hundredths is printed in the status line so that it reads back exactly. */
  lemma NeedsMessageReadsBack(d: real, n: nat)
    requires d == n as real / 100.0
    ensures var m := Message(Needs(d));
      |m| >= 18 && ParseFloat(m[6..|m| - 12]) == Finite(d)
  {
    var t := ToFixed2(d);
    var m := Message(Needs(d));
    assert m[6..|m| - 12] == t;
    ToFixed2Exact(n);
  }

  /** What a card shows: whether it is met (its colour and icon), the two times and the status line. */
  datatype Card = Card(met: bool, standard: string, best: string, status: string)

  /** `renderCard(level)` for the selected course and event. */
  function RenderCard(pb: PbTable, std: StdTable, level: Level, course: Course, event: string): (c: Card)
    ensures var p, s := PbTime(pb, course, event), StdTime(std, level, course, event);
      && (c.met <==> c.status == "Qualified")
      && (c.standard == "-" <==> s.None?)
      && (c.best == "-" <==> p.None?)
  {
    var p, s := PbTime(pb, course, event), StdTime(std, level, course, event);
    Card(Met(p, s), ToTimeStr(s), ToTimeStr(p), Message(Evaluate(p, s)))
  }

  /** On built tables, both printed times read back as the stored times rounded to the hundredth. */
  lemma CardTimesReadBack(pb: PbTable, std: StdTable, level: Level, course: Course, event: string)
    requires PersonalBests.PositiveTimes(pb) && Standards.PositiveTimes(std)
    ensures var c := RenderCard(pb, std, level, course, event);
      var p, s := PbTime(pb, course, event), StdTime(std, level, course, event);
      && (p.Some? ==> ParseTime(Some(c.best)) == Some(Finite(RoundToHundredths(p.value))))
      && (s.Some? ==> ParseTime(Some(c.standard)) == Some(Finite(RoundToHundredths(s.value))))
  {
    var p, s := PbTime(pb, course, event), StdTime(std, level, course, event);
    if p.Some? {
      assert pb[(course, event)].time > 0.0;
      ToTimeStrReadsBack(p.value);
    }
    if s.Some? {
      assert std[(level, course, event)] > 0.0;
      ToTimeStrReadsBack(s.value);
    }
  }

  /**
   * The best a card shows, after the load: the time of the earliest fastest
   * result row for its course and event, or none when there is no such row.
   */
  lemma CardBestIsBestRow(rows: seq<ResultRow>, course: Course, event: string)
    requires PersonalBestsOf(rows).Some?
    ensures var b := BestRow(rows, (course, event));
      PbTime(PersonalBestsOf(rows).value, course, event)
        == if b.Some? then Some(PersonalBests.TimeOf(rows[b.value])) else None
  {
    PersonalBestsAreBestRows(rows, (course, event));
  }

  /**
   * The standard a card shows, after the load: the time of the last standards
   * row for its level, course and event, or none when there is no such row.
   */
  lemma CardStandardIsLastRow(rows: seq<StandardRow>, level: Level, course: Course, event: string)
    requires StandardsOf(rows).Some?
    ensures var b := LastRow(rows, (level, course, event));
      StdTime(StandardsOf(rows).value, level, course, event)
        == if b.Some? then Some(Standards.TimeOf(rows[b.value])) else None
  {
    StandardsAreLastRows(rows, (level, course, event));
  }

  /** The examples of the card: 29.5 against 30.0 qualifies, 30.5 needs 0.5, no best has no time. */
  lemma EvaluateExamples()
    ensures Evaluate(Some(29.5), Some(30.0)) == Qualified
    ensures Evaluate(Some(30.5), Some(30.0)) == Needs(0.5)
    ensures Evaluate(None, Some(30.0)) == NoTimeAvailable
  {
  }

  /** As written, a stored best of 59.996 is shown on the card as "60.00". */
  lemma CardShowsSixtyExample()
    ensures RenderCard(map[(SCY, "50 Freestyle") := SwimmerTime(59.996, None, None)], map[],
      Regionals, SCY, "50 Freestyle").best == "60.00"
  {
    SixtySecondsShown();
  }
}

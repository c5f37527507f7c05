/**
 * The time codec of the results page: `parseTime` turns "SS.hh", "M:SS.hh"
 * (and any number of colon-separated segments) into seconds, and
 * `toTimeStr` prints seconds as "M:SS.hh", or "SS.hh" below a minute.
 *
 * Numbers are exact reals. A number of the model is either finite or NaN:
 * the model reads every segment that is not an unsigned decimal as NaN
 * (JavaScript's `parseFloat` also accepts signs, exponents, "Infinity" and
 * a decimal prefix followed by other text; the README lists these as left
 * out), and NaN absorbs every later step of the fold.
 */
module TimeCodec {
  import opened Wrappers
  import opened Strings

  /** A number of the model: a finite value, or NaN for a segment the model does not read. */
  datatype Number = Finite(value: real) | NaN

  /** JavaScript truthiness of a parsed time: `null`, `NaN` and `0` are falsy. */
  predicate IsTruthy(t: Option<Number>) {
    t.Some? && t.value.Finite? && t.value.value != 0.0
  }

  /** `s.toLowerCase() === 'dq'`: only 'd'/'D' and 'q'/'Q' lower-case to those letters. */
  predicate IsDq(s: string) {
    |s| == 2 && (s[0] == 'd' || s[0] == 'D') && (s[1] == 'q' || s[1] == 'Q')
  }

  /**
   * `parseFloat` on one segment, for unsigned decimals: digits, optionally a
   * point and more digits, with at least one digit in all. Anything else is NaN.
   */
  function ParseFloat(seg: string): (n: Number)
    ensures n.Finite? ==> n.value >= 0.0
  {
    var pieces := Split(seg, '.');
    if |pieces| == 1 then
      if pieces[0] != [] && AllDigits(pieces[0]) then Finite(DigitsValue(pieces[0]) as real) else NaN
    else if |pieces| == 2 && AllDigits(pieces[0]) && AllDigits(pieces[1]) && |pieces[0]| + |pieces[1]| > 0 then
      Finite(DecimalValue(pieces[0], pieces[1]))
    else
      NaN
  }

  /** The value of "ip.fp": the integer digits plus the fraction digits scaled below the point. */
  function DecimalValue(ip: string, fp: string): (v: real)
    requires AllDigits(ip) && AllDigits(fp)
    ensures v >= 0.0
  {
    DigitsValue(ip) as real + FractionValue(fp)
  }

  /** The value of the digits after the point: "05" is 0.05; it lies in [0, 1). */
  function FractionValue(fp: string): (v: real)
    requires AllDigits(fp)
    ensures 0.0 <= v < 1.0
  {
    if fp == [] then 0.0 else ((fp[0] as int - '0' as int) as real + FractionValue(fp[1..])) / 10.0
  }

  /** Two digits after the point are that many hundredths. */
  lemma TwoDecimals(fp: string)
    requires AllDigits(fp) && |fp| == 2
    ensures FractionValue(fp) == DigitsValue(fp) as real / 100.0
  {
    var d0, d1 := fp[0] as int - '0' as int, fp[1] as int - '0' as int;
    assert fp[1..][1..] == [];
    assert FractionValue(fp[1..]) == d1 as real / 10.0;
    assert fp[..1][..0] == [];
    assert DigitsValue(fp[..1]) == d0;
    assert DigitsValue(fp) == d0 * 10 + d1;
  }

  /** The reducer `(acc, val) => acc * 60 + val`; NaN on either side gives NaN. */
  function Step(acc: Number, val: Number): Number {
    if acc.Finite? && val.Finite? then Finite(acc.value * 60.0 + val.value) else NaN
  }

  /**
   * `vals.reduce(Step)` with no initial value: the left-most value is the
   * starting accumulator, so the left-most segment is the largest unit.
   */
  function Reduce(vals: seq<Number>): (r: Number)
    requires |vals| >= 1
    ensures r.Finite? <==> forall i :: 0 <= i < |vals| ==> vals[i].Finite?
    ensures r.Finite? && (forall i :: 0 <= i < |vals| ==> vals[i].value >= 0.0) ==> r.value >= 0.0
  {
    if |vals| == 1 then vals[0] else Step(Reduce(vals[..|vals| - 1]), vals[|vals| - 1])
  }

  /** `parseTime`: null for a missing, empty or "dq" field, else the fold of its segments. */
  function ParseTime(str: Option<string>): (t: Option<Number>)
    ensures t.None? <==> str.None? || str.value == "" || IsDq(str.value)
    ensures t.Some? && t.value.Finite? ==> t.value.value >= 0.0
  {
    if str.None? || str.value == [] || IsDq(str.value) then None
    else
      Some(Reduce(ParseFloats(Split(str.value, ':'))))
  }

  /** `segs.map(parseFloat)`. */
  function ParseFloats(segs: seq<string>): (vals: seq<Number>)
    ensures |vals| == |segs|
    ensures forall i :: 0 <= i < |segs| ==> vals[i] == ParseFloat(segs[i])
  {
    if segs == [] then [] else [ParseFloat(segs[0])] + ParseFloats(segs[1..])
  }

  /** A field without a colon is parsed as a single number of seconds. */
  lemma ParseTimeOneSegment(s: string)
    requires s != "" && !IsDq(s) && ':' !in s
    ensures ParseTime(Some(s)) == Some(ParseFloat(s))
  {
    SplitWithoutSeparator(s, ':');
  }

  /** "M:SS.hh" is minutes times sixty plus seconds, and NaN if either part is malformed. */
  lemma ParseTimeTwoSegments(m: string, s: string)
    requires ':' !in m && ':' !in s
    ensures ParseTime(Some(m + ":" + s)) == Some(Step(ParseFloat(m), ParseFloat(s)))
    ensures ParseTime(Some(m + ":" + s)).value.Finite? <==> ParseFloat(m).Finite? && ParseFloat(s).Finite?
  {
    var str := m + ":" + s;
    assert str[|m|] == ':';
    assert str != "" && !IsDq(str);
    SplitAtFirst(m, ':', s);
    SplitWithoutSeparator(s, ':');
    var segs := Split(str, ':');
    assert segs == [m, s];
    var vals := ParseFloats(segs);
    assert vals == [ParseFloat(m), ParseFloat(s)];
    assert vals[..1] == [ParseFloat(m)];
    assert ParseTime(Some(str)) == Some(Reduce(vals));
  }

  /** A non-empty digit string is read as the integer it spells. */
  lemma ParseFloatOfDigits(s: string)
    requires s != [] && AllDigits(s)
    ensures ParseFloat(s) == Finite(DigitsValue(s) as real)
  {
    DigitsExclude(s, '.');
    SplitWithoutSeparator(s, '.');
  }

  /** JavaScript's `%` on numbers: the remainder keeps the sign of the dividend. */
  function JsRem(x: real, d: real): real
    requires d > 0.0
  {
    x - d * Trunc(x / d) as real
  }

  /** Rounding toward zero. */
  function Trunc(x: real): int {
    if x >= 0.0 then x.Floor else -((-x).Floor)
  }

  /**
   * The integer `n` for which `n / 100 - v` is closest to zero, the larger one
   * on a tie: the choice `toFixed(2)` makes for a non-negative `v`.
   */
  function RoundHundredths(v: real): (n: nat)
    requires v >= 0.0
    ensures n as real - 0.5 <= v * 100.0 < n as real + 0.5
  {
    (v * 100.0 + 0.5).Floor
  }

  /** The digits of `n / 100` with exactly two decimals and the integer part printed as usual. */
  function FixedHundredths(n: nat): string {
    NatToString(n / 100) + "." + [DigitChar(n / 10 % 10), DigitChar(n % 10)]
  }

  /** `v.toFixed(2)` (below 10^21, where JavaScript switches to exponent notation). */
  function ToFixed2(v: real): string {
    if v < 0.0 then "-" + FixedHundredths(RoundHundredths(-v)) else FixedHundredths(RoundHundredths(v))
  }

  /**
   * `toTimeStr`: "-" for null; otherwise the whole minutes and, after a colon,
   * the remainder modulo 60 with two decimals padded to five characters. The
   * minutes and the colon are left out when the minutes are not positive.
   */
  function ToTimeStr(seconds: Option<real>): (s: string)
    ensures seconds.None? <==> s == "-"
  {
    match seconds
    case None => "-"
    case Some(x) =>
      WithMinutes((x / 60.0).Floor, PadStartZeros(ToFixed2(JsRem(x, 60.0)), 5))
  }

  /** `min > 0 ? `${min}:${sec}` : `${sec}``. */
  function WithMinutes(min: int, sec: string): string {
    if min > 0 then NatToString(min) + ":" + sec else sec
  }

  /** A colon appears exactly when minutes are shown, and the part after it is the seconds field. */
  lemma WithMinutesShape(min: int, sec: string)
    requires ':' !in sec
    ensures ':' in WithMinutes(min, sec) <==> min > 0
    ensures SecondsField(WithMinutes(min, sec)) == sec
  {
    SplitWithoutSeparator(sec, ':');
    if min > 0 {
      var ms := NatToString(min);
      DigitsExclude(ms, ':');
      SplitAtFirst(ms, ':', sec);
      assert (ms + ":" + sec)[|ms|] == ':';
    }
  }

  /** For a non-negative time, the remainder modulo 60 lies in [0, 60). */
  lemma JsRemRange(x: real)
    requires x >= 0.0
    ensures 0.0 <= JsRem(x, 60.0) < 60.0
  {
    var q := (x / 60.0).Floor;
    assert Trunc(x / 60.0) == q;
    assert q as real <= x / 60.0 < q as real + 1.0;
  }

  /** The part of a printed time after its last colon. */
  function SecondsField(s: string): string {
    var parts := Split(s, ':');
    parts[|parts| - 1]
  }

  /** "a.b" with digit strings `a` and `b` reads as a plus b scaled below the point. */
  lemma ParseFloatDecimal(a: string, b: string)
    requires AllDigits(a) && AllDigits(b) && |a| + |b| > 0
    ensures ParseFloat(a + "." + b) == Finite(DecimalValue(a, b))
  {
    SplitDecimal(a, b);
  }

  lemma SplitDecimal(a: string, b: string)
    requires AllDigits(a) && AllDigits(b)
    ensures Split(a + "." + b, '.') == [a, b]
  {
    DigitsExclude(a, '.');
    DigitsExclude(b, '.');
    SplitAtFirst(a, '.', b);
    SplitWithoutSeparator(b, '.');
  }

  /** The two decimals of `FixedHundredths(n)` spell the hundredths of `n`. */
  lemma TwoDigitsValue(n: nat)
    ensures var b := [DigitChar(n / 10 % 10), DigitChar(n % 10)];
      AllDigits(b) && DigitsValue(b) == n % 100
  {
    var c, d := DigitChar(n / 10 % 10), DigitChar(n % 10);
    DigitPairValue(c, d);
    LastTwoDigits(n);
  }

  lemma DigitPairValue(c: char, d: char)
    requires IsDigit(c) && IsDigit(d)
    ensures AllDigits([c, d])
    ensures DigitsValue([c, d]) == (c as int - '0' as int) * 10 + (d as int - '0' as int)
  {
    assert [c][..0] == [];
    assert DigitsValue([c]) == c as int - '0' as int;
    assert [c, d][..1] == [c];
  }

  lemma LastTwoDigits(n: nat)
    ensures (n / 10 % 10) * 10 + n % 10 == n % 100
  {
    var q, r := n / 10, n % 10;
    var p, t := q / 10, q % 10;
    assert n == 100 * p + (10 * t + r);
    assert 0 <= 10 * t + r < 100;
  }

  /** Leading zeros followed by `FixedHundredths(n)` read back as `n / 100`. */
  lemma FixedHundredthsValue(k: nat, n: nat)
    ensures ParseFloat(Zeros(k) + FixedHundredths(n)) == Finite(n as real / 100.0)
  {
    var a := Zeros(k) + NatToString(n / 100);
    var b := [DigitChar(n / 10 % 10), DigitChar(n % 10)];
    NatToStringValue(n / 100);
    LeadingZerosValue(k, NatToString(n / 100));
    TwoDigitsValue(n);
    assert Zeros(k) + FixedHundredths(n) == a + "." + b;
    ParseFloatDecimal(a, b);
    TwoDecimals(b);
    HundredthsSum(n / 100, n % 100, n);
    FiniteEq(DecimalValue(a, b), n as real / 100.0);
  }

  /** Leading zeros followed by `FixedHundredths(n)` hold no colon and end in a point and two digits. */
  lemma FixedHundredthsShape(k: nat, n: nat)
    ensures var s := Zeros(k) + FixedHundredths(n);
      && ':' !in s && |s| >= k + 4 && s[|s| - 3] == '.'
      && IsDigit(s[|s| - 2]) && IsDigit(s[|s| - 1])
  {
    var a := Zeros(k) + NatToString(n / 100);
    var b := [DigitChar(n / 10 % 10), DigitChar(n % 10)];
    LeadingZerosValue(k, NatToString(n / 100));
    TwoDigitsValue(n);
    assert Zeros(k) + FixedHundredths(n) == a + "." + b;
    DigitsExclude(a, ':');
    DigitsExclude(b, ':');
  }

  lemma HundredthsSum(a: nat, b: nat, n: nat)
    requires a * 100 + b == n
    ensures a as real + b as real / 100.0 == n as real / 100.0
  {
  }

  /** Rounding a value that is already a whole number of hundredths changes nothing. */
  lemma RoundHundredthsExact(n: nat)
    ensures RoundHundredths(n as real / 100.0) == n
  {
    assert n as real / 100.0 * 100.0 + 0.5 == n as real + 0.5;
  }

  /** `toFixed(2)` of a non-negative whole number of hundredths reads back exactly. */
  lemma ToFixed2Exact(n: nat)
    ensures ParseFloat(ToFixed2(n as real / 100.0)) == Finite(n as real / 100.0)
  {
    RoundHundredthsExact(n);
    FixedHundredthsValue(0, n);
    assert Zeros(0) + FixedHundredths(n) == FixedHundredths(n);
  }

  /** For hundredths, the minutes are the whole multiples of 6000 and the rest is the remainder. */
  lemma MinutesAndRemainder(n: nat)
    ensures (n as real / 100.0 / 60.0).Floor == n / 6000
    ensures JsRem(n as real / 100.0, 60.0) == (n % 6000) as real / 100.0
  {
    var q, r := n / 6000, n % 6000;
    assert n as real == q as real * 6000.0 + r as real;
    assert n as real / 100.0 / 60.0 == q as real + r as real / 6000.0;
    assert 0.0 <= r as real / 6000.0 < 1.0;
  }

  /** The text `toTimeStr` prints for `n` hundredths: minutes only when there is a whole one. */
  function HundredthsText(n: nat): string {
    WithMinutes(n / 6000, PadStartZeros(FixedHundredths(n % 6000), 5))
  }

  /** The printed form of a whole number of hundredths, in terms of minutes and remaining hundredths. */
  lemma ToTimeStrOfHundredths(x: real, n: nat)
    requires x == n as real / 100.0
    ensures ToTimeStr(Some(x)) == HundredthsText(n)
  {
    var r := (n % 6000) as real / 100.0;
    MinutesAndRemainder(n);
    assert JsRem(x, 60.0) == r;
    RoundHundredthsExact(n % 6000);
    assert ToFixed2(r) == FixedHundredths(n % 6000);
  }

  /** Whole minutes and the remaining hundredths add up to the time. */
  lemma MinutesPlusSeconds(n: nat)
    ensures n as real / 100.0 == (n / 6000) as real * 60.0 + (n % 6000) as real / 100.0
  {
  }

  lemma FiniteEq(a: real, b: real)
    requires a == b
    ensures Finite(a) == Finite(b)
  {
  }

  /** One step of the fold on two finite values. */
  lemma StepValue(a: real, b: real, x: real)
    requires x == a * 60.0 + b
    ensures Step(Finite(a), Finite(b)) == Finite(x)
  {
  }

  /** The printed digits of a whole number of minutes parse back to it. */
  lemma ParseFloatOfNat(n: nat)
    ensures ParseFloat(NatToString(n)) == Finite(n as real)
  {
    NatToStringValue(n);
    ParseFloatOfDigits(NatToString(n));
  }

  /** The seconds field printed for `n` hundredths: no colon, and a point and two digits at its end. */
  lemma PaddedSecondsShape(n: nat)
    ensures var sec := PadStartZeros(FixedHundredths(n), 5);
      && ':' !in sec && |sec| >= 5 && sec[|sec| - 3] == '.'
      && IsDigit(sec[|sec| - 2]) && IsDigit(sec[|sec| - 1]) && !IsDq(sec)
  {
    var f := FixedHundredths(n);
    var sec := PadStartZeros(f, 5);
    PadStartZerosIsZerosThen(f, 5);
    FixedHundredthsShape(|sec| - |f|, n);
  }

  /** The padded seconds field of `rem` hundredths reads back as `rem / 100`. */
  lemma SecondsFieldValue(rem: nat)
    ensures var sec := PadStartZeros(FixedHundredths(rem), 5);
      && ParseFloat(sec) == Finite(rem as real / 100.0)
      && ':' !in sec && sec != "" && !IsDq(sec)
  {
    var f := FixedHundredths(rem);
    var sec := PadStartZeros(f, 5);
    PadStartZerosIsZerosThen(f, 5);
    FixedHundredthsValue(|sec| - |f|, rem);
    PaddedSecondsShape(rem);
  }

  /** "M:SS.hh" as printed parses back to sixty times the minutes plus the seconds. */
  lemma MinutesTextParses(min: nat, rem: nat, x: real)
    requires x == min as real * 60.0 + rem as real / 100.0
    ensures ParseTime(Some(NatToString(min) + ":" + PadStartZeros(FixedHundredths(rem), 5))) == Some(Finite(x))
  {
    var sec := PadStartZeros(FixedHundredths(rem), 5);
    var ms := NatToString(min);
    SecondsFieldValue(rem);
    DigitsExclude(ms, ':');
    ParseTimeTwoSegments(ms, sec);
    ParseFloatOfNat(min);
    StepValue(min as real, rem as real / 100.0, x);
  }

  /** Minutes (when positive) and a seconds field parse back to their sum in seconds. */
  lemma WithMinutesParses(min: nat, rem: nat, x: real)
    requires x == min as real * 60.0 + rem as real / 100.0
    ensures ParseTime(Some(WithMinutes(min, PadStartZeros(FixedHundredths(rem), 5)))) == Some(Finite(x))
  {
    var sec := PadStartZeros(FixedHundredths(rem), 5);
    if min > 0 {
      assert WithMinutes(min, sec) == NatToString(min) + ":" + sec;
      MinutesTextParses(min, rem, x);
    } else {
      assert WithMinutes(min, sec) == sec;
      SecondsFieldValue(rem);
      ParseTimeOneSegment(sec);
      FiniteEq(rem as real / 100.0, x);
    }
  }

  /** The text printed for `n` hundredths parses back to `n / 100`. */
  lemma HundredthsTextParses(x: real, n: nat)
    requires x == n as real / 100.0
    ensures ParseTime(Some(HundredthsText(n))) == Some(Finite(x))
  {
    MinutesPlusSeconds(n);
    WithMinutesParses(n / 6000, n % 6000, x);
  }

  /** `x` is a whole number of hundredths of a second, as every time on the cards is. */
  predicate IsHundredths(x: real) {
    (x * 100.0).Floor as real == x * 100.0
  }

  /**
   * Round trip: printing a non-negative time given to the hundredth and
   * parsing the text back gives the same time.
   */
  lemma RoundTrip(x: real)
    requires x >= 0.0 && IsHundredths(x)
    ensures ParseTime(Some(ToTimeStr(Some(x)))) == Some(Finite(x))
  {
    var n := (x * 100.0).Floor;
    ToTimeStrOfHundredths(x, n);
    HundredthsTextParses(x, n);
  }

  /** `toTimeStr` of a non-negative time: the whole minutes, then the remainder's `toFixed(2)` padded to five. */
  lemma ToTimeStrParts(x: real)
    requires x >= 0.0
    ensures 0.0 <= JsRem(x, 60.0) < 60.0
    ensures ToTimeStr(Some(x))
      == WithMinutes((x / 60.0).Floor, PadStartZeros(FixedHundredths(RoundHundredths(JsRem(x, 60.0))), 5))
  {
    JsRemRange(x);
  }

  /** A printed non-negative time holds a colon exactly when it is at least a whole minute. */
  lemma ToTimeStrColon(x: real)
    requires x >= 0.0
    ensures ':' in ToTimeStr(Some(x)) <==> x >= 60.0
  {
    ToTimeStrParts(x);
    var min, n := (x / 60.0).Floor, RoundHundredths(JsRem(x, 60.0));
    PaddedSecondsShape(n);
    WithMinutesShape(min, PadStartZeros(FixedHundredths(n), 5));
  }

  /**
   * The seconds field of a printed non-negative time (the part after the
   * colon, or all of it) has at least five characters and ends in a point and
   * two digits.
   */
  lemma ToTimeStrSecondsField(x: real)
    requires x >= 0.0
    ensures var f := SecondsField(ToTimeStr(Some(x)));
      |f| >= 5 && f[|f| - 3] == '.' && IsDigit(f[|f| - 2]) && IsDigit(f[|f| - 1])
  {
    ToTimeStrParts(x);
    var min, n := (x / 60.0).Floor, RoundHundredths(JsRem(x, 60.0));
    PaddedSecondsShape(n);
    WithMinutesShape(min, PadStartZeros(FixedHundredths(n), 5));
  }

  /** Rounds to the hundredth the way `toFixed(2)` does, keeping the sign. */
  function RoundToHundredths(x: real): real {
    if x < 0.0 then -(RoundHundredths(-x) as real / 100.0) else RoundHundredths(x) as real / 100.0
  }

  /**
   * `toFixed(2)` of a non-negative number reads back as that number rounded
   * to the hundredth; a negative number is printed with a leading minus.
   */
  lemma ToFixed2ReadsBack(v: real)
    ensures v >= 0.0 ==> ParseFloat(ToFixed2(v)) == Finite(RoundToHundredths(v))
    ensures v < 0.0 ==> ToFixed2(v)[0] == '-'
  {
    if v >= 0.0 {
      var n := RoundHundredths(v);
      FixedHundredthsValue(0, n);
      assert Zeros(0) + FixedHundredths(n) == FixedHundredths(n);
    }
  }

  /**
   * Rounding a time of `q` whole minutes and `r` seconds to the hundredth
   * rounds only the seconds.
   */
  lemma RoundMinutesAndSeconds(x: real, q: nat, r: real)
    requires r >= 0.0 && x == q as real * 60.0 + r
    ensures RoundHundredths(x) == 6000 * q + RoundHundredths(r)
  {
    assert x * 100.0 + 0.5 == (6000 * q) as real + (r * 100.0 + 0.5);
  }

  /**
   * `toTimeStr` as written reads back as the time rounded to the hundredth,
   * even where its seconds field shows "60.00".
   */
  lemma ToTimeStrReadsBack(x: real)
    requires x >= 0.0
    ensures ParseTime(Some(ToTimeStr(Some(x)))) == Some(Finite(RoundToHundredths(x)))
  {
    ToTimeStrParts(x);
    var q := (x / 60.0).Floor;
    var r := JsRem(x, 60.0);
    var n := RoundHundredths(r);
    assert Trunc(x / 60.0) == q;
    RoundMinutesAndSeconds(x, q, r);
    WithMinutesParses(q, n, RoundToHundredths(x));
  }

  /**
   * `toTimeStr` with the rounding done before the split into minutes and
   * seconds, so that the seconds field never reads "60.00".
   */
  function ToTimeStrRounded(seconds: Option<real>): (s: string)
    ensures seconds.None? <==> s == "-"
  {
    match seconds
    case None => "-"
    case Some(x) => ToTimeStr(Some(RoundToHundredths(x)))
  }

  /**
   * The printed time reads back as the input rounded to the hundredth (within
   * half a hundredth of it), and its seconds field is below 60.
   */
  lemma ToTimeStrRoundedCanonical(x: real)
    requires x >= 0.0
    ensures var s := ToTimeStrRounded(Some(x));
      && ParseTime(Some(s)) == Some(Finite(RoundToHundredths(x)))
      && -0.005 < RoundToHundredths(x) - x <= 0.005
      && ParseFloat(SecondsField(s)).Finite? && ParseFloat(SecondsField(s)).value < 60.0
  {
    var n := RoundHundredths(x);
    RoundedIsHundredthsText(x);
    HundredthsCanonical(RoundToHundredths(x), n);
  }

  /** The corrected formatter prints the hundredths nearest to a non-negative time. */
  lemma RoundedIsHundredthsText(x: real)
    requires x >= 0.0
    ensures RoundToHundredths(x) == RoundHundredths(x) as real / 100.0
    ensures ToTimeStrRounded(Some(x)) == HundredthsText(RoundHundredths(x))
  {
    ToTimeStrOfHundredths(RoundToHundredths(x), RoundHundredths(x));
  }

  /** The text for a whole number of hundredths reads back exactly, with seconds below 60. */
  lemma HundredthsCanonical(x: real, n: nat)
    requires x == n as real / 100.0
    ensures var s := HundredthsText(n);
      && ParseTime(Some(s)) == Some(Finite(x))
      && ParseFloat(SecondsField(s)).Finite? && ParseFloat(SecondsField(s)).value < 60.0
  {
    HundredthsTextParses(x, n);
    var q, r := n / 6000, n % 6000;
    var sec := PadStartZeros(FixedHundredths(r), 5);
    SecondsFieldValue(r);
    WithMinutesShape(q, sec);
  }


  /** As written, a remainder that rounds up to 60 is printed as "60.00". */
  lemma SixtySecondsShown()
    ensures ToTimeStr(Some(59.996)) == "60.00"
    ensures ParseFloat(SecondsField(ToTimeStr(Some(59.996)))) == Finite(60.0)
  {
    assert (59.996 / 60.0).Floor == 0;
    assert JsRem(59.996, 60.0) == 59.996;
    assert RoundHundredths(59.996) == 6000;
    assert NatToString(6000) == "6000" by {
      assert NatToString(6) == "6";
      assert NatToString(60) == NatToString(6) + "0";
      assert NatToString(600) == NatToString(60) + "0";
    }
    assert FixedHundredths(6000) == "60.00";
    FixedHundredthsValue(0, 6000);
    assert Zeros(0) + "60.00" == "60.00";
    SplitWithoutSeparator("60.00", ':');
  }

  /** "DQ", "dq", the empty text and a missing column read as no time. */
  lemma ParseTimeNoTimeExamples()
    ensures ParseTime(Some("DQ")) == None && ParseTime(Some("dq")) == None
    ensures ParseTime(Some("")) == None && ParseTime(None) == None
  {
  }

  /** "59.99" reads as 59.99 seconds. */
  lemma ParseTimeSecondsExample()
    ensures ParseTime(Some("59.99")) == Some(Finite(59.99))
  {
    assert NatToString(59) == "59";
    assert FixedHundredths(5999) == "59.99";
    FixedHundredthsValue(0, 5999);
    assert Zeros(0) + "59.99" == "59.99";
    ParseTimeOneSegment("59.99");
  }

  /** The text for 6234 hundredths: one minute, then the padded seconds. */
  lemma MinutesExampleText()
    ensures HundredthsText(6234) == "1:02.34"
  {
    assert NatToString(2) == "2";
    assert FixedHundredths(234) == "2.34";
    assert PadStartZeros("2.34", 5) == "02.34";
    assert NatToString(1) == "1";
  }

  /** "1:02.34" reads as 62.34 seconds, and 62.34 seconds prints as "1:02.34". */
  lemma MinutesExample()
    ensures ParseTime(Some("1:02.34")) == Some(Finite(62.34))
    ensures ToTimeStr(Some(62.34)) == "1:02.34"
  {
    MinutesExampleText();
    HundredthsTextParses(62.34, 6234);
    ToTimeStrOfHundredths(62.34, 6234);
  }

  /** 9.4 seconds prints as "09.40". */
  lemma PaddedExample()
    ensures ToTimeStr(Some(9.4)) == "09.40"
  {
    ToTimeStrOfHundredths(9.4, 940);
    assert NatToString(9) == "9";
    assert FixedHundredths(940) == "9.40";
    assert PadStartZeros("9.40", 5) == "09.40";
  }
}

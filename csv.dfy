/**
 * The CSV reader of the results page: the published sheet is trimmed and
 * cut into lines, the first line gives the column names, and every other
 * line becomes a record by pairing its comma-separated values with the
 * column names by position. There is no quoting; names and values are
 * trimmed.
 */
module Csv {
  import opened Wrappers
  import opened Strings

  /**
   * One parsed line, keyed by trimmed column name. A column whose value is
   * `undefined` (the line has too few values) is absent from the map.
   */
  type Record = map<string, string>

  /** Reading `r[name]`: `undefined` when the record has no such column. */
  function Field(r: Record, name: string): Option<string> {
    if name in r then Some(r[name]) else None
  }

  /**
   * The reduce that builds one record, on the trimmed names and values: for
   * each column `i` in order, `names[i]` is set to `vals[i]`, or to
   * `undefined` when the line has no value at `i`. A later column with the
   * same name overwrites an earlier one.
   */
  function Zip(names: seq<string>, vals: seq<string>): Record
    decreases |names|
  {
    if names == [] then map[]
    else
      var i := |names| - 1;
      var obj := Zip(names[..i], vals);
      if i < |vals| then obj[names[i] := vals[i]] else obj - {names[i]}
  }

  /** One line's record: its values zipped with the column names, both trimmed. */
  function ZipRecord(headers: seq<string>, values: seq<string>): Record {
    Zip(TrimAll(headers), TrimAll(values))
  }

  /** The trimmed texts, in order (the column names, or a line's values). */
  function TrimAll(texts: seq<string>): (trimmed: seq<string>)
    ensures |trimmed| == |texts|
  {
    seq(|texts|, j requires 0 <= j < |texts| => Trim(texts[j]))
  }

  /** The last position of `key` in `names`. */
  function LastIndexOf(names: seq<string>, key: string): (i: Option<nat>)
    ensures i.Some? ==> i.value < |names| && names[i.value] == key
    ensures i.Some? ==> forall j :: i.value < j < |names| ==> names[j] != key
    ensures i.None? ==> key !in names
  {
    if names == [] then None
    else if names[|names| - 1] == key then Some(|names| - 1)
    else LastIndexOf(names[..|names| - 1], key)
  }

  /** The value under the last column named `key`, if the line reaches that column. */
  function ValueAt(names: seq<string>, vals: seq<string>, key: string): Option<string> {
    match LastIndexOf(names, key)
    case None => None
    case Some(i) => if i < |vals| then Some(vals[i]) else None
  }

  /**
   * The value a record holds for `key`: the trimmed value under the last
   * column of that name, if the line reaches that column.
   */
  function ExpectedField(headers: seq<string>, values: seq<string>, key: string): Option<string> {
    match LastIndexOf(TrimAll(headers), key)
    case None => None
    case Some(i) => if i < |values| then Some(Trim(values[i])) else None
  }

  /** The reduce leaves under each name the value of the last column with that name. */
  lemma {:induction false} ZipField(names: seq<string>, vals: seq<string>, key: string)
    ensures Field(Zip(names, vals), key) == ValueAt(names, vals, key)
  {
    if names != [] {
      var i := |names| - 1;
      ZipField(names[..i], vals, key);
    }
  }

  /**
   * Each field of a zipped record is the trimmed value under the last column
   * of that name, and is absent when there is no such column or the line
   * stops before it.
   */
  lemma ZipRecordField(headers: seq<string>, values: seq<string>, key: string)
    ensures Field(ZipRecord(headers, values), key) == ExpectedField(headers, values, key)
  {
    ZipField(TrimAll(headers), TrimAll(values), key);
  }

  /** Column names that are distinct once trimmed. */
  predicate DistinctHeaders(headers: seq<string>) {
    Distinct(TrimAll(headers))
  }

  /** No name occurs twice. */
  predicate Distinct(names: seq<string>) {
    forall a, b :: 0 <= a < b < |names| ==> names[a] != names[b]
  }

  /**
   * With distinct column names, column `i` holds the trimmed `values[i]`
   * when the line reaches it and is absent otherwise.
   */
  lemma ZipRecordColumn(headers: seq<string>, values: seq<string>, i: nat)
    requires DistinctHeaders(headers) && i < |headers|
    ensures Field(ZipRecord(headers, values), Trim(headers[i]))
      == if i < |values| then Some(Trim(values[i])) else None
  {
    var names := TrimAll(headers);
    ZipRecordField(headers, values, Trim(headers[i]));
    LastIndexOfDistinct(names, i);
  }

  /** In a list without repeats, the last position of an element is its only one. */
  lemma LastIndexOfDistinct(names: seq<string>, i: nat)
    requires i < |names| && Distinct(names)
    ensures LastIndexOf(names, names[i]) == Some(i)
  {
    assert names[i] in names;
  }

  /** A record has no field other than the trimmed column names. */
  lemma ZipRecordKeys(headers: seq<string>, values: seq<string>, key: string)
    requires key in ZipRecord(headers, values)
    ensures key in TrimAll(headers)
  {
    ZipRecordField(headers, values, key);
  }

  /** `lines.map(line => zip(headers, line.split(',')))`. */
  function ZipLines(headers: seq<string>, lines: seq<string>): (rows: seq<Record>)
    ensures |rows| == |lines|
    ensures forall j :: 0 <= j < |lines| ==> rows[j] == ZipRecord(headers, Split(lines[j], ','))
  {
    if lines == [] then [] else [ZipRecord(headers, Split(lines[0], ','))] + ZipLines(headers, lines[1..])
  }

  /** The lines of the trimmed text; there is always at least one. */
  function Lines(text: string): (lines: seq<string>)
    ensures |lines| >= 1
  {
    Split(Trim(text), '\n')
  }

  /** The lines hold no line break, and joined with line breaks they give back the trimmed text. */
  lemma LinesJoin(text: string)
    ensures Join(Lines(text), '\n') == Trim(text)
    ensures forall line :: line in Lines(text) ==> '\n' !in line
  {
    JoinSplit(Trim(text), '\n');
  }

  /**
   * `fetchCSV` after the download: one record for every line after the
   * first, the first line giving the column names.
   */
  function ParseCsv(text: string): (rows: seq<Record>)
    ensures |rows| == |Lines(text)| - 1
  {
    var lines := Lines(text);
    ZipLines(Split(lines[0], ','), lines[1..])
  }

  /**
   * Record `j` of the parsed text holds, under each name, the trimmed value
   * at the position of the last column of that name on line `j + 1`.
   */
  lemma ParseCsvField(text: string, j: nat, key: string)
    requires j < |ParseCsv(text)|
    ensures var lines := Lines(text);
      Field(ParseCsv(text)[j], key) == ExpectedField(Split(lines[0], ','), Split(lines[j + 1], ','), key)
  {
    var lines := Lines(text);
    ZipRecordField(Split(lines[0], ','), Split(lines[j + 1], ','), key);
  }
}

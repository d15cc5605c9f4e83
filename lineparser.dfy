/**
 * The per-line record parser shared by every copy of the validation loop
 * (index.js:31-35, index.js:96-100, validate_backlog.js:38-42).
 */
module LineParser {
  import opened Wrappers
  import opened Text

  /** The field delimiter of SPED files. */
  const Pipe: char := '|'

  /** A kept line: its registro code (piece 0) and the fields after it. */
  datatype Record = Record(registro: string, fields: seq<string>)

  /** A line is kept when its trimmed form starts with the delimiter. */
  predicate IsRecordLine(line: string) {
    var t := Trim(line);
    |t| > 0 && t[0] == Pipe
  }

  /** `t.replace(/^\|/, '').replace(/\|$/, '')`: drop one leading, then one trailing delimiter. */
  function StripPipes(t: string): (core: string)
    ensures |core| <= |t|
    ensures |t| > 0 && t[0] == Pipe && |t| > 1 && t[|t| - 1] == Pipe ==> core == t[1..|t| - 1]
    ensures |t| > 0 && t[0] == Pipe && |t| > 1 && t[|t| - 1] != Pipe ==> core == t[1..]
    ensures t == [Pipe] ==> core == ""
  {
    var a := if |t| > 0 && t[0] == Pipe then t[1..] else t;
    if |a| > 0 && a[|a| - 1] == Pipe then a[..|a| - 1] else a
  }

  /** Parses one line: None for a skipped line, otherwise its registro and fields. */
  function ParseLine(line: string): (r: Option<Record>)
    ensures r.Some? <==> IsRecordLine(line)
  {
    if !IsRecordLine(line) then None
    else
      var parts := Split(StripPipes(Trim(line)), Pipe);
      Some(Record(parts[0], parts[1..]))
  }

  /** The inverse direction: the canonical line `|reg|f1|...|fn|` of a record. */
  function Encode(r: Record): string {
    [Pipe] + Join([r.registro] + r.fields, Pipe) + [Pipe]
  }

  /** A record whose registro and fields contain no delimiter, so that it can be written as a line. */
  predicate WellFormed(r: Record) {
    Pipe !in r.registro && forall k :: 0 <= k < |r.fields| ==> Pipe !in r.fields[k]
  }

  /** Neither the registro nor any field of a kept line contains the delimiter. */
  lemma ParseLineWellFormed(line: string)
    requires IsRecordLine(line)
    ensures WellFormed(ParseLine(line).value)
  {
    var parts := Split(StripPipes(Trim(line)), Pipe);
    SplitPiecesFree(StripPipes(Trim(line)), Pipe);
    assert forall k :: 0 <= k < |parts| - 1 ==> parts[1..][k] == parts[k + 1];
  }

  /** Writing back a parsed line and parsing it again gives the same record. */
  lemma ParseEncodeParse(line: string)
    requires IsRecordLine(line)
    ensures ParseLine(Encode(ParseLine(line).value)) == ParseLine(line)
  {
    ParseLineWellFormed(line);
    ParseEncode(ParseLine(line).value);
  }

  /** The number of fields of a kept line is the number of delimiters left after stripping, so never negative. */
  lemma FieldCountIsDelimiterCount(line: string)
    requires IsRecordLine(line)
    ensures |ParseLine(line).value.fields| == Occurrences(StripPipes(Trim(line)), Pipe)
  {
    SplitLength(StripPipes(Trim(line)), Pipe);
  }

  /** Parsing the canonical line of a well-formed record gives the record back. */
  lemma ParseEncode(r: Record)
    requires WellFormed(r)
    ensures ParseLine(Encode(r)) == Some(r)
  {
    var parts := [r.registro] + r.fields;
    var line := Encode(r);
    assert line[0] == Pipe && line[|line| - 1] == Pipe;
    TrimFixed(line);
    assert StripPipes(line) == Join(parts, Pipe);
    SplitJoin(parts, Pipe);
    assert parts[1..] == r.fields;
  }

  /** A kept line is its record's pieces between delimiters: the trailing delimiter is optional. */
  lemma ParseReconstruct(line: string)
    requires IsRecordLine(line)
    ensures var r := ParseLine(line).value;
            var body := [Pipe] + Join([r.registro] + r.fields, Pipe);
            Trim(line) == body || Trim(line) == body + [Pipe]
  {
    var t := Trim(line);
    var core := StripPipes(t);
    var r := ParseLine(line).value;
    var parts := Split(core, Pipe);
    JoinSplit(core, Pipe);
    assert [r.registro] + r.fields == parts;
    if |t| > 1 && t[|t| - 1] == Pipe {
      assert t == [Pipe] + core + [Pipe];
    } else if |t| > 1 {
      assert t == [Pipe] + core;
    } else {
      assert t == [Pipe] && core == "";
    }
  }

  /** The example line `|C100|x|y|` is registro C100 with 2 fields. */
  lemma ExampleC100()
    ensures ParseLine("|C100|x|y|") == Some(Record("C100", ["x", "y"]))
  {
    var r := Record("C100", ["x", "y"]);
    assert Join(["y"], Pipe) == "y";
    assert Join(["x", "y"], Pipe) == "x|y" by {
      assert ["x", "y"][1..] == ["y"];
    }
    assert Join(["C100", "x", "y"], Pipe) == "C100|x|y" by {
      assert ["C100", "x", "y"][1..] == ["x", "y"];
    }
    assert [r.registro] + r.fields == ["C100", "x", "y"];
    assert Encode(r) == "|C100|x|y|";
    ParseEncode(r);
  }

  /** A line with a registro and one field, `|a|b|`, parses to that record. */
  lemma ParseOneField(a: string, b: string)
    requires Pipe !in a && Pipe !in b
    ensures ParseLine([Pipe] + a + [Pipe] + b + [Pipe]) == Some(Record(a, [b]))
  {
    var r := Record(a, [b]);
    assert [r.registro] + r.fields == [a, b];
    assert [a, b][1..] == [b];
    assert Join([a, b], Pipe) == a + [Pipe] + Join([b], Pipe);
    assert Encode(r) == [Pipe] + a + [Pipe] + b + [Pipe];
    ParseEncode(r);
  }
}

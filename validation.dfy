/**
 * The layout validation accumulator: one pass over the lines of a SPED file that counts
 * registros, collects the ones absent from the layout and records field-count mismatches
 * with capped samples. One model stands for `validateOneSpedFile` in index.js:17-65 and
 * validate_backlog.js:24-72 and for the loop inlined in the `/validate_layout` route
 * (index.js:94-121).
 *
 * The functions below define the report of a sequence of lines by what each entry means
 * (counts, first-seen lists, mismatch line numbers); `ValidateOneSpedFile` is the loop and
 * is proved to compute exactly that report.
 */
module Validation {
  import opened Wrappers
  import opened Text
  import opened LineParser

  /** The parsed layout: registro code -> declared field names, index 0 being the record label. */
  type Layout = map<string, seq<string>>

  /** At most this many sample texts per discrepancy (index.js:48). */
  const SampleTextCap: nat := 3
  /** At most this many sample line numbers per discrepancy (index.js:49). */
  const SampleLineCap: nat := 5

  /** One `field_count_discrepancies` entry. */
  datatype Discrepancy = Discrepancy(
    expected: int,
    occurrences: nat,
    sampleLineNumbers: seq<nat>,
    sampleTexts: seq<string>)

  /** The per-file summary object. */
  datatype Report = Report(
    totalUniqueBlocks: nat,
    blockOccurrences: map<string, nat>,
    missingBlocks: seq<string>,
    discrepancies: map<string, Discrepancy>)

  /** What reading a data file gives: its decoded lines, or the message of the read error. */
  datatype FileInput = Readable(lines: seq<string>) | Unreadable(message: string)

  /** What a batch records per data file: its report, or the message of the error it raised. */
  datatype FileOutcome = Summary(report: Report) | Failed(message: string)

  /** `layout[reg].length - 1`; negative for an empty declaration. */
  function ExpectedFields(layout: Layout, reg: string): int
    requires reg in layout
  {
    |layout[reg]| - 1
  }

  /** The line is kept and its registro is `reg`. */
  predicate HasRegistro(line: string, reg: string) {
    var p := ParseLine(line);
    p.Some? && p.value.registro == reg
  }

  /** The line is kept, its registro `reg` is in the layout and its field count differs from the layout's. */
  predicate IsMismatch(line: string, layout: Layout, reg: string) {
    var p := ParseLine(line);
    p.Some? && p.value.registro == reg && reg in layout && |p.value.fields| != ExpectedFields(layout, reg)
  }

  predicate NoDuplicates<T(==)>(s: seq<T>) {
    forall i, j :: 0 <= i < j < |s| ==> s[i] != s[j]
  }

  function Take<T>(s: seq<T>, n: nat): (r: seq<T>)
    ensures |r| == if |s| <= n then |s| else n
    ensures forall k :: 0 <= k < |r| ==> r[k] == s[k]
  {
    if |s| <= n then s else s[..n]
  }

  function Min(a: nat, b: nat): nat { if a <= b then a else b }

  predicate Increasing(s: seq<nat>) {
    forall k, k' :: 0 <= k < k' < |s| ==> s[k] < s[k']
  }

  /** In an increasing sequence a smaller element sits at a smaller index. */
  lemma IncreasingOrder(s: seq<nat>, a: nat, b: nat)
    requires Increasing(s) && a < |s| && b < |s| && s[a] < s[b]
    ensures a < b
  {
  }

  // ---------------------------------------------------------------------------------------
  // The report of a sequence of lines, entry by entry. Each function is defined on the last
  // line, so that the loop can extend a prefix one line at a time; line k (0-based) has the
  // 1-based number k + 1.

  /** The registros of the kept lines. */
  function Registros(lines: seq<string>): set<string> {
    if |lines| == 0 then {}
    else
      var p := ParseLine(lines[|lines| - 1]);
      Registros(lines[..|lines| - 1]) + (if p.Some? then {p.value.registro} else {})
  }

  /** How many kept lines have registro `reg`. */
  function CountReg(lines: seq<string>, reg: string): nat {
    if |lines| == 0 then 0
    else CountReg(lines[..|lines| - 1], reg) + (if HasRegistro(lines[|lines| - 1], reg) then 1 else 0)
  }

  /** The 1-based numbers of the lines that mismatch the layout for `reg`, in file order. */
  function MismatchLineNumbers(lines: seq<string>, layout: Layout, reg: string): seq<nat> {
    if |lines| == 0 then []
    else MismatchLineNumbers(lines[..|lines| - 1], layout, reg)
         + (if IsMismatch(lines[|lines| - 1], layout, reg) then [|lines|] else [])
  }

  /** The trimmed texts of the same lines. */
  function MismatchTexts(lines: seq<string>, layout: Layout, reg: string): seq<string> {
    if |lines| == 0 then []
    else MismatchTexts(lines[..|lines| - 1], layout, reg)
         + (if IsMismatch(lines[|lines| - 1], layout, reg) then [Trim(lines[|lines| - 1])] else [])
  }

  /** The registros absent from the layout, each once, in the order of their first line. */
  function MissingInOrder(lines: seq<string>, layout: Layout): seq<string> {
    if |lines| == 0 then []
    else
      var m := MissingInOrder(lines[..|lines| - 1], layout);
      var p := ParseLine(lines[|lines| - 1]);
      if p.Some? && p.value.registro !in layout && p.value.registro !in m then m + [p.value.registro] else m
  }

  /** `block_occurrences`. */
  function Occurrences(lines: seq<string>): map<string, nat> {
    map reg | reg in Registros(lines) :: CountReg(lines, reg)
  }

  /** The discrepancy entry of `reg`: every mismatch counted, samples capped. */
  function EntryFor(lines: seq<string>, layout: Layout, reg: string): Discrepancy
    requires reg in layout
  {
    Discrepancy(
      ExpectedFields(layout, reg),
      |MismatchLineNumbers(lines, layout, reg)|,
      Take(MismatchLineNumbers(lines, layout, reg), SampleLineCap),
      Take(MismatchTexts(lines, layout, reg), SampleTextCap))
  }

  /** `field_count_discrepancies`: an entry for each layout registro with at least one mismatch. */
  function Discrepancies(lines: seq<string>, layout: Layout): map<string, Discrepancy> {
    map reg | reg in Registros(lines) && reg in layout && |MismatchLineNumbers(lines, layout, reg)| > 0
      :: EntryFor(lines, layout, reg)
  }

  /** The summary `validateOneSpedFile` returns for `lines`. */
  function Validate(lines: seq<string>, layout: Layout): (r: Report)
    ensures r.totalUniqueBlocks == |r.blockOccurrences|
  {
    assert Occurrences(lines).Keys == Registros(lines);
    Report(|Registros(lines)|, Occurrences(lines), MissingInOrder(lines, layout), Discrepancies(lines, layout))
  }

  // ---------------------------------------------------------------------------------------
  // The loop.

  /** `if (s.length < cap) s.push(x)`. */
  function CapPush<T>(s: seq<T>, x: T, cap: nat): seq<T> {
    if |s| < cap then s + [x] else s
  }

  /**
   * `validateOneSpedFile`: walks the lines with a 1-based counter that also counts skipped
   * lines, and updates the occurrence map, the missing-block set (kept in insertion order)
   * and the discrepancy map as it goes.
   */
  method ValidateOneSpedFile(lines: seq<string>, layout: Layout) returns (report: Report)
    ensures report == Validate(lines, layout)
  {
    var blockOccurrences: map<string, nat> := map[];
    var missingBlocks: seq<string> := [];
    var fieldDiscrepancies: map<string, Discrepancy> := map[];
    var lineNum: nat := 0;
    while lineNum < |lines|
      invariant lineNum <= |lines|
      invariant blockOccurrences == Occurrences(lines[..lineNum])
      invariant missingBlocks == MissingInOrder(lines[..lineNum], layout)
      invariant fieldDiscrepancies == Discrepancies(lines[..lineNum], layout)
    {
      var line := lines[lineNum];
      ghost var seen := lines[..lineNum];
      lineNum := lineNum + 1;
      assert lines[..lineNum] == seen + [line];
      blockOccurrences, missingBlocks, fieldDiscrepancies :=
        ValidateLine(line, lineNum, layout, blockOccurrences, missingBlocks, fieldDiscrepancies, seen);
    }
    assert lines[..lineNum] == lines;
    assert blockOccurrences.Keys == Registros(lines);
    report := Report(|blockOccurrences.Keys|, blockOccurrences, missingBlocks, fieldDiscrepancies);
  }

  /**
   * One pass of the loop body on the line numbered `lineNum`, after the lines `seen`: the
   * three accumulators move from the report of `seen` to the report of `seen + [line]`.
   */
  method ValidateLine(line: string, lineNum: nat, layout: Layout,
                      blockOccurrences: map<string, nat>, missingBlocks: seq<string>,
                      fieldDiscrepancies: map<string, Discrepancy>, ghost seen: seq<string>)
    returns (occurrences: map<string, nat>, missing: seq<string>, discrepancies: map<string, Discrepancy>)
    requires lineNum == |seen| + 1
    requires blockOccurrences == Occurrences(seen)
    requires missingBlocks == MissingInOrder(seen, layout)
    requires fieldDiscrepancies == Discrepancies(seen, layout)
    ensures occurrences == Occurrences(seen + [line])
    ensures missing == MissingInOrder(seen + [line], layout)
    ensures discrepancies == Discrepancies(seen + [line], layout)
  {
    occurrences, missing, discrepancies := blockOccurrences, missingBlocks, fieldDiscrepancies;
    var rec := ParseLine(line);
    if rec.None? {
      assert occurrences == Occurrences(seen + [line]) by { OccurrencesKeep(seen, line); }
      assert missing == MissingInOrder(seen + [line], layout) by { LastLine(seen, line); }
      assert discrepancies == Discrepancies(seen + [line], layout) by { DiscrepanciesKeep(seen, line, layout); }
      return;
    }
    var reg := rec.value.registro;
    occurrences := CountBlock(occurrences, reg, seen, line);
    var actualFields := |rec.value.fields|;
    if reg !in layout {
      assert discrepancies == Discrepancies(seen + [line], layout) by { DiscrepanciesKeep(seen, line, layout); }
      if reg !in missing {
        missing := missing + [reg];
      }
      assert missing == MissingInOrder(seen + [line], layout) by { LastLine(seen, line); }
      return;
    }
    assert missing == MissingInOrder(seen + [line], layout) by { LastLine(seen, line); }
    var expectedFields := |layout[reg]| - 1;
    if actualFields != expectedFields {
      discrepancies := RecordMismatch(discrepancies, reg, expectedFields, lineNum, Trim(line), seen, line, layout);
    } else {
      assert discrepancies == Discrepancies(seen + [line], layout) by { DiscrepanciesKeep(seen, line, layout); }
    }
  }

  /** `blockOccurrences[reg] = (blockOccurrences[reg] || 0) + 1` for the kept line `line` of registro `reg`. */
  method CountBlock(blockOccurrences: map<string, nat>, reg: string, ghost seen: seq<string>, ghost line: string)
    returns (occurrences: map<string, nat>)
    requires ParseLine(line).Some? && ParseLine(line).value.registro == reg
    requires blockOccurrences == Occurrences(seen)
    ensures occurrences == Occurrences(seen + [line])
  {
    occurrences := blockOccurrences[reg := (if reg in blockOccurrences then blockOccurrences[reg] else 0) + 1];
    OccurrencesAdd(seen, line, reg);
  }

  /**
   * The mismatch branch: create the entry of `reg` on its first mismatch, count the line and
   * push its number and trimmed text while under the caps.
   */
  method RecordMismatch(fieldDiscrepancies: map<string, Discrepancy>, reg: string, expectedFields: int,
                        lineNum: nat, text: string, ghost seen: seq<string>, ghost line: string, layout: Layout)
    returns (discrepancies: map<string, Discrepancy>)
    requires IsMismatch(line, layout, reg) && expectedFields == |layout[reg]| - 1
    requires lineNum == |seen| + 1 && text == Trim(line)
    requires fieldDiscrepancies == Discrepancies(seen, layout)
    ensures discrepancies == Discrepancies(seen + [line], layout)
  {
    var d := if reg in fieldDiscrepancies then fieldDiscrepancies[reg]
             else Discrepancy(expectedFields, 0, [], []);
    var samples := d.sampleTexts;
    if |samples| < SampleTextCap {
      samples := samples + [text];
    }
    var numbers := d.sampleLineNumbers;
    if |numbers| < SampleLineCap {
      numbers := numbers + [lineNum];
    }
    discrepancies := fieldDiscrepancies[reg := Discrepancy(d.expected, d.occurrences + 1, numbers, samples)];
    assert Discrepancy(d.expected, d.occurrences + 1, numbers, samples) == Recorded(d, lineNum, text);
    DiscrepanciesAdd(seen, line, layout, reg);
  }

  // ---------------------------------------------------------------------------------------
  // One-line steps of the report functions, used by the loop.

  lemma LastLine(seen: seq<string>, line: string)
    ensures (seen + [line])[..|seen|] == seen && (seen + [line])[|seen|] == line
    ensures |seen + [line]| == |seen| + 1
  {
  }

  lemma {:induction false} CountZero(lines: seq<string>, reg: string)
    requires reg !in Registros(lines)
    ensures CountReg(lines, reg) == 0
  {
    if |lines| > 0 {
      CountZero(lines[..|lines| - 1], reg);
    }
  }

  lemma {:induction false} NoMismatchesWithoutRegistro(lines: seq<string>, layout: Layout, reg: string)
    requires reg !in Registros(lines)
    ensures MismatchLineNumbers(lines, layout, reg) == [] && MismatchTexts(lines, layout, reg) == []
  {
    if |lines| > 0 {
      NoMismatchesWithoutRegistro(lines[..|lines| - 1], layout, reg);
    }
  }

  lemma {:induction false} MismatchSamplesAligned(lines: seq<string>, layout: Layout, reg: string)
    ensures |MismatchTexts(lines, layout, reg)| == |MismatchLineNumbers(lines, layout, reg)|
  {
    if |lines| > 0 {
      MismatchSamplesAligned(lines[..|lines| - 1], layout, reg);
    }
  }

  lemma TakeAppend<T>(s: seq<T>, x: T, n: nat)
    ensures Take(s + [x], n) == CapPush(Take(s, n), x, n)
  {
    if |s| >= n {
      assert (s + [x])[..n] == s[..n];
    }
  }

  lemma OccurrencesKeep(seen: seq<string>, line: string)
    requires ParseLine(line).None?
    ensures Occurrences(seen + [line]) == Occurrences(seen)
  {
    LastLine(seen, line);
    assert Registros(seen + [line]) == Registros(seen);
  }

  lemma OccurrencesAdd(seen: seq<string>, line: string, reg: string)
    requires ParseLine(line).Some? && ParseLine(line).value.registro == reg
    ensures Occurrences(seen + [line])
            == Occurrences(seen)[reg := (if reg in Occurrences(seen) then Occurrences(seen)[reg] else 0) + 1]
  {
    var a := Occurrences(seen + [line]);
    var b := Occurrences(seen);
    var c := b[reg := (if reg in b then b[reg] else 0) + 1];
    RegistrosStep(seen, line);
    forall r
      ensures (r in a <==> r in c) && (r in a ==> a[r] == c[r])
    {
      CountStep(seen, line, r);
      if r == reg && reg !in Registros(seen) {
        CountZero(seen, reg);
      }
    }
  }

  lemma CountStep(seen: seq<string>, line: string, r: string)
    ensures CountReg(seen + [line], r) == CountReg(seen, r) + (if HasRegistro(line, r) then 1 else 0)
  {
    LastLine(seen, line);
  }

  lemma MismatchesKeep(seen: seq<string>, line: string, layout: Layout, r: string)
    requires !IsMismatch(line, layout, r)
    ensures MismatchLineNumbers(seen + [line], layout, r) == MismatchLineNumbers(seen, layout, r)
    ensures MismatchTexts(seen + [line], layout, r) == MismatchTexts(seen, layout, r)
  {
    LastLine(seen, line);
  }

  lemma MismatchesAdd(seen: seq<string>, line: string, layout: Layout, r: string)
    requires IsMismatch(line, layout, r)
    ensures MismatchLineNumbers(seen + [line], layout, r) == MismatchLineNumbers(seen, layout, r) + [|seen| + 1]
    ensures MismatchTexts(seen + [line], layout, r) == MismatchTexts(seen, layout, r) + [Trim(line)]
  {
    LastLine(seen, line);
  }

  lemma RegistrosStep(seen: seq<string>, line: string)
    ensures Registros(seen + [line]) ==
            Registros(seen) + (if ParseLine(line).Some? then {ParseLine(line).value.registro} else {})
  {
    LastLine(seen, line);
  }

  lemma DiscrepanciesKeep(seen: seq<string>, line: string, layout: Layout)
    requires forall r :: !IsMismatch(line, layout, r)
    ensures Discrepancies(seen + [line], layout) == Discrepancies(seen, layout)
  {
    var all := seen + [line];
    var a := Discrepancies(all, layout);
    var b := Discrepancies(seen, layout);
    RegistrosStep(seen, line);
    forall r
      ensures (r in a <==> r in b) && (r in a ==> a[r] == b[r])
    {
      MismatchesKeep(seen, line, layout, r);
      if r !in Registros(seen) {
        NoMismatchesWithoutRegistro(seen, layout, r);
      }
    }
  }

  /** One more mismatching line recorded in a discrepancy entry, samples capped. */
  function Recorded(d: Discrepancy, lineNum: nat, text: string): Discrepancy {
    Discrepancy(d.expected, d.occurrences + 1,
                CapPush(d.sampleLineNumbers, lineNum, SampleLineCap),
                CapPush(d.sampleTexts, text, SampleTextCap))
  }

  lemma EntryAdd(seen: seq<string>, line: string, layout: Layout, reg: string)
    requires IsMismatch(line, layout, reg)
    ensures var disc := Discrepancies(seen, layout);
            var d := if reg in disc then disc[reg] else Discrepancy(ExpectedFields(layout, reg), 0, [], []);
            EntryFor(seen + [line], layout, reg) == Recorded(d, |seen| + 1, Trim(line))
  {
    var ms := MismatchLineNumbers(seen, layout, reg);
    var ts := MismatchTexts(seen, layout, reg);
    MismatchesAdd(seen, line, layout, reg);
    if reg !in Registros(seen) {
      NoMismatchesWithoutRegistro(seen, layout, reg);
    }
    MismatchSamplesAligned(seen, layout, reg);
    TakeAppend(ms, |seen| + 1, SampleLineCap);
    TakeAppend(ts, Trim(line), SampleTextCap);
  }

  lemma DiscrepanciesAdd(seen: seq<string>, line: string, layout: Layout, reg: string)
    requires IsMismatch(line, layout, reg)
    ensures var disc := Discrepancies(seen, layout);
            var d := if reg in disc then disc[reg] else Discrepancy(ExpectedFields(layout, reg), 0, [], []);
            Discrepancies(seen + [line], layout) == disc[reg := Recorded(d, |seen| + 1, Trim(line))]
  {
    var a := Discrepancies(seen + [line], layout);
    var b := Discrepancies(seen, layout);
    var d := if reg in b then b[reg] else Discrepancy(ExpectedFields(layout, reg), 0, [], []);
    OtherEntriesKeep(seen, line, layout, reg);
    EntryAdded(seen, line, layout, reg);
    UpdateExtensional(a, b, reg, Recorded(d, |seen| + 1, Trim(line)));
  }

  /** A mismatching line gives its registro an entry: the previous one, or a fresh one, with the line recorded. */
  lemma EntryAdded(seen: seq<string>, line: string, layout: Layout, reg: string)
    requires IsMismatch(line, layout, reg)
    ensures var disc := Discrepancies(seen, layout);
            var d := if reg in disc then disc[reg] else Discrepancy(ExpectedFields(layout, reg), 0, [], []);
            reg in Discrepancies(seen + [line], layout)
            && Discrepancies(seen + [line], layout)[reg] == Recorded(d, |seen| + 1, Trim(line))
  {
    RegistrosStep(seen, line);
    MismatchesAdd(seen, line, layout, reg);
    EntryAdd(seen, line, layout, reg);
  }

  /** A map that agrees with `b` away from `k` and holds `v` at `k` is `b[k := v]`. */
  lemma UpdateExtensional<K, V>(a: map<K, V>, b: map<K, V>, k: K, v: V)
    requires k in a && a[k] == v
    requires forall r :: r != k ==> (r in a <==> r in b)
    requires forall r :: r != k && r in b ==> a[r] == b[r]
    ensures a == b[k := v]
  {
  }

  /** A line of registro `reg` leaves the entries of every other registro as they were. */
  lemma OtherEntriesKeep(seen: seq<string>, line: string, layout: Layout, reg: string)
    requires IsMismatch(line, layout, reg)
    ensures forall r :: r != reg ==>
              (r in Discrepancies(seen + [line], layout) <==> r in Discrepancies(seen, layout))
    ensures forall r :: r != reg && r in Discrepancies(seen, layout) ==>
              Discrepancies(seen + [line], layout)[r] == Discrepancies(seen, layout)[r]
  {
    var a := Discrepancies(seen + [line], layout);
    var b := Discrepancies(seen, layout);
    RegistrosStep(seen, line);
    forall r | r != reg
      ensures (r in a <==> r in b) && (r in b ==> a[r] == b[r])
    {
      MismatchesKeep(seen, line, layout, r);
      if r !in Registros(seen) {
        NoMismatchesWithoutRegistro(seen, layout, r);
      }
    }
  }

  // ---------------------------------------------------------------------------------------
  // What the report means.

  lemma PrefixAgrees(lines: seq<string>)
    requires |lines| > 0
    ensures forall j :: 0 <= j < |lines| - 1 ==> lines[..|lines| - 1][j] == lines[j]
  {
  }

  /** A registro is a key of the report exactly when some kept line carries it. */
  lemma RegistrosAreSeen(lines: seq<string>, reg: string)
    ensures reg in Registros(lines) <==> exists i :: 0 <= i < |lines| && HasRegistro(lines[i], reg)
    ensures reg in Registros(lines) <==> CountReg(lines, reg) >= 1
  {
    RegistrosCarried(lines, reg);
    RegistrosCounted(lines, reg);
  }

  /** A registro is a key exactly when some line carries it. */
  lemma {:induction false} RegistrosCarried(lines: seq<string>, reg: string)
    ensures reg in Registros(lines) <==> exists i :: 0 <= i < |lines| && HasRegistro(lines[i], reg)
  {
    if |lines| > 0 {
      var p := lines[..|lines| - 1];
      RegistrosCarried(p, reg);
      PrefixAgrees(lines);
      assert reg in Registros(lines) <==> reg in Registros(p) || HasRegistro(lines[|lines| - 1], reg);
      if exists i :: 0 <= i < |lines| && HasRegistro(lines[i], reg) {
        var i :| 0 <= i < |lines| && HasRegistro(lines[i], reg);
        if i < |p| {
          assert HasRegistro(p[i], reg);
        }
      }
      if exists i :: 0 <= i < |p| && HasRegistro(p[i], reg) {
        var i :| 0 <= i < |p| && HasRegistro(p[i], reg);
        assert HasRegistro(lines[i], reg);
      }
    }
  }

  /** A registro is a key exactly when it is counted at least once. */
  lemma {:induction false} RegistrosCounted(lines: seq<string>, reg: string)
    ensures reg in Registros(lines) <==> CountReg(lines, reg) >= 1
  {
    if |lines| > 0 {
      RegistrosCounted(lines[..|lines| - 1], reg);
    }
  }

  /** Line number `n` (1-based) exists and mismatches the layout for `reg`. */
  predicate MismatchAt(lines: seq<string>, layout: Layout, reg: string, n: int) {
    1 <= n <= |lines| && IsMismatch(lines[n - 1], layout, reg)
  }

  /** Every recorded mismatch line number is a mismatching line of the file. */
  lemma {:induction false} MismatchLineNumbersSound(lines: seq<string>, layout: Layout, reg: string)
    ensures forall k :: 0 <= k < |MismatchLineNumbers(lines, layout, reg)| ==>
              MismatchAt(lines, layout, reg, MismatchLineNumbers(lines, layout, reg)[k])
  {
    if |lines| > 0 {
      var p := lines[..|lines| - 1];
      MismatchLineNumbersSound(p, layout, reg);
      var m := MismatchLineNumbers(lines, layout, reg);
      var mp := MismatchLineNumbers(p, layout, reg);
      forall k | 0 <= k < |m|
        ensures MismatchAt(lines, layout, reg, m[k])
      {
        if k < |mp| {
          assert m[k] == mp[k] && MismatchAt(p, layout, reg, mp[k]);
          assert p[mp[k] - 1] == lines[mp[k] - 1];
        }
      }
    }
  }

  /** Recorded mismatch line numbers are strictly increasing and at most the number of lines. */
  lemma {:induction false} MismatchLineNumbersIncreasing(lines: seq<string>, layout: Layout, reg: string)
    ensures forall k :: 0 <= k < |MismatchLineNumbers(lines, layout, reg)| ==>
              MismatchLineNumbers(lines, layout, reg)[k] <= |lines|
    ensures Increasing(MismatchLineNumbers(lines, layout, reg))
  {
    if |lines| > 0 {
      MismatchLineNumbersIncreasing(lines[..|lines| - 1], layout, reg);
    }
  }

  /** Every mismatching line of the file is recorded. */
  lemma {:induction false} MismatchLineNumbersComplete(lines: seq<string>, layout: Layout, reg: string)
    ensures forall n :: MismatchAt(lines, layout, reg, n) ==> n in MismatchLineNumbers(lines, layout, reg)
  {
    if |lines| > 0 {
      var p := lines[..|lines| - 1];
      MismatchLineNumbersComplete(p, layout, reg);
      forall n | MismatchAt(lines, layout, reg, n)
        ensures n in MismatchLineNumbers(lines, layout, reg)
      {
        if n < |lines| {
          assert p[n - 1] == lines[n - 1];
          assert MismatchAt(p, layout, reg, n);
        }
      }
    }
  }

  /** Sample text k is the trimmed text of the line whose number is sample number k. */
  lemma {:induction false} MismatchTextsAligned(lines: seq<string>, layout: Layout, reg: string)
    ensures |MismatchTexts(lines, layout, reg)| == |MismatchLineNumbers(lines, layout, reg)|
    ensures forall k :: 0 <= k < |MismatchLineNumbers(lines, layout, reg)| ==>
              1 <= MismatchLineNumbers(lines, layout, reg)[k] <= |lines|
              && MismatchTexts(lines, layout, reg)[k] == Trim(lines[MismatchLineNumbers(lines, layout, reg)[k] - 1])
  {
    MismatchSamplesAligned(lines, layout, reg);
    forall k | 0 <= k < |MismatchLineNumbers(lines, layout, reg)| {
      MismatchTextAt(lines, layout, reg, k);
    }
  }

  /** The same, for one sample index `k`. */
  lemma {:induction false} MismatchTextAt(lines: seq<string>, layout: Layout, reg: string, k: nat)
    requires k < |MismatchLineNumbers(lines, layout, reg)|
    ensures k < |MismatchTexts(lines, layout, reg)|
    ensures 1 <= MismatchLineNumbers(lines, layout, reg)[k] <= |lines|
    ensures MismatchTexts(lines, layout, reg)[k] == Trim(lines[MismatchLineNumbers(lines, layout, reg)[k] - 1])
    decreases |lines|
  {
    var p := lines[..|lines| - 1];
    MismatchSamplesAligned(p, layout, reg);
    MismatchSamplesGrow(lines, layout, reg);
    if k == |MismatchLineNumbers(p, layout, reg)| {
      MismatchTextAtLast(lines, layout, reg, k);
    } else {
      MismatchTextAt(p, layout, reg, k);
      MismatchTextAtKept(lines, layout, reg, k);
    }
  }

  /** A sample recorded for the last line is that line's number and trimmed text. */
  lemma MismatchTextAtLast(lines: seq<string>, layout: Layout, reg: string, k: nat)
    requires |lines| > 0
    requires k == |MismatchLineNumbers(lines[..|lines| - 1], layout, reg)| == |MismatchTexts(lines[..|lines| - 1], layout, reg)|
    requires k < |MismatchLineNumbers(lines, layout, reg)|
    ensures k < |MismatchTexts(lines, layout, reg)|
    ensures 1 <= MismatchLineNumbers(lines, layout, reg)[k] == |lines|
    ensures MismatchTexts(lines, layout, reg)[k] == Trim(lines[MismatchLineNumbers(lines, layout, reg)[k] - 1])
  {
    MismatchSamplesSnoc(lines, layout, reg);
  }

  /** A sample recorded before the last line stays where it was. */
  lemma MismatchTextAtKept(lines: seq<string>, layout: Layout, reg: string, k: nat)
    requires |lines| > 0
    requires k < |MismatchLineNumbers(lines[..|lines| - 1], layout, reg)|
    requires k < |MismatchTexts(lines[..|lines| - 1], layout, reg)|
    requires 1 <= MismatchLineNumbers(lines[..|lines| - 1], layout, reg)[k] <= |lines| - 1
    requires MismatchTexts(lines[..|lines| - 1], layout, reg)[k]
             == Trim(lines[..|lines| - 1][MismatchLineNumbers(lines[..|lines| - 1], layout, reg)[k] - 1])
    ensures k < |MismatchTexts(lines, layout, reg)|
    ensures 1 <= MismatchLineNumbers(lines, layout, reg)[k] <= |lines|
    ensures MismatchTexts(lines, layout, reg)[k] == Trim(lines[MismatchLineNumbers(lines, layout, reg)[k] - 1])
  {
    var p := lines[..|lines| - 1];
    var n := MismatchLineNumbers(p, layout, reg)[k];
    MismatchSampleKept(lines, layout, reg, k);
    assert p[n - 1] == lines[n - 1];
  }

  /** The last line leaves the `k`-th samples of the lines before it in place. */
  lemma MismatchSampleKept(lines: seq<string>, layout: Layout, reg: string, k: nat)
    requires |lines| > 0
    requires k < |MismatchLineNumbers(lines[..|lines| - 1], layout, reg)|
    requires k < |MismatchTexts(lines[..|lines| - 1], layout, reg)|
    ensures k < |MismatchLineNumbers(lines, layout, reg)| && k < |MismatchTexts(lines, layout, reg)|
    ensures MismatchLineNumbers(lines, layout, reg)[k] == MismatchLineNumbers(lines[..|lines| - 1], layout, reg)[k]
    ensures MismatchTexts(lines, layout, reg)[k] == MismatchTexts(lines[..|lines| - 1], layout, reg)[k]
  {
    MismatchSamplesSnoc(lines, layout, reg);
  }

  /** The last line adds at most one line number. */
  lemma MismatchSamplesGrow(lines: seq<string>, layout: Layout, reg: string)
    requires |lines| > 0
    ensures |MismatchLineNumbers(lines, layout, reg)| <= |MismatchLineNumbers(lines[..|lines| - 1], layout, reg)| + 1
  {
  }

  /** The last line extends both sample lists, or neither. */
  lemma MismatchSamplesSnoc(lines: seq<string>, layout: Layout, reg: string)
    requires |lines| > 0
    ensures var p := lines[..|lines| - 1];
            var x := lines[|lines| - 1];
            if IsMismatch(x, layout, reg) then
              MismatchLineNumbers(lines, layout, reg) == MismatchLineNumbers(p, layout, reg) + [|lines|]
              && MismatchTexts(lines, layout, reg) == MismatchTexts(p, layout, reg) + [Trim(x)]
            else
              MismatchLineNumbers(lines, layout, reg) == MismatchLineNumbers(p, layout, reg)
              && MismatchTexts(lines, layout, reg) == MismatchTexts(p, layout, reg)
  {
  }

  /** Mismatches of a registro are among its lines. */
  lemma {:induction false} MismatchesBounded(lines: seq<string>, layout: Layout, reg: string)
    ensures |MismatchLineNumbers(lines, layout, reg)| <= CountReg(lines, reg)
  {
    if |lines| > 0 {
      MismatchesBounded(lines[..|lines| - 1], layout, reg);
    }
  }

  /** The missing list holds each unknown registro of the file once. */
  lemma {:induction false} MissingExact(lines: seq<string>, layout: Layout)
    ensures NoDuplicates(MissingInOrder(lines, layout))
    ensures forall reg :: reg in MissingInOrder(lines, layout) <==> reg in Registros(lines) && reg !in layout
  {
    if |lines| > 0 {
      MissingExact(lines[..|lines| - 1], layout);
    }
  }

  /** The index of the first line with registro `reg`, or the number of lines when there is none. */
  function FirstLineOf(lines: seq<string>, reg: string): (n: nat)
    ensures n <= |lines|
  {
    if |lines| == 0 then 0
    else if HasRegistro(lines[0], reg) then 0
    else 1 + FirstLineOf(lines[1..], reg)
  }

  /** `FirstLineOf` is the least index of a line with that registro. */
  lemma {:induction false} FirstLineOfMeaning(lines: seq<string>, reg: string)
    ensures FirstLineOf(lines, reg) < |lines| ==> HasRegistro(lines[FirstLineOf(lines, reg)], reg)
    ensures forall i :: 0 <= i < FirstLineOf(lines, reg) ==> !HasRegistro(lines[i], reg)
  {
    if |lines| > 0 && !HasRegistro(lines[0], reg) {
      FirstLineOfMeaning(lines[1..], reg);
      assert forall i :: 1 <= i < |lines| ==> lines[i] == lines[1..][i - 1];
    }
  }

  /** A registro has a first line exactly when some line has it. */
  lemma FirstLineSeen(lines: seq<string>, reg: string)
    ensures FirstLineOf(lines, reg) < |lines| <==> reg in Registros(lines)
  {
    FirstLineOfMeaning(lines, reg);
    RegistrosAreSeen(lines, reg);
  }

  /** Appending a line keeps every first line, and gives a registro first seen there that index. */
  lemma {:induction false} FirstLineOfSnoc(p: seq<string>, x: string, reg: string)
    ensures FirstLineOf(p, reg) < |p| ==> FirstLineOf(p + [x], reg) == FirstLineOf(p, reg)
    ensures FirstLineOf(p, reg) == |p| && HasRegistro(x, reg) ==> FirstLineOf(p + [x], reg) == |p|
  {
    if |p| > 0 {
      assert (p + [x])[0] == p[0] && (p + [x])[1..] == p[1..] + [x];
      FirstLineOfSnoc(p[1..], x, reg);
    }
  }

  /** Every missing block has a first line. */
  lemma MissingHaveFirstLine(lines: seq<string>, layout: Layout)
    ensures forall i :: 0 <= i < |MissingInOrder(lines, layout)| ==>
              FirstLineOf(lines, MissingInOrder(lines, layout)[i]) < |lines|
  {
    MissingExact(lines, layout);
    forall i | 0 <= i < |MissingInOrder(lines, layout)|
      ensures FirstLineOf(lines, MissingInOrder(lines, layout)[i]) < |lines|
    {
      FirstLineSeen(lines, MissingInOrder(lines, layout)[i]);
    }
  }

  /**
   * missing_blocks lists the undeclared registros in the order of their first lines: an earlier
   * entry was first seen on an earlier line than a later one.
   */
  lemma {:induction false} MissingFirstSeenOrder(lines: seq<string>, layout: Layout)
    ensures forall i, j :: 0 <= i < j < |MissingInOrder(lines, layout)| ==>
              FirstLineOf(lines, MissingInOrder(lines, layout)[i]) < FirstLineOf(lines, MissingInOrder(lines, layout)[j])
  {
    if |lines| > 0 {
      var p := lines[..|lines| - 1];
      var x := lines[|lines| - 1];
      var m0 := MissingInOrder(p, layout);
      assert lines == p + [x];
      MissingFirstSeenOrder(p, layout);
      MissingHaveFirstLine(p, layout);
      forall k | 0 <= k < |m0|
        ensures FirstLineOf(lines, m0[k]) == FirstLineOf(p, m0[k])
      {
        FirstLineOfSnoc(p, x, m0[k]);
      }
      MissingSnoc(p, x, layout);
      var m := MissingInOrder(lines, layout);
      if |m| > |m0| {
        FirstLineSeen(p, m[|m0|]);
        FirstLineOfSnoc(p, x, m[|m0|]);
      }
    }
  }

  /** A line adds at most one missing block: one that no earlier line has and this line has. */
  lemma MissingSnoc(p: seq<string>, x: string, layout: Layout)
    ensures var m0 := MissingInOrder(p, layout);
            var m := MissingInOrder(p + [x], layout);
            m == m0 || (m == m0 + [m[|m0|]] && m[|m0|] !in Registros(p) && HasRegistro(x, m[|m0|]))
  {
    assert (p + [x])[..|p|] == p;
    MissingExact(p, layout);
  }

  /**
   * block_occurrences (index.js:34, 54): the keys are exactly the registros of the kept lines,
   * each maps to the number of its lines, hence to at least 1, and total_unique_blocks is the
   * number of keys.
   */
  lemma OccurrencesMeaning(lines: seq<string>, layout: Layout)
    ensures var r := Validate(lines, layout);
            && r.totalUniqueBlocks == |r.blockOccurrences|
            && (forall reg :: reg in r.blockOccurrences <==> exists i :: 0 <= i < |lines| && HasRegistro(lines[i], reg))
            && (forall reg :: reg in r.blockOccurrences ==> r.blockOccurrences[reg] == CountReg(lines, reg) >= 1)
  {
    var r := Validate(lines, layout);
    assert r.blockOccurrences.Keys == Registros(lines);
    forall reg
      ensures reg in r.blockOccurrences <==> exists i :: 0 <= i < |lines| && HasRegistro(lines[i], reg)
      ensures reg in r.blockOccurrences ==> r.blockOccurrences[reg] == CountReg(lines, reg) >= 1
    {
      RegistrosAreSeen(lines, reg);
    }
  }

  /**
   * missing_blocks (index.js:36-40, 56): each registro absent from the layout once, nothing else;
   * a discrepancy key is a layout key that occurs in the file, so the two lists are disjoint.
   */
  lemma MissingAndDiscrepanciesDisjoint(lines: seq<string>, layout: Layout)
    ensures var r := Validate(lines, layout);
            && NoDuplicates(r.missingBlocks)
            && (forall reg :: reg in r.missingBlocks <==> reg in r.blockOccurrences && reg !in layout)
            && (forall reg :: reg in r.discrepancies ==> reg in layout && reg in r.blockOccurrences)
            && (forall reg :: reg in r.discrepancies ==> reg !in r.missingBlocks)
  {
    MissingExact(lines, layout);
  }

  /**
   * A field_count_discrepancies entry exists exactly when some kept line of a layout registro
   * has a field count other than layout[reg].length - 1 (index.js:41-45).
   */
  lemma DiscrepancyPresence(lines: seq<string>, layout: Layout, reg: string)
    ensures reg in Validate(lines, layout).discrepancies <==>
            exists i :: 0 <= i < |lines| && IsMismatch(lines[i], layout, reg)
  {
    var m := MismatchLineNumbers(lines, layout, reg);
    MismatchLineNumbersSound(lines, layout, reg);
    MismatchLineNumbersComplete(lines, layout, reg);
    RegistrosAreSeen(lines, reg);
    if exists i :: 0 <= i < |lines| && IsMismatch(lines[i], layout, reg) {
      var i :| 0 <= i < |lines| && IsMismatch(lines[i], layout, reg);
      assert HasRegistro(lines[i], reg);
      assert MismatchAt(lines, layout, reg, i + 1);
    }
    if |m| > 0 {
      assert MismatchAt(lines, layout, reg, m[0]);
    }
  }

  /**
   * A discrepancy entry (index.js:44-49) carries the layout's expected count, counts every
   * mismatching line (so at most the registro's occurrences) and samples the first 5 line
   * numbers and the first 3 trimmed texts, in file order.
   */
  lemma DiscrepancyEntryMeaning(lines: seq<string>, layout: Layout, reg: string)
    requires reg in Validate(lines, layout).discrepancies
    ensures var r := Validate(lines, layout);
            var d := r.discrepancies[reg];
            var m := MismatchLineNumbers(lines, layout, reg);
            && reg in layout
            && d.expected == |layout[reg]| - 1
            && d.occurrences == |m|
            && 1 <= d.occurrences <= r.blockOccurrences[reg]
            && |d.sampleLineNumbers| == Min(d.occurrences, SampleLineCap)
            && |d.sampleTexts| == Min(d.occurrences, SampleTextCap)
            && (forall k :: 0 <= k < |d.sampleLineNumbers| ==>
                  d.sampleLineNumbers[k] == m[k] && MismatchAt(lines, layout, reg, m[k]))
            && (forall k :: 0 <= k < |d.sampleTexts| ==>
                  1 <= m[k] <= |lines| && d.sampleTexts[k] == Trim(lines[m[k] - 1]))
  {
    var r := Validate(lines, layout);
    assert reg in layout && reg in Registros(lines) && r.discrepancies[reg] == EntryFor(lines, layout, reg);
    assert r.blockOccurrences[reg] == CountReg(lines, reg);
    MismatchesBounded(lines, layout, reg);
    EntryLineSamples(lines, layout, reg);
    EntryTextSamples(lines, layout, reg);
  }

  /** The sample line numbers of an entry are the first mismatching line numbers, at most 5. */
  lemma EntryLineSamples(lines: seq<string>, layout: Layout, reg: string)
    requires reg in layout
    ensures var d := EntryFor(lines, layout, reg);
            var m := MismatchLineNumbers(lines, layout, reg);
            && |d.sampleLineNumbers| == Min(|m|, SampleLineCap)
            && forall k :: 0 <= k < |d.sampleLineNumbers| ==>
                 d.sampleLineNumbers[k] == m[k] && MismatchAt(lines, layout, reg, m[k])
  {
    MismatchLineNumbersSound(lines, layout, reg);
  }

  /** The sample texts of an entry are the trimmed texts of the first mismatching lines, at most 3. */
  lemma EntryTextSamples(lines: seq<string>, layout: Layout, reg: string)
    requires reg in layout
    ensures var d := EntryFor(lines, layout, reg);
            var m := MismatchLineNumbers(lines, layout, reg);
            && |d.sampleTexts| == Min(|m|, SampleTextCap)
            && forall k :: 0 <= k < |d.sampleTexts| ==> 1 <= m[k] <= |lines| && d.sampleTexts[k] == Trim(lines[m[k] - 1])
  {
    MismatchTextsAligned(lines, layout, reg);
  }

  /**
   * The recorded mismatch line numbers are exactly the mismatching lines, strictly increasing,
   * so no mismatching line before a recorded one is left out: the occurrence counter of an
   * entry is the true number of mismatches and its samples are the first ones of the file.
   */
  lemma MismatchLineNumbersExact(lines: seq<string>, layout: Layout, reg: string)
    ensures Increasing(MismatchLineNumbers(lines, layout, reg))
    ensures forall n :: MismatchAt(lines, layout, reg, n) <==> n in MismatchLineNumbers(lines, layout, reg)
    ensures forall n, k :: (MismatchAt(lines, layout, reg, n) && 0 <= k < |MismatchLineNumbers(lines, layout, reg)|
                             && n < MismatchLineNumbers(lines, layout, reg)[k])
                           ==> n in MismatchLineNumbers(lines, layout, reg)[..k]
  {
    var m := MismatchLineNumbers(lines, layout, reg);
    MismatchLineNumbersSound(lines, layout, reg);
    MismatchLineNumbersIncreasing(lines, layout, reg);
    MismatchLineNumbersComplete(lines, layout, reg);
    forall n | n in m
      ensures MismatchAt(lines, layout, reg, n)
    {
      var k :| 0 <= k < |m| && m[k] == n;
    }
    forall n, k | MismatchAt(lines, layout, reg, n) && 0 <= k < |m| && n < m[k]
      ensures n in m[..k]
    {
      var j :| 0 <= j < |m| && m[j] == n;
      IncreasingOrder(m, j, k);
      assert m[..k][j] == n;
    }
  }

  /** A file of blank and non-record lines is not an error: an empty report (index.js:27-31). */
  lemma {:induction false} OnlySkippedLines(lines: seq<string>, layout: Layout)
    requires forall i :: 0 <= i < |lines| ==> !IsRecordLine(lines[i])
    ensures Validate(lines, layout) == Report(0, map[], [], map[])
  {
    if |lines| > 0 {
      var p := lines[..|lines| - 1];
      assert forall i :: 0 <= i < |p| ==> p[i] == lines[i];
      OnlySkippedLines(p, layout);
      assert !IsRecordLine(lines[|lines| - 1]);
    }
  }

  /** The report of a file of one kept line. */
  lemma SingleLine(line: string, layout: Layout, reg: string, fields: seq<string>)
    requires ParseLine(line) == Some(Record(reg, fields))
    ensures Validate([line], layout) == Report(1, map[reg := 1],
              if reg in layout then [] else [reg],
              if reg in layout && |fields| != |layout[reg]| - 1
              then map[reg := Discrepancy(|layout[reg]| - 1, 1, [1], [Trim(line)])]
              else map[])
  {
    SingleLineBlocks(line, layout, reg, fields);
    SingleLineDiscrepancies(line, layout, reg, fields);
  }

  /** One kept line: one registro, counted once, missing exactly when undeclared. */
  lemma SingleLineBlocks(line: string, layout: Layout, reg: string, fields: seq<string>)
    requires ParseLine(line) == Some(Record(reg, fields))
    ensures Registros([line]) == {reg}
    ensures Occurrences([line]) == map[reg := 1]
    ensures MissingInOrder([line], layout) == if reg in layout then [] else [reg]
  {
    var lines := [line];
    assert lines[..0] == [];
    assert Registros(lines) == {reg};
    assert CountReg(lines, reg) == 1;
  }

  /** One kept line: a discrepancy entry exactly when it is declared with another field count. */
  lemma SingleLineDiscrepancies(line: string, layout: Layout, reg: string, fields: seq<string>)
    requires ParseLine(line) == Some(Record(reg, fields))
    ensures Discrepancies([line], layout) ==
              if reg in layout && |fields| != |layout[reg]| - 1
              then map[reg := Discrepancy(|layout[reg]| - 1, 1, [1], [Trim(line)])]
              else map[]
  {
    SingleLineBlocks(line, layout, reg, fields);
    if reg in layout && |fields| != |layout[reg]| - 1 {
      SingleLineMismatch(line, layout, reg, fields);
    } else {
      SingleLineMatch(line, layout, reg, fields);
    }
  }

  /** One declared line with another field count: its registro's entry, sampled at line 1. */
  lemma SingleLineMismatch(line: string, layout: Layout, reg: string, fields: seq<string>)
    requires ParseLine(line) == Some(Record(reg, fields))
    requires reg in layout && |fields| != |layout[reg]| - 1
    requires Registros([line]) == {reg}
    ensures Discrepancies([line], layout) == map[reg := Discrepancy(|layout[reg]| - 1, 1, [1], [Trim(line)])]
  {
    var lines := [line];
    assert lines[..0] == [];
    assert MismatchLineNumbers(lines, layout, reg) == [1];
    assert MismatchTexts(lines, layout, reg) == [Trim(line)];
    assert EntryFor(lines, layout, reg) == Discrepancy(|layout[reg]| - 1, 1, [1], [Trim(line)]);
  }

  /** One line that is undeclared or has the declared field count: no entry. */
  lemma SingleLineMatch(line: string, layout: Layout, reg: string, fields: seq<string>)
    requires ParseLine(line) == Some(Record(reg, fields))
    requires !(reg in layout && |fields| != |layout[reg]| - 1)
    requires Registros([line]) == {reg}
    ensures Discrepancies([line], layout) == map[]
  {
    var lines := [line];
    assert lines[..0] == [];
    assert !IsMismatch(line, layout, reg);
    assert MismatchLineNumbers(lines, layout, reg) == [];
    assert forall k :: k !in Discrepancies(lines, layout);
  }

  /** The layout of the worked examples: C100 declares a label and three fields. */
  const ExampleLayout: Layout := map["C100" := ["REG", "A", "B", "C"]]

  /**
   * `|C100|x|y|` against that layout: one occurrence, no missing block, one discrepancy with
   * 3 expected fields, sampled at line 1 with the trimmed line as its text.
   */
  lemma ExampleMismatch()
    ensures Validate(["|C100|x|y|"], ExampleLayout)
            == Report(1, map["C100" := 1], [], map["C100" := Discrepancy(3, 1, [1], ["|C100|x|y|"])])
  {
    ExampleC100();
    SingleLine("|C100|x|y|", ExampleLayout, "C100", ["x", "y"]);
    TrimFixed("|C100|x|y|");
  }

  /** A file of one line `|reg|field|` whose block the layout does not declare. */
  lemma OneUndeclaredBlock(reg: string, field: string, layout: Layout)
    requires Pipe !in reg && Pipe !in field && reg !in layout
    ensures Validate([[Pipe] + reg + [Pipe] + field + [Pipe]], layout) == Report(1, map[reg := 1], [reg], map[])
  {
    ParseOneField(reg, field);
    SingleLine([Pipe] + reg + [Pipe] + field + [Pipe], layout, reg, [field]);
  }

  /** `|C200|z|` against that layout: C200 is missing and gets no discrepancy entry. */
  lemma ExampleMissing()
    ensures Validate(["|C200|z|"], ExampleLayout) == Report(1, map["C200" := 1], ["C200"], map[])
  {
    assert "|C200|z|" == [Pipe] + "C200" + [Pipe] + "z" + [Pipe];
    OneUndeclaredBlock("C200", "z", ExampleLayout);
  }
}

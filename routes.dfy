/**
 * The two HTTP routes of index.js above the line validator.
 *
 * `/validate_layout` (index.js:71-144) validates one uploaded data file and sorts its missing
 * blocks. `/validate_layout_archive` (index.js:149-256) walks the extracted tree for data files,
 * validates each one in isolation (a file that fails records its error message and the batch
 * goes on), folds the per-file summaries into an aggregate and sorts the union of missing blocks.
 * Every sort goes through `Ordering.SortMissing`, so each result is stated both for the program as
 * written (the comparator's `layoutOrder` is out of scope) and as intended.
 */
module Routes {
  import opened Wrappers
  import opened Validation
  import opened Ordering
  import opened Discovery

  // ---------------------------------------------------------------------------------------
  // One data file.

  /** A report with its missing blocks sorted (index.js:126 and 223). */
  function SortReport(r: Report, mode: SortMode): (res: Result<Report, string>)
    ensures mode.OrderNotInScope? ==> (res.Err? <==> |r.missingBlocks| >= 2)
    ensures res.Err? ==> res.error == UndefinedOrder
    ensures res.Ok? ==> res.value.totalUniqueBlocks == r.totalUniqueBlocks
                        && res.value.blockOccurrences == r.blockOccurrences
                        && res.value.discrepancies == r.discrepancies
                        && multiset(res.value.missingBlocks) == multiset(r.missingBlocks)
  {
    match SortMissing(r.missingBlocks, mode)
    case Ok(sorted) => Ok(r.(missingBlocks := sorted))
    case Err(e) => Err(e)
  }

  /**
   * `/validate_layout` once the layout is loaded and the upload is present: the inline loop of
   * index.js:94-121, then the sort of line 126. An error is answered with status 500,
   * `falha validacao` and the error's message as detail.
   */
  method ValidateLayout(lines: seq<string>, layout: Layout, mode: SortMode) returns (response: Result<Report, string>)
    ensures response == SortReport(Validate(lines, layout), mode)
  {
    var report := ValidateOneSpedFile(lines, layout);
    response := SortReport(report, mode);
  }

  /** The intended order: the layout's own keys, so that every entry of it is a layout block. */
  predicate OrderOfLayout(order: seq<string>, layout: Layout) {
    forall i :: 0 <= i < |order| ==> order[i] in layout
  }

  /** Missing blocks are absent from an order made of layout blocks, so sorting leaves them be. */
  lemma MissingSortIdentity(lines: seq<string>, layout: Layout, order: seq<string>)
    requires OrderOfLayout(order, layout)
    ensures SortMissing(MissingInOrder(lines, layout), LayoutOrder(order)) == Ok(MissingInOrder(lines, layout))
  {
    var m := MissingInOrder(lines, layout);
    MissingExact(lines, layout);
    forall i | 0 <= i < |m|
      ensures m[i] !in order
    {
      assert m[i] !in layout;
    }
    SortMissingAbsent(m, order);
  }

  /** As intended, the route answers with the file's report unchanged. */
  lemma ValidateLayoutIntended(lines: seq<string>, layout: Layout, order: seq<string>)
    requires OrderOfLayout(order, layout)
    ensures SortReport(Validate(lines, layout), LayoutOrder(order)) == Ok(Validate(lines, layout))
  {
    MissingSortIdentity(lines, layout, order);
  }

  /**
   * As written, the route fails exactly when the file uses two or more blocks the layout does
   * not declare; the answer then carries the ReferenceError's message.
   */
  lemma ValidateLayoutAsWritten(lines: seq<string>, layout: Layout)
    ensures SortReport(Validate(lines, layout), OrderNotInScope).Err?
            <==> |Registros(lines) - layout.Keys| >= 2
  {
    MissingExact(lines, layout);
    var m := MissingInOrder(lines, layout);
    assert Registros(lines) - layout.Keys == set reg | reg in m;
    DistinctCard(m);
  }

  /** A sequence without repetitions has as many elements as its set. */
  lemma {:induction false} DistinctCard(s: seq<string>)
    requires NoDuplicates(s)
    ensures |set x | x in s| == |s|
  {
    if |s| > 0 {
      var init := s[..|s| - 1];
      DistinctCard(init);
      assert (set x | x in s) == (set x | x in init) + {s[|s| - 1]};
      assert s[|s| - 1] !in init;
    }
  }

  // ---------------------------------------------------------------------------------------
  // The archive's per-file loop (index.js:218-228).

  /** What one data file contributes to `summaries`. */
  function ArchiveOutcome(input: FileInput, layout: Layout, mode: SortMode): (o: FileOutcome)
    ensures input.Unreadable? ==> o == Failed(input.message)
    ensures input.Readable? && mode.OrderNotInScope? ==>
              (o.Failed? <==> |MissingInOrder(input.lines, layout)| >= 2)
    ensures o.Summary? ==> input.Readable? && SortReport(Validate(input.lines, layout), mode) == Ok(o.report)
    ensures input.Readable? && o.Failed? ==> o.message == UndefinedOrder
  {
    match input
    case Unreadable(message) => Failed(message)
    case Readable(lines) =>
      match SortReport(Validate(lines, layout), mode)
      case Ok(r) => Summary(r)
      case Err(e) => Failed(e)
  }

  /** As intended, a readable file's entry is its report as `validateOneSpedFile` returns it. */
  lemma ArchiveOutcomeIntended(lines: seq<string>, layout: Layout, order: seq<string>)
    requires OrderOfLayout(order, layout)
    ensures ArchiveOutcome(Readable(lines), layout, LayoutOrder(order)) == Summary(Validate(lines, layout))
  {
    ValidateLayoutIntended(lines, layout, order);
  }

  /** Adds the elements of `bs` that are not yet in `u`, in order: a `Set` fed one by one. */
  function AddAll(u: seq<string>, bs: seq<string>): (r: seq<string>)
    ensures forall x :: x in r <==> x in u || x in bs
  {
    if |bs| == 0 then u
    else
      var v := AddAll(u, bs[..|bs| - 1]);
      if bs[|bs| - 1] in v then v else v + [bs[|bs| - 1]]
  }

  /** Adding to a set keeps what was there, adds nothing twice and loses nothing. */
  lemma {:induction false} AddAllMeaning(u: seq<string>, bs: seq<string>)
    requires NoDuplicates(u)
    ensures NoDuplicates(AddAll(u, bs))
    ensures |u| <= |AddAll(u, bs)| && AddAll(u, bs)[..|u|] == u
  {
    if |bs| > 0 {
      var init := bs[..|bs| - 1];
      AddAllMeaning(u, init);
      var v := AddAll(u, init);
      if bs[|bs| - 1] !in v {
        assert (v + [bs[|bs| - 1]])[..|u|] == v[..|u|];
      }
      assert bs == init + [bs[|bs| - 1]];
    }
  }

  /** What `AddAll` appends to `u` comes in the order of first positions in `bs`. */
  lemma {:induction false} AddAllOrder(u: seq<string>, bs: seq<string>)
    ensures |u| <= |AddAll(u, bs)|
    ensures forall i :: |u| <= i < |AddAll(u, bs)| ==> 0 <= IndexOf(bs, AddAll(u, bs)[i])
    ensures forall i, j :: |u| <= i < j < |AddAll(u, bs)| ==>
              IndexOf(bs, AddAll(u, bs)[i]) < IndexOf(bs, AddAll(u, bs)[j])
  {
    if |bs| > 0 {
      var init := bs[..|bs| - 1];
      var b := bs[|bs| - 1];
      var v := AddAll(u, init);
      assert bs == init + [b];
      AddAllOrder(u, init);
      forall k | |u| <= k < |v|
        ensures 0 <= IndexOf(bs, v[k]) == IndexOf(init, v[k]) < |init|
      {
        IndexOfMeaning(init, v[k]);
        IndexOfSnoc(init, b, v[k]);
      }
      if b !in v {
        IndexOfSnoc(init, b, b);
      }
    }
  }

  /** `summaries` with every value the loop stores, keyed by data file. */
  function PerFile(txtFiles: seq<string>, read: string -> FileInput, layout: Layout, mode: SortMode): map<string, FileOutcome> {
    map p | p in txtFiles :: ArchiveOutcome(read(p), layout, mode)
  }

  /** The body of the loop at index.js:220-227: one file, validated and sorted inside a `try`. */
  method ValidateArchiveFile(input: FileInput, layout: Layout, mode: SortMode) returns (outcome: FileOutcome)
    ensures outcome == ArchiveOutcome(input, layout, mode)
  {
    match input {
      case Unreadable(message) =>
        outcome := Failed(message);
      case Readable(lines) =>
        var s := ValidateOneSpedFile(lines, layout);
        var sorted := SortReport(s, mode);
        if sorted.Ok? {
          outcome := Summary(sorted.value);
        } else {
          outcome := Failed(sorted.error);
        }
    }
  }

  lemma PerFileStep(txtFiles: seq<string>, i: nat, read: string -> FileInput, layout: Layout, mode: SortMode)
    requires i < |txtFiles|
    ensures PerFile(txtFiles[..i + 1], read, layout, mode)
            == PerFile(txtFiles[..i], read, layout, mode)[txtFiles[i] := ArchiveOutcome(read(txtFiles[i]), layout, mode)]
  {
    assert txtFiles[..i + 1] == txtFiles[..i] + [txtFiles[i]];
  }

  /**
   * The loop of index.js:219-228: each data file is validated and sorted inside its own `try`;
   * an error becomes that file's entry. `keys` is the insertion order of `summaries`.
   */
  method ValidateArchiveFiles(txtFiles: seq<string>, read: string -> FileInput, layout: Layout, mode: SortMode)
    returns (keys: seq<string>, summaries: map<string, FileOutcome>)
    ensures keys == AddAll([], txtFiles)
    ensures summaries == PerFile(txtFiles, read, layout, mode)
  {
    keys := [];
    summaries := map[];
    var i := 0;
    while i < |txtFiles|
      invariant 0 <= i <= |txtFiles|
      invariant keys == AddAll([], txtFiles[..i])
      invariant summaries == PerFile(txtFiles[..i], read, layout, mode)
    {
      var f := txtFiles[i];
      var outcome := ValidateArchiveFile(read(f), layout, mode);
      assert txtFiles[..i + 1][..i] == txtFiles[..i];
      PerFileStep(txtFiles, i, read, layout, mode);
      if f !in keys {
        keys := keys + [f];
      }
      summaries := summaries[f := outcome];
      i := i + 1;
    }
    assert txtFiles[..i] == txtFiles;
  }

  /** The entries of `summaries` in insertion order: `Object.entries(summaries)`'s values. */
  function Values(keys: seq<string>, m: map<string, FileOutcome>): (vs: seq<FileOutcome>)
    requires forall i :: 0 <= i < |keys| ==> keys[i] in m
    ensures |vs| == |keys|
    ensures forall i :: 0 <= i < |keys| ==> vs[i] == m[keys[i]]
  {
    if |keys| == 0 then [] else Values(keys[..|keys| - 1], m) + [m[keys[|keys| - 1]]]
  }

  // ---------------------------------------------------------------------------------------
  // The aggregate (index.js:230-246).

  /** `aggregate` of the archive response. */
  datatype Aggregate = Aggregate(
    totalFiles: nat,
    filesWithMissingBlocks: nat,
    filesWithDiscrepancies: nat,
    uniqueMissingBlocks: seq<string>)

  predicate HasMissing(o: FileOutcome) {
    o.Summary? && |o.report.missingBlocks| > 0
  }

  predicate HasDiscrepancies(o: FileOutcome) {
    o.Summary? && |o.report.discrepancies| > 0
  }

  /** The entries with a non-empty `missing_blocks`. */
  function CountWithMissing(outs: seq<FileOutcome>): nat {
    if |outs| == 0 then 0
    else CountWithMissing(outs[..|outs| - 1]) + (if HasMissing(outs[|outs| - 1]) then 1 else 0)
  }

  /** The entries with a non-empty `field_count_discrepancies`. */
  function CountWithDiscrepancies(outs: seq<FileOutcome>): nat {
    if |outs| == 0 then 0
    else CountWithDiscrepancies(outs[..|outs| - 1]) + (if HasDiscrepancies(outs[|outs| - 1]) then 1 else 0)
  }

  /** The entries that hold an error message. */
  function CountFailed(outs: seq<FileOutcome>): nat {
    if |outs| == 0 then 0
    else CountFailed(outs[..|outs| - 1]) + (if outs[|outs| - 1].Failed? then 1 else 0)
  }

  /** `unique_missing_blocks` before its sort: the missing blocks of the entries, first seen first. */
  function UnionMissing(outs: seq<FileOutcome>): seq<string> {
    if |outs| == 0 then []
    else
      var last := outs[|outs| - 1];
      var u := UnionMissing(outs[..|outs| - 1]);
      if last.Summary? then AddAll(u, last.report.missingBlocks) else u
  }

  /** The aggregate, or the error of the sort at line 246. */
  function AggregateOf(total: nat, outs: seq<FileOutcome>, mode: SortMode): Result<Aggregate, string> {
    match SortMissing(UnionMissing(outs), mode)
    case Ok(u) => Ok(Aggregate(total, CountWithMissing(outs), CountWithDiscrepancies(outs), u))
    case Err(e) => Err(e)
  }

  /** The fold over the entries of `summaries`, with the inner `forEach` over each file's blocks. */
  method AggregateSummaries(total: nat, outs: seq<FileOutcome>, mode: SortMode) returns (result: Result<Aggregate, string>)
    ensures result == AggregateOf(total, outs, mode)
  {
    var withMissing := 0;
    var withDiscrepancies := 0;
    var unique: seq<string> := [];
    var i := 0;
    while i < |outs|
      invariant 0 <= i <= |outs|
      invariant withMissing == CountWithMissing(outs[..i])
      invariant withDiscrepancies == CountWithDiscrepancies(outs[..i])
      invariant unique == UnionMissing(outs[..i])
    {
      var summary := outs[i];
      assert outs[..i + 1][..i] == outs[..i];
      if summary.Summary? && |summary.report.missingBlocks| > 0 {
        withMissing := withMissing + 1;
        var blocks := summary.report.missingBlocks;
        var u0 := unique;
        var j := 0;
        while j < |blocks|
          invariant 0 <= j <= |blocks|
          invariant unique == AddAll(u0, blocks[..j])
        {
          assert blocks[..j + 1][..j] == blocks[..j];
          if blocks[j] !in unique {
            unique := unique + [blocks[j]];
          }
          j := j + 1;
        }
        assert blocks[..j] == blocks;
      }
      if summary.Summary? && |summary.report.discrepancies| > 0 {
        withDiscrepancies := withDiscrepancies + 1;
      }
      i := i + 1;
    }
    assert outs[..i] == outs;
    var sorted := SortMissing(unique, mode);
    if sorted.Ok? {
      result := Ok(Aggregate(total, withMissing, withDiscrepancies, sorted.value));
    } else {
      result := Err(sorted.error);
    }
  }

  /** The union holds each block once, and a block exactly when some file's summary lists it. */
  lemma UnionMissingMeaning(outs: seq<FileOutcome>)
    ensures NoDuplicates(UnionMissing(outs))
    ensures forall b :: b in UnionMissing(outs) <==>
              exists i :: 0 <= i < |outs| && outs[i].Summary? && b in outs[i].report.missingBlocks
  {
    UnionMissingDistinct(outs);
    UnionMissingMembers(outs);
  }

  lemma {:induction false} UnionMissingDistinct(outs: seq<FileOutcome>)
    ensures NoDuplicates(UnionMissing(outs))
  {
    if |outs| > 0 {
      var init := outs[..|outs| - 1];
      var last := outs[|outs| - 1];
      UnionMissingDistinct(init);
      if last.Summary? {
        AddAllMeaning(UnionMissing(init), last.report.missingBlocks);
      }
    }
  }

  lemma {:induction false} UnionMissingMembers(outs: seq<FileOutcome>)
    ensures forall b :: b in UnionMissing(outs) <==>
              exists i :: 0 <= i < |outs| && outs[i].Summary? && b in outs[i].report.missingBlocks
  {
    if |outs| > 0 {
      var init := outs[..|outs| - 1];
      var last := outs[|outs| - 1];
      UnionMissingMembers(init);
      forall b | b in UnionMissing(outs)
        ensures exists i :: 0 <= i < |outs| && outs[i].Summary? && b in outs[i].report.missingBlocks
      {
        if b in UnionMissing(init) {
          var i :| 0 <= i < |init| && init[i].Summary? && b in init[i].report.missingBlocks;
          assert outs[i] == init[i];
        } else {
          assert outs[|outs| - 1] == last;
        }
      }
      forall b, i | 0 <= i < |outs| && outs[i].Summary? && b in outs[i].report.missingBlocks
        ensures b in UnionMissing(outs)
      {
        if i < |init| {
          assert init[i] == outs[i];
        }
      }
    }
  }

  /** The union over the first `k` entries is a prefix of the union over all of them. */
  lemma {:induction false} UnionMissingPrefix(outs: seq<FileOutcome>, k: nat)
    requires k <= |outs|
    ensures |UnionMissing(outs[..k])| <= |UnionMissing(outs)|
    ensures UnionMissing(outs)[..|UnionMissing(outs[..k])|] == UnionMissing(outs[..k])
  {
    if k < |outs| {
      var init := outs[..|outs| - 1];
      var last := outs[|outs| - 1];
      assert init[..k] == outs[..k];
      UnionMissingPrefix(init, k);
      if last.Summary? {
        UnionMissingDistinct(init);
        AddAllMeaning(UnionMissing(init), last.report.missingBlocks);
      }
    } else {
      assert outs[..k] == outs;
    }
  }

  /**
   * unique_missing_blocks before its sort: the blocks the `k`-th summary adds follow those of the
   * entries before it, come from its own missing_blocks, and keep that list's order.
   */
  lemma UnionMissingOrder(outs: seq<FileOutcome>, k: nat)
    requires k < |outs| && outs[k].Summary?
    ensures |UnionMissing(outs[..k])| <= |UnionMissing(outs[..k + 1])| <= |UnionMissing(outs)|
    ensures forall i :: |UnionMissing(outs[..k])| <= i < |UnionMissing(outs[..k + 1])| ==>
              0 <= IndexOf(outs[k].report.missingBlocks, UnionMissing(outs)[i])
    ensures forall i, j :: |UnionMissing(outs[..k])| <= i < j < |UnionMissing(outs[..k + 1])| ==>
              IndexOf(outs[k].report.missingBlocks, UnionMissing(outs)[i])
                < IndexOf(outs[k].report.missingBlocks, UnionMissing(outs)[j])
  {
    var before := UnionMissing(outs[..k]);
    var upto := UnionMissing(outs[..k + 1]);
    assert outs[..k + 1][..k] == outs[..k] && outs[..k + 1][k] == outs[k];
    assert upto == AddAll(before, outs[k].report.missingBlocks);
    AddAllOrder(before, outs[k].report.missingBlocks);
    UnionMissingPrefix(outs, k + 1);
    assert forall i :: 0 <= i < |upto| ==> UnionMissing(outs)[i] == upto[i];
  }

  /** The entries that are summaries, in order. */
  function Summaries(outs: seq<FileOutcome>): (r: seq<FileOutcome>)
    ensures |r| <= |outs|
  {
    if |outs| == 0 then []
    else
      var init := Summaries(outs[..|outs| - 1]);
      if outs[|outs| - 1].Summary? then init + [outs[|outs| - 1]] else init
  }

  /**
   * A file that failed counts nowhere: each counter counts the same over the summaries alone, is
   * at most their number, and summaries and errors together are all the entries.
   */
  lemma {:induction false} CountsBounded(outs: seq<FileOutcome>)
    ensures forall k :: 0 <= k < |Summaries(outs)| ==> Summaries(outs)[k].Summary?
    ensures |Summaries(outs)| + CountFailed(outs) == |outs|
    ensures CountWithMissing(Summaries(outs)) == CountWithMissing(outs)
    ensures CountWithDiscrepancies(Summaries(outs)) == CountWithDiscrepancies(outs)
    ensures CountWithMissing(outs) <= |Summaries(outs)|
    ensures CountWithDiscrepancies(outs) <= |Summaries(outs)|
  {
    if |outs| > 0 {
      var init := outs[..|outs| - 1];
      var last := outs[|outs| - 1];
      CountsBounded(init);
      if last.Summary? {
        assert (Summaries(init) + [last])[..|Summaries(init)|] == Summaries(init);
      }
    }
  }

  /** An entry holding an error leaves the aggregate as it was. */
  lemma FailedAddsNothing(total: nat, outs: seq<FileOutcome>, message: string, mode: SortMode)
    ensures AggregateOf(total, outs + [Failed(message)], mode) == AggregateOf(total, outs, mode)
  {
    assert (outs + [Failed(message)])[..|outs|] == outs;
  }

  /** As written, the aggregate fails exactly when the union holds two or more blocks. */
  lemma AggregateAsWritten(total: nat, outs: seq<FileOutcome>)
    ensures AggregateOf(total, outs, OrderNotInScope).Err? <==> |UnionMissing(outs)| >= 2
  {
  }

  // ---------------------------------------------------------------------------------------
  // The archive route after extraction (index.js:198-248).

  /** The answer of `/validate_layout_archive` once the archive is extracted under its root. */
  datatype ArchiveResponse =
    | NoTxtFound                  // status 404
    | Failure(detail: string)     // status 500, `Falha ao processar archive`
    | Validated(aggregate: Aggregate, files: seq<string>, perFile: map<string, FileOutcome>)

  /** The response for the data files found. */
  function ArchiveFilesResult(txtFiles: seq<string>, read: string -> FileInput, layout: Layout, mode: SortMode): ArchiveResponse {
    if |txtFiles| == 0 then NoTxtFound
    else
      var keys := AddAll([], txtFiles);
      var per := PerFile(txtFiles, read, layout, mode);
      AddAllMeaning([], txtFiles);
      match AggregateOf(|txtFiles|, Values(keys, per), mode)
      case Ok(a) => Validated(a, keys, per)
      case Err(e) => Failure(e)
  }

  /**
   * The route after extraction: walk the tree below `tempDir`, validate every data file,
   * aggregate. `entries` is the extracted tree and `read` what reading each path gives.
   */
  method ValidateArchive(tempDir: string, entries: seq<Entry>, read: string -> FileInput, layout: Layout, mode: SortMode)
    returns (response: ArchiveResponse)
    ensures response == ArchiveFilesResult(TxtPaths(tempDir, entries, true), read, layout, mode)
  {
    var txtFiles := Walk(tempDir, entries);
    if |txtFiles| == 0 {
      return NoTxtFound;
    }
    var keys, summaries := ValidateArchiveFiles(txtFiles, read, layout, mode);
    AddAllMeaning([], txtFiles);
    var aggregate := AggregateSummaries(|txtFiles|, Values(keys, summaries), mode);
    if aggregate.Ok? {
      response := Validated(aggregate.value, keys, summaries);
    } else {
      response := Failure(aggregate.error);
    }
  }

  /**
   * What a validated response reports: every data file once, in discovery order, each with
   * its entry, and `total_files` the number of data files found.
   */
  lemma ArchiveFilesShape(txtFiles: seq<string>, read: string -> FileInput, layout: Layout, mode: SortMode)
    requires ArchiveFilesResult(txtFiles, read, layout, mode).Validated?
    ensures var r := ArchiveFilesResult(txtFiles, read, layout, mode);
            r.aggregate.totalFiles == |txtFiles|
            && NoDuplicates(r.files)
            && (forall p :: p in r.files <==> p in txtFiles)
            && (forall p :: p in r.perFile <==> p in txtFiles)
            && (forall p :: p in r.perFile ==> r.perFile[p] == ArchiveOutcome(read(p), layout, mode))
  {
    AddAllMeaning([], txtFiles);
  }

  /** A file's recorded missing blocks, sorted or not, are blocks the layout does not declare. */
  lemma OutcomeMissingAbsent(input: FileInput, layout: Layout, mode: SortMode)
    ensures var o := ArchiveOutcome(input, layout, mode);
            o.Summary? ==> forall b :: b in o.report.missingBlocks ==> b !in layout
  {
    var o := ArchiveOutcome(input, layout, mode);
    if o.Summary? {
      MissingExact(input.lines, layout);
      forall b | b in o.report.missingBlocks
        ensures b !in layout
      {
        assert b in multiset(o.report.missingBlocks);
      }
    }
  }

  /** The entries of a validated archive name only undeclared blocks as missing. */
  predicate MissingAbsent(outs: seq<FileOutcome>, layout: Layout) {
    forall i :: 0 <= i < |outs| && outs[i].Summary? ==>
      forall b :: b in outs[i].report.missingBlocks ==> b !in layout
  }

  lemma ValuesMissingAbsent(txtFiles: seq<string>, read: string -> FileInput, layout: Layout, mode: SortMode)
    ensures MissingAbsent(Values(AddAll([], txtFiles), PerFile(txtFiles, read, layout, mode)), layout)
  {
    AddAllMeaning([], txtFiles);
    var keys := AddAll([], txtFiles);
    var outs := Values(keys, PerFile(txtFiles, read, layout, mode));
    forall i | 0 <= i < |outs| && outs[i].Summary?
      ensures forall b :: b in outs[i].report.missingBlocks ==> b !in layout
    {
      OutcomeMissingAbsent(read(keys[i]), layout, mode);
    }
  }

  /** As intended, the union of undeclared blocks is left in first-seen order by its sort. */
  lemma AggregateIntended(total: nat, outs: seq<FileOutcome>, layout: Layout, order: seq<string>)
    requires MissingAbsent(outs, layout)
    requires OrderOfLayout(order, layout)
    ensures AggregateOf(total, outs, LayoutOrder(order))
            == Ok(Aggregate(total, CountWithMissing(outs), CountWithDiscrepancies(outs), UnionMissing(outs)))
  {
    var u := UnionMissing(outs);
    UnionMissingMeaning(outs);
    forall k | 0 <= k < |u|
      ensures u[k] !in order
    {
      assert u[k] in u;
      var i :| 0 <= i < |outs| && outs[i].Summary? && u[k] in outs[i].report.missingBlocks;
      assert u[k] !in layout;
    }
    SortMissingAbsent(u, order);
  }

  /**
   * As intended, an archive with data files is always answered with its aggregate, whose
   * `unique_missing_blocks` is the union in first-seen order, and readable files keep their report.
   */
  lemma ArchiveIntended(txtFiles: seq<string>, read: string -> FileInput, layout: Layout, order: seq<string>)
    requires |txtFiles| > 0
    requires OrderOfLayout(order, layout)
    ensures var r := ArchiveFilesResult(txtFiles, read, layout, LayoutOrder(order));
            r.Validated?
            && r.aggregate.uniqueMissingBlocks == UnionMissing(Values(r.files, r.perFile))
            && (forall p :: p in txtFiles && read(p).Readable? ==> r.perFile[p] == Summary(Validate(read(p).lines, layout)))
  {
    ValuesMissingAbsent(txtFiles, read, layout, LayoutOrder(order));
    AddAllMeaning([], txtFiles);
    var outs := Values(AddAll([], txtFiles), PerFile(txtFiles, read, layout, LayoutOrder(order)));
    AggregateIntended(|txtFiles|, outs, layout, order);
    forall p | p in txtFiles && read(p).Readable?
      ensures PerFile(txtFiles, read, layout, LayoutOrder(order))[p] == Summary(Validate(read(p).lines, layout))
    {
      ArchiveOutcomeIntended(read(p).lines, layout, order);
    }
  }

  // ---------------------------------------------------------------------------------------
  // A worked archive: two data files, each using one block the layout does not declare.

  /** The one-line data file `|reg|field|`. */
  function OneFieldLine(reg: string, field: string): string {
    [LineParser.Pipe] + reg + [LineParser.Pipe] + field + [LineParser.Pipe]
  }

  /** The report of such a file when `reg` is undeclared. */
  function OneBlockSummary(reg: string): FileOutcome {
    Summary(Report(1, map[reg := 1], [reg], map[]))
  }

  /**
   * The archive of the example: two different data files `a` and `b`, each one line
   * `|ra|fa|` and `|rb|fb|` with two different blocks, neither declared in the layout.
   */
  predicate TwoUndeclared(a: string, b: string, ra: string, fa: string, rb: string, fb: string,
                          read: string -> FileInput, layout: Layout) {
    && a != b && ra != rb
    && LineParser.Pipe !in ra && LineParser.Pipe !in fa && LineParser.Pipe !in rb && LineParser.Pipe !in fb
    && ra !in layout && rb !in layout
    && read(a) == Readable([OneFieldLine(ra, fa)]) && read(b) == Readable([OneFieldLine(rb, fb)])
  }

  /** A readable file with one undeclared block is recorded with its report, in either mode. */
  lemma OneBlockOutcome(reg: string, field: string, layout: Layout, mode: SortMode)
    requires LineParser.Pipe !in reg && LineParser.Pipe !in field && reg !in layout
    requires mode.LayoutOrder? ==> OrderOfLayout(mode.order, layout)
    ensures ArchiveOutcome(Readable([OneFieldLine(reg, field)]), layout, mode) == OneBlockSummary(reg)
  {
    OneUndeclaredBlock(reg, field, layout);
    if mode.LayoutOrder? {
      assert reg !in mode.order;
      SortMissingAbsent([reg], mode.order);
    }
  }

  /** The entries of a two-file archive, in listing order. */
  lemma ValuesOfTwo(a: string, b: string, read: string -> FileInput, layout: Layout, mode: SortMode,
                    oa: FileOutcome, ob: FileOutcome)
    requires ArchiveOutcome(read(a), layout, mode) == oa
    requires ArchiveOutcome(read(b), layout, mode) == ob
    ensures Values([a, b], PerFile([a, b], read, layout, mode)) == [oa, ob]
  {
    var per := PerFile([a, b], read, layout, mode);
    assert a in [a, b] && b in [a, b];
    assert a in per && b in per && per[a] == oa && per[b] == ob;
    ValuesPair(a, b, per);
  }

  lemma ValuesPair(a: string, b: string, m: map<string, FileOutcome>)
    requires a in m && b in m
    ensures Values([a, b], m) == [m[a], m[b]]
  {
    assert [a, b][..1] == [a] && [a][..0] == [];
  }

  /** The example's entries: each file's report, in either mode. */
  lemma TwoFileValues(a: string, b: string, ra: string, fa: string, rb: string, fb: string,
                      read: string -> FileInput, layout: Layout, mode: SortMode)
    requires TwoUndeclared(a, b, ra, fa, rb, fb, read, layout)
    requires mode.LayoutOrder? ==> OrderOfLayout(mode.order, layout)
    ensures Values([a, b], PerFile([a, b], read, layout, mode)) == [OneBlockSummary(ra), OneBlockSummary(rb)]
  {
    OneBlockOutcome(ra, fa, layout, mode);
    OneBlockOutcome(rb, fb, layout, mode);
    ValuesOfTwo(a, b, read, layout, mode, OneBlockSummary(ra), OneBlockSummary(rb));
  }

  /** Two different file names are both kept, in order. */
  lemma TwoFileKeys(a: string, b: string)
    requires a != b
    ensures AddAll([], [a, b]) == [a, b]
  {
    assert AddAll([], [a]) == [a] by {
      assert [a][..0] == [];
    }
    assert [a, b][..1] == [a] && b !in [a];
  }

  /** Each entry has one missing block and no discrepancy; the union lists both blocks once. */
  lemma TwoFileUnion(ra: string, rb: string)
    requires ra != rb
    ensures UnionMissing([OneBlockSummary(ra), OneBlockSummary(rb)]) == [ra, rb]
    ensures CountWithMissing([OneBlockSummary(ra), OneBlockSummary(rb)]) == 2
    ensures CountWithDiscrepancies([OneBlockSummary(ra), OneBlockSummary(rb)]) == 0
  {
    var sa := OneBlockSummary(ra);
    var sb := OneBlockSummary(rb);
    assert [sa, sb][..1] == [sa] && [sa][..0] == [];
    assert [ra][..0] == [] && [rb][..0] == [];
    assert AddAll([], [ra]) == [ra];
    assert UnionMissing([sa]) == [ra];
    assert AddAll([ra], [rb]) == [ra, rb];
    assert CountWithMissing([sa]) == 1;
    assert CountWithDiscrepancies([sa]) == 0;
  }

  /**
   * No single file has two undeclared blocks, so each file is sorted without error; but their
   * union has two, so as written the aggregate's sort throws and the whole request fails.
   */
  lemma TwoFileArchiveAsWritten(a: string, b: string, ra: string, fa: string, rb: string, fb: string,
                                read: string -> FileInput, layout: Layout)
    requires TwoUndeclared(a, b, ra, fa, rb, fb, read, layout)
    ensures ArchiveFilesResult([a, b], read, layout, OrderNotInScope) == Failure(UndefinedOrder)
  {
    var outs := [OneBlockSummary(ra), OneBlockSummary(rb)];
    TwoFileKeys(a, b);
    TwoFileValues(a, b, ra, fa, rb, fb, read, layout, OrderNotInScope);
    assert AggregateOf(2, outs, OrderNotInScope) == Err(UndefinedOrder) by {
      TwoFileUnion(ra, rb);
    }
  }

  /** As intended, both files count as having missing blocks and the union keeps first-seen order. */
  lemma TwoFileArchiveIntended(a: string, b: string, ra: string, fa: string, rb: string, fb: string,
                               read: string -> FileInput, layout: Layout, order: seq<string>)
    requires TwoUndeclared(a, b, ra, fa, rb, fb, read, layout)
    requires OrderOfLayout(order, layout)
    ensures ArchiveFilesResult([a, b], read, layout, LayoutOrder(order))
            == Validated(Aggregate(2, 2, 0, [ra, rb]), [a, b], PerFile([a, b], read, layout, LayoutOrder(order)))
  {
    var outs := [OneBlockSummary(ra), OneBlockSummary(rb)];
    TwoFileKeys(a, b);
    TwoFileValues(a, b, ra, fa, rb, fb, read, layout, LayoutOrder(order));
    assert AggregateOf(2, outs, LayoutOrder(order)) == Ok(Aggregate(2, 2, 0, [ra, rb])) by {
      TwoFileUnion(ra, rb);
      assert ra !in order && rb !in order;
      SortMissingAbsent([ra, rb], order);
    }
  }

  /** What reading `a.txt` and `b.txt` gives in the example: `|C200|z|` and `|C300|w|`. */
  function TwoFileRead(p: string): FileInput {
    if p == "a.txt" then Readable([OneFieldLine("C200", "z")]) else Readable([OneFieldLine("C300", "w")])
  }

  /** Those two files, against a layout that declares only C100, meet the example's conditions. */
  lemma TwoFileExample()
    ensures TwoUndeclared("a.txt", "b.txt", "C200", "z", "C300", "w", TwoFileRead, ExampleLayout)
    ensures OrderOfLayout(["C100"], ExampleLayout)
  {
    assert "a.txt"[0] != "b.txt"[0];
    assert "C200"[1] != "C300"[1];
  }
}

/**
 * The backlog command of validate_backlog.js: `node validate_backlog.js <folder> [--recursive]`
 * collects the data files below the folder, validates each one in isolation and writes one entry
 * per file, its summary or the message of the error it raised.
 */
module Backlog {
  import opened Validation
  import opened Ordering
  import opened Discovery
  import opened Routes

  /** The folder to scan and whether `--recursive` was given (validate_backlog.js:96-97). */
  datatype Invocation = Invocation(dir: string, recursive: bool)

  /** The entry `report.files[filePath]` receives (validate_backlog.js:107-114). */
  function BacklogOutcome(input: FileInput, layout: Layout): (o: FileOutcome)
    ensures o.Failed? <==> input.Unreadable?
    ensures o.Failed? ==> o.message == input.message
    ensures o.Summary? ==> o.report == Validate(input.lines, layout)
  {
    match input
    case Unreadable(message) => Failed(message)
    case Readable(lines) => Summary(Validate(lines, layout))
  }

  /**
   * The backlog sorts nothing, so its entries are the archive route's entries as intended, and
   * agree with the archive as written whenever the file has fewer than two undeclared blocks.
   */
  lemma BacklogAgreesWithArchive(input: FileInput, layout: Layout, order: seq<string>)
    requires OrderOfLayout(order, layout)
    ensures BacklogOutcome(input, layout) == ArchiveOutcome(input, layout, LayoutOrder(order))
    ensures input.Readable? && |MissingInOrder(input.lines, layout)| < 2 ==>
              BacklogOutcome(input, layout) == ArchiveOutcome(input, layout, OrderNotInScope)
  {
    if input.Readable? {
      ArchiveOutcomeIntended(input.lines, layout, order);
    }
  }

  /** `report.files` for the files found. */
  function BacklogEntries(txtFiles: seq<string>, read: string -> FileInput, layout: Layout): map<string, FileOutcome> {
    map p | p in txtFiles :: BacklogOutcome(read(p), layout)
  }

  /** The body of the loop at validate_backlog.js:107-114. */
  method ValidateBacklogFile(input: FileInput, layout: Layout) returns (outcome: FileOutcome)
    ensures outcome == BacklogOutcome(input, layout)
  {
    match input {
      case Unreadable(message) =>
        outcome := Failed(message);
      case Readable(lines) =>
        var report := ValidateOneSpedFile(lines, layout);
        outcome := Summary(report);
    }
  }

  lemma BacklogEntriesStep(txtFiles: seq<string>, i: nat, read: string -> FileInput, layout: Layout)
    requires i < |txtFiles|
    ensures BacklogEntries(txtFiles[..i + 1], read, layout)
            == BacklogEntries(txtFiles[..i], read, layout)[txtFiles[i] := BacklogOutcome(read(txtFiles[i]), layout)]
  {
    assert txtFiles[..i + 1] == txtFiles[..i] + [txtFiles[i]];
  }

  /**
   * The loop of validate_backlog.js:106-115: every file gets an entry whatever happened to the
   * others; `keys` is the order in which `report.files` receives them.
   */
  method ValidateBacklogFiles(txtFiles: seq<string>, read: string -> FileInput, layout: Layout)
    returns (keys: seq<string>, files: map<string, FileOutcome>)
    ensures keys == AddAll([], txtFiles)
    ensures files == BacklogEntries(txtFiles, read, layout)
  {
    keys := [];
    files := map[];
    var i := 0;
    while i < |txtFiles|
      invariant 0 <= i <= |txtFiles|
      invariant keys == AddAll([], txtFiles[..i])
      invariant files == BacklogEntries(txtFiles[..i], read, layout)
    {
      var filePath := txtFiles[i];
      var outcome := ValidateBacklogFile(read(filePath), layout);
      assert txtFiles[..i + 1][..i] == txtFiles[..i];
      BacklogEntriesStep(txtFiles, i, read, layout);
      if filePath !in keys {
        keys := keys + [filePath];
      }
      files := files[filePath := outcome];
      i := i + 1;
    }
    assert txtFiles[..i] == txtFiles;
  }

  /** The whole command once its arguments are parsed and the folder exists. */
  method RunBacklog(inv: Invocation, entries: seq<Entry>, read: string -> FileInput, layout: Layout)
    returns (keys: seq<string>, files: map<string, FileOutcome>)
    ensures keys == AddAll([], TxtPaths(inv.dir, entries, inv.recursive))
    ensures files == BacklogEntries(TxtPaths(inv.dir, entries, inv.recursive), read, layout)
  {
    var txtFiles := CollectTxts(inv.dir, entries, inv.recursive);
    keys, files := ValidateBacklogFiles(txtFiles, read, layout);
  }

  /**
   * The report lists each file found exactly once, in the order found, and a file's entry
   * depends on that file alone: an unreadable file records its message and nothing else changes.
   */
  lemma BacklogReportShape(txtFiles: seq<string>, read: string -> FileInput, layout: Layout)
    ensures NoDuplicates(AddAll([], txtFiles))
    ensures forall p :: p in AddAll([], txtFiles) <==> p in txtFiles
    ensures forall p :: p in BacklogEntries(txtFiles, read, layout) <==> p in txtFiles
    ensures forall p :: p in txtFiles ==>
              (BacklogEntries(txtFiles, read, layout)[p].Failed? <==> read(p).Unreadable?)
  {
    AddAllMeaning([], txtFiles);
  }
}

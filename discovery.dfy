/**
 * Data-file discovery: `collectTxts` (validate_backlog.js:74-88), which descends into
 * subdirectories only when asked, and `walk` (index.js:199-211), which always does. The
 * directory is an in-memory tree; each listing keeps the order `readdir` returned.
 */
module Discovery {
  import opened PathPosix

  /** A directory entry: a directory with its own listing, or anything else (a file). */
  datatype Entry = File(name: string) | Directory(name: string, children: seq<Entry>)

  /** `/\.txt$/i`: the name ends in `.txt`, with the three letters in either ASCII case. */
  predicate IsTxtName(name: string) {
    var n := |name|;
    n >= 4 && name[n - 4] == '.' && (name[n - 3] == 't' || name[n - 3] == 'T')
    && (name[n - 2] == 'x' || name[n - 2] == 'X') && (name[n - 1] == 't' || name[n - 1] == 'T')
  }

  /**
   * The paths the walk collects from the listing `entries` of `dir`, entry by entry: a data file
   * gives its joined path, a directory the paths collected below it (only when `recursive`).
   */
  function TxtPaths(dir: string, entries: seq<Entry>, recursive: bool): (r: seq<string>)
    ensures !recursive ==> |r| <= |entries|
    decreases entries
  {
    if |entries| == 0 then []
    else
      var e := entries[|entries| - 1];
      TxtPaths(dir, entries[..|entries| - 1], recursive)
      + (if e.Directory? then (if recursive then TxtPaths(JoinPath(dir, e.name), e.children, true) else [])
         else if IsTxtName(e.name) then [JoinPath(dir, e.name)]
         else [])
  }

  /**
   * `collectTxts(dir, recursive)`: loops over the listing, concatenating the result of the
   * recursive call for a directory and pushing the path of a matching file.
   */
  method CollectTxts(dir: string, entries: seq<Entry>, recursive: bool) returns (results: seq<string>)
    ensures results == TxtPaths(dir, entries, recursive)
    decreases entries
  {
    results := [];
    var i := 0;
    while i < |entries|
      invariant i <= |entries|
      invariant results == TxtPaths(dir, entries[..i], recursive)
    {
      var entry := entries[i];
      var full := JoinPath(dir, entry.name);
      assert entries[..i + 1][..i] == entries[..i];
      if entry.Directory? {
        if recursive {
          var sub := CollectTxts(full, entry.children, true);
          results := results + sub;
        }
      } else if IsTxtName(entry.name) {
        results := results + [full];
      }
      i := i + 1;
    }
    assert entries[..i] == entries;
  }

  /** `walk(dir)`: the same traversal, always descending. */
  method Walk(dir: string, entries: seq<Entry>) returns (files: seq<string>)
    ensures files == TxtPaths(dir, entries, true)
  {
    files := CollectTxts(dir, entries, true);
  }

  // ---------------------------------------------------------------------------------------
  // The same traversal on name chains: a discovered path is `path.join` folded over the names
  // of the entries leading to it, so the properties below are stated on those chains.

  /** `path.join(...)` of the root and each name of the chain, in turn. */
  function PathText(root: string, chain: seq<string>): string {
    if |chain| == 0 then root else JoinPath(PathText(root, chain[..|chain| - 1]), chain[|chain| - 1])
  }

  function PathTexts(root: string, chains: seq<seq<string>>): (r: seq<string>)
    ensures |r| == |chains|
  {
    if |chains| == 0 then []
    else PathTexts(root, chains[..|chains| - 1]) + [PathText(root, chains[|chains| - 1])]
  }

  /** The chains of the data files below `prefix`, in walk order. */
  function TxtChains(prefix: seq<string>, entries: seq<Entry>, recursive: bool): seq<seq<string>>
    decreases entries
  {
    if |entries| == 0 then []
    else
      var e := entries[|entries| - 1];
      TxtChains(prefix, entries[..|entries| - 1], recursive)
      + (if e.Directory? then (if recursive then TxtChains(prefix + [e.name], e.children, true) else [])
         else if IsTxtName(e.name) then [prefix + [e.name]]
         else [])
  }

  lemma {:induction false} PathTextsAppend(root: string, a: seq<seq<string>>, b: seq<seq<string>>)
    ensures PathTexts(root, a + b) == PathTexts(root, a) + PathTexts(root, b)
    decreases |b|
  {
    if |b| == 0 {
      assert a + b == a;
    } else {
      var init := b[..|b| - 1];
      var last := PathText(root, b[|b| - 1]);
      PathTextsAppend(root, a, init);
      assert (a + b)[..|a + b| - 1] == a + init && (a + b)[|a + b| - 1] == b[|b| - 1];
      assert PathTexts(root, a + b) == PathTexts(root, a + init) + [last];
      assert PathTexts(root, b) == PathTexts(root, init) + [last];
    }
  }

  /** The collected paths are the rendered chains. */
  lemma {:induction false} TxtPathsRendered(root: string, prefix: seq<string>, entries: seq<Entry>, recursive: bool)
    ensures TxtPaths(PathText(root, prefix), entries, recursive) == PathTexts(root, TxtChains(prefix, entries, recursive))
    decreases entries
  {
    if |entries| > 0 {
      var init := entries[..|entries| - 1];
      var e := entries[|entries| - 1];
      var dir := PathText(root, prefix);
      var child := prefix + [e.name];
      assert child[..|child| - 1] == prefix;
      assert PathText(root, child) == JoinPath(dir, e.name);
      TxtPathsRendered(root, prefix, init, recursive);
      if e.Directory? && recursive {
        TxtPathsRendered(root, child, e.children, true);
        PathTextsAppend(root, TxtChains(prefix, init, recursive), TxtChains(child, e.children, true));
      } else if e.Directory? {
        assert TxtChains(prefix, entries, recursive) == TxtChains(prefix, init, recursive) + [];
        assert TxtPaths(dir, entries, recursive) == TxtPaths(dir, init, recursive) + [];
        assert TxtChains(prefix, init, recursive) + [] == TxtChains(prefix, init, recursive);
        assert TxtPaths(dir, init, recursive) + [] == TxtPaths(dir, init, recursive);
      } else {
        PathTextsAppend(root, TxtChains(prefix, init, recursive), if IsTxtName(e.name) then [child] else []);
        assert PathTexts(root, [child]) == [PathText(root, child)] by {
          assert [child][..0] == [];
        }
      }
    }
  }

  /** Every discovered chain ends in a data-file name, never in a directory name. */
  lemma {:induction false} ChainsEndInDataFile(prefix: seq<string>, entries: seq<Entry>, recursive: bool)
    ensures forall k :: 0 <= k < |TxtChains(prefix, entries, recursive)| ==>
              var c := TxtChains(prefix, entries, recursive)[k];
              |c| > |prefix| && c[..|prefix|] == prefix && IsTxtName(c[|c| - 1])
    decreases entries
  {
    if |entries| > 0 {
      var init := entries[..|entries| - 1];
      var e := entries[|entries| - 1];
      ChainsEndInDataFile(prefix, init, recursive);
      if e.Directory? && recursive {
        var child := prefix + [e.name];
        ChainsEndInDataFile(child, e.children, true);
        var cs := TxtChains(child, e.children, true);
        forall k | 0 <= k < |cs|
          ensures |cs[k]| > |prefix| && cs[k][..|prefix|] == prefix
        {
          assert cs[k][..|child|][..|prefix|] == cs[k][..|prefix|];
        }
      }
    }
  }

  // ---------------------------------------------------------------------------------------
  // Reference definitions: every non-directory entry reached, then filtered by name.

  /** Every non-directory entry below `prefix`, in walk order, descending into every directory. */
  function FilesUnder(prefix: seq<string>, entries: seq<Entry>): seq<seq<string>>
    decreases entries
  {
    if |entries| == 0 then []
    else
      var e := entries[|entries| - 1];
      FilesUnder(prefix, entries[..|entries| - 1])
      + (if e.Directory? then FilesUnder(prefix + [e.name], e.children) else [prefix + [e.name]])
  }

  /** The non-directory entries of the listing itself. */
  function TopFiles(prefix: seq<string>, entries: seq<Entry>): seq<seq<string>> {
    if |entries| == 0 then []
    else
      var e := entries[|entries| - 1];
      TopFiles(prefix, entries[..|entries| - 1]) + (if e.Directory? then [] else [prefix + [e.name]])
  }

  /** The chains whose last name is a data-file name, in order. */
  function DataChains(cs: seq<seq<string>>): seq<seq<string>> {
    if |cs| == 0 then []
    else
      var c := cs[|cs| - 1];
      DataChains(cs[..|cs| - 1]) + (if |c| > 0 && IsTxtName(c[|c| - 1]) then [c] else [])
  }

  lemma {:induction false} DataChainsAppend(a: seq<seq<string>>, b: seq<seq<string>>)
    ensures DataChains(a + b) == DataChains(a) + DataChains(b)
    decreases |b|
  {
    if |b| == 0 {
      assert a + b == a;
    } else {
      DataChainsAppend(a, b[..|b| - 1]);
      assert (a + b)[..|a + b| - 1] == a + b[..|b| - 1];
    }
  }

  lemma DataChainsSingle(c: seq<string>, name: string)
    ensures DataChains([c + [name]]) == if IsTxtName(name) then [c + [name]] else []
  {
    assert [c + [name]][..0] == [];
  }

  /** Recursive discovery is exactly the data files among all reachable non-directory entries. */
  lemma {:induction false} RecursiveIsFilteredFiles(prefix: seq<string>, entries: seq<Entry>)
    ensures TxtChains(prefix, entries, true) == DataChains(FilesUnder(prefix, entries))
    decreases entries
  {
    if |entries| > 0 {
      var init := entries[..|entries| - 1];
      var e := entries[|entries| - 1];
      RecursiveIsFilteredFiles(prefix, init);
      if e.Directory? {
        RecursiveIsFilteredFiles(prefix + [e.name], e.children);
        DataChainsAppend(FilesUnder(prefix, init), FilesUnder(prefix + [e.name], e.children));
      } else {
        DataChainsAppend(FilesUnder(prefix, init), [prefix + [e.name]]);
        DataChainsSingle(prefix, e.name);
      }
    }
  }

  /** Without `recursive`, discovery is exactly the data files of the listing itself. */
  lemma {:induction false} FlatIsFilteredTopFiles(prefix: seq<string>, entries: seq<Entry>)
    ensures TxtChains(prefix, entries, false) == DataChains(TopFiles(prefix, entries))
  {
    if |entries| > 0 {
      var init := entries[..|entries| - 1];
      var e := entries[|entries| - 1];
      FlatIsFilteredTopFiles(prefix, init);
      if e.Directory? {
        assert TopFiles(prefix, entries) == TopFiles(prefix, init) + [];
        assert TxtChains(prefix, entries, false) == TxtChains(prefix, init, false) + [];
        assert TopFiles(prefix, init) + [] == TopFiles(prefix, init);
        assert TxtChains(prefix, init, false) + [] == TxtChains(prefix, init, false);
      } else {
        DataChainsAppend(TopFiles(prefix, init), [prefix + [e.name]]);
        DataChainsSingle(prefix, e.name);
      }
    }
  }

  /**
   * Without `recursive`, a chain is collected exactly when some non-directory entry of the
   * listing has a data-file name and is its last name; a directory, whatever its name (for
   * example `x.txt`), contributes nothing.
   */
  lemma {:induction false} FlatMembership(prefix: seq<string>, entries: seq<Entry>, c: seq<string>)
    ensures c in TxtChains(prefix, entries, false) <==>
            exists i :: 0 <= i < |entries| && entries[i].File? && IsTxtName(entries[i].name)
                        && c == prefix + [entries[i].name]
  {
    if |entries| > 0 {
      var init := entries[..|entries| - 1];
      FlatMembership(prefix, init, c);
      if exists i :: 0 <= i < |init| && init[i].File? && IsTxtName(init[i].name) && c == prefix + [init[i].name] {
        var i :| 0 <= i < |init| && init[i].File? && IsTxtName(init[i].name) && c == prefix + [init[i].name];
        assert entries[i] == init[i];
      }
      if exists i :: 0 <= i < |entries| && entries[i].File? && IsTxtName(entries[i].name)
                     && c == prefix + [entries[i].name] {
        var i :| 0 <= i < |entries| && entries[i].File? && IsTxtName(entries[i].name) && c == prefix + [entries[i].name];
        if i < |init| {
          assert init[i] == entries[i];
        }
      }
    }
  }

  /** Listings concatenate: the walk of `a + b` is the walk of `a` followed by the walk of `b`. */
  lemma {:induction false} TxtChainsAppend(prefix: seq<string>, a: seq<Entry>, b: seq<Entry>, recursive: bool)
    ensures TxtChains(prefix, a + b, recursive) == TxtChains(prefix, a, recursive) + TxtChains(prefix, b, recursive)
    decreases |b|
  {
    if |b| == 0 {
      assert a + b == a;
    } else {
      var init := b[..|b| - 1];
      var last := [b[|b| - 1]];
      TxtChainsAppend(prefix, a, init, recursive);
      TxtChainsLast(prefix, a + b, recursive);
      assert (a + b)[..|a + b| - 1] == a + init;
      assert [(a + b)[|a + b| - 1]] == last;
      TxtChainsLast(prefix, b, recursive);
      AppendAssoc(TxtChains(prefix, a, recursive), TxtChains(prefix, init, recursive), TxtChains(prefix, last, recursive));
    }
  }

  /** The walk of a listing is the walk of all but its last entry, then the walk of that entry alone. */
  lemma TxtChainsLast(prefix: seq<string>, entries: seq<Entry>, recursive: bool)
    requires |entries| > 0
    ensures TxtChains(prefix, entries, recursive)
            == TxtChains(prefix, entries[..|entries| - 1], recursive) + TxtChains(prefix, [entries[|entries| - 1]], recursive)
  {
    var e := entries[|entries| - 1];
    var one := [e];
    var chains := if e.Directory? then (if recursive then TxtChains(prefix + [e.name], e.children, true) else [])
                  else if IsTxtName(e.name) then [prefix + [e.name]]
                  else [];
    assert one[..0] == [];
    assert TxtChains(prefix, one, recursive) == chains by {
      assert [] + chains == chains;
    }
  }

  lemma AppendAssoc(x: seq<seq<string>>, y: seq<seq<string>>, z: seq<seq<string>>)
    ensures x + y + z == x + (y + z)
  {
  }

  /**
   * With `recursive`, a subdirectory's data files are spliced in at that directory's position in
   * the listing; without it, the subdirectory contributes nothing.
   */
  lemma SubdirectorySpliced(prefix: seq<string>, a: seq<Entry>, name: string, children: seq<Entry>, b: seq<Entry>)
    ensures TxtChains(prefix, a + [Directory(name, children)] + b, true)
            == TxtChains(prefix, a, true) + TxtChains(prefix + [name], children, true) + TxtChains(prefix, b, true)
    ensures TxtChains(prefix, a + [Directory(name, children)] + b, false)
            == TxtChains(prefix, a, false) + TxtChains(prefix, b, false)
  {
    SubdirectoryWalked(prefix, a, name, children, b);
    SubdirectorySkipped(prefix, a, name, children, b);
  }

  lemma SubdirectoryWalked(prefix: seq<string>, a: seq<Entry>, name: string, children: seq<Entry>, b: seq<Entry>)
    ensures TxtChains(prefix, a + [Directory(name, children)] + b, true)
            == TxtChains(prefix, a, true) + TxtChains(prefix + [name], children, true) + TxtChains(prefix, b, true)
  {
    DirectoryChains(prefix, name, children, true);
    DirectorySpliced(prefix, a, name, children, b, true);
  }

  lemma SubdirectorySkipped(prefix: seq<string>, a: seq<Entry>, name: string, children: seq<Entry>, b: seq<Entry>)
    ensures TxtChains(prefix, a + [Directory(name, children)] + b, false)
            == TxtChains(prefix, a, false) + TxtChains(prefix, b, false)
  {
    DirectoryChains(prefix, name, children, false);
    DirectorySpliced(prefix, a, name, children, b, false);
    assert TxtChains(prefix, a, false) + [] == TxtChains(prefix, a, false);
  }

  lemma DirectorySpliced(prefix: seq<string>, a: seq<Entry>, name: string, children: seq<Entry>, b: seq<Entry>,
                         recursive: bool)
    ensures TxtChains(prefix, a + [Directory(name, children)] + b, recursive)
            == TxtChains(prefix, a, recursive) + TxtChains(prefix, [Directory(name, children)], recursive)
               + TxtChains(prefix, b, recursive)
  {
    var d := [Directory(name, children)];
    TxtChainsAppend(prefix, a + d, b, recursive);
    TxtChainsAppend(prefix, a, d, recursive);
  }

  /** The walk of a listing made of one directory. */
  lemma DirectoryChains(prefix: seq<string>, name: string, children: seq<Entry>, recursive: bool)
    ensures TxtChains(prefix, [Directory(name, children)], recursive)
            == if recursive then TxtChains(prefix + [name], children, true) else []
  {
    assert [Directory(name, children)][..0] == [];
  }

  /** A directory is never listed itself, whatever its name: `x.txt/` contributes only its files. */
  lemma DirectoryNeverListed(prefix: seq<string>, name: string, children: seq<Entry>, recursive: bool)
    ensures prefix + [name] !in TxtChains(prefix, [Directory(name, children)], recursive)
  {
    var d := [Directory(name, children)];
    assert d[..0] == [];
    var child := prefix + [name];
    ChainsEndInDataFile(child, children, true);
    assert TxtChains(prefix, d, recursive) == if recursive then TxtChains(child, children, true) else [];
  }
}

/**
 * The JavaScript string operations the validator relies on: `String.prototype.trim`,
 * `split` on a single character and its inverse `join`.
 */
module Text {

  /** The code points `String.prototype.trim` removes: ECMAScript WhiteSpace and LineTerminator. */
  predicate IsTrimmable(c: char) {
    || c == '\t' || c == '\n' || c == '\U{000B}' || c == '\U{000C}' || c == '\r' || c == ' '
    || c == '\U{00A0}' || c == '\U{1680}' || ('\U{2000}' <= c <= '\U{200A}')
    || c == '\U{2028}' || c == '\U{2029}' || c == '\U{202F}' || c == '\U{205F}'
    || c == '\U{3000}' || c == '\U{FEFF}'
  }

  /** Number of trimmable characters at the start of `s`. */
  function LeadingCount(s: string): (n: nat)
    ensures n <= |s|
  {
    if |s| > 0 && IsTrimmable(s[0]) then 1 + LeadingCount(s[1..]) else 0
  }

  /** The leading run is all trimmable and stops at a non-trimmable character or the end. */
  lemma {:induction false} LeadingCountMeaning(s: string)
    ensures forall j :: 0 <= j < LeadingCount(s) ==> IsTrimmable(s[j])
    ensures LeadingCount(s) < |s| ==> !IsTrimmable(s[LeadingCount(s)])
    decreases |s|
  {
    if |s| > 0 && IsTrimmable(s[0]) {
      LeadingCountMeaning(s[1..]);
      assert forall j :: 1 <= j < LeadingCount(s) ==> s[j] == s[1..][j - 1];
    }
  }

  /** Number of trimmable characters at the end of `s`. */
  function TrailingCount(s: string): (n: nat)
    ensures n <= |s|
  {
    if |s| > 0 && IsTrimmable(s[|s| - 1]) then 1 + TrailingCount(s[..|s| - 1]) else 0
  }

  /** The trailing run is all trimmable and stops at a non-trimmable character or the start. */
  lemma {:induction false} TrailingCountMeaning(s: string)
    ensures forall j :: |s| - TrailingCount(s) <= j < |s| ==> IsTrimmable(s[j])
    ensures TrailingCount(s) < |s| ==> !IsTrimmable(s[|s| - 1 - TrailingCount(s)])
    decreases |s|
  {
    if |s| > 0 && IsTrimmable(s[|s| - 1]) {
      TrailingCountMeaning(s[..|s| - 1]);
    }
  }

  /** `s.trim()`: the slice of `s` left after dropping its leading and trailing runs. */
  function Trim(s: string): (t: string)
    ensures |t| <= |s|
  {
    var u := s[LeadingCount(s)..];
    u[..|u| - TrailingCount(u)]
  }

  /** `trim()` returns the slice of `s` that starts after the leading run. */
  lemma TrimSlice(s: string)
    ensures LeadingCount(s) + |Trim(s)| <= |s|
    ensures Trim(s) == s[LeadingCount(s)..LeadingCount(s) + |Trim(s)|]
  {
    var i := LeadingCount(s);
    var u := s[i..];
    assert Trim(s) == s[i..i + |Trim(s)|];
  }

  /** Neither end of a trimmed string is trimmable. */
  lemma TrimEnds(s: string)
    ensures var t := Trim(s);
            t == "" || (!IsTrimmable(t[0]) && !IsTrimmable(t[|t| - 1]))
  {
    var u := s[LeadingCount(s)..];
    LeadingCountMeaning(s);
    TrailingCountMeaning(u);
  }

  /** Everything `trim()` drops, before and after the result, is trimmable. */
  lemma TrimDropsOnlyTrimmable(s: string)
    ensures forall j :: 0 <= j < LeadingCount(s) ==> IsTrimmable(s[j])
    ensures forall j :: LeadingCount(s) + |Trim(s)| <= j < |s| ==> IsTrimmable(s[j])
  {
    var i := LeadingCount(s);
    var u := s[i..];
    LeadingCountMeaning(s);
    TrailingCountMeaning(u);
    var n := |Trim(s)|;
    assert n == |u| - TrailingCount(u);
    forall j | i + n <= j < |s|
      ensures IsTrimmable(s[j])
    {
      assert s[j] == u[j - i];
    }
  }

  /**
   * `trim()` keeps the longest slice of `s` that neither starts nor ends with a trimmable
   * character: everything before it and everything after it is trimmable.
   */
  lemma TrimMeaning(s: string)
    ensures var t := Trim(s);
            t == "" || (!IsTrimmable(t[0]) && !IsTrimmable(t[|t| - 1]))
    ensures LeadingCount(s) + |Trim(s)| <= |s|
    ensures Trim(s) == s[LeadingCount(s)..LeadingCount(s) + |Trim(s)|]
    ensures forall j :: 0 <= j < LeadingCount(s) ==> IsTrimmable(s[j])
    ensures forall j :: LeadingCount(s) + |Trim(s)| <= j < |s| ==> IsTrimmable(s[j])
  {
    TrimSlice(s);
    TrimEnds(s);
    TrimDropsOnlyTrimmable(s);
  }

  /** Trimming a string that already starts and ends with non-blank characters changes nothing. */
  lemma TrimFixed(s: string)
    requires s == "" || (!IsTrimmable(s[0]) && !IsTrimmable(s[|s| - 1]))
    ensures Trim(s) == s
  {
    var u := s[LeadingCount(s)..];
    assert u == s;
  }

  /** Trimming is idempotent. */
  lemma TrimIdempotent(s: string)
    ensures Trim(Trim(s)) == Trim(s)
  {
    TrimEnds(s);
    TrimFixed(Trim(s));
  }

  /** Number of occurrences of `d` in `s`. */
  function Occurrences(s: string, d: char): nat {
    if |s| == 0 then 0 else (if s[0] == d then 1 else 0) + Occurrences(s[1..], d)
  }

  /** `s.split(d)` for a one-character separator: the maximal `d`-free pieces of `s`, always at least one. */
  function Split(s: string, d: char): (parts: seq<string>)
    ensures |parts| >= 1
    decreases |s|
  {
    if |s| == 0 then [""]
    else if s[0] == d then [""] + Split(s[1..], d)
    else
      var rest := Split(s[1..], d);
      [[s[0]] + rest[0]] + rest[1..]
  }

  /** No piece of a split contains the separator. */
  lemma {:induction false} SplitPiecesFree(s: string, d: char)
    ensures forall k :: 0 <= k < |Split(s, d)| ==> d !in Split(s, d)[k]
    decreases |s|
  {
    if |s| > 0 {
      SplitPiecesFree(s[1..], d);
    }
  }

  /** `parts.join(d)`. */
  function Join(parts: seq<string>, d: char): string
    requires |parts| >= 1
  {
    if |parts| == 1 then parts[0] else parts[0] + [d] + Join(parts[1..], d)
  }

  /** Splitting yields one more piece than there are separators. */
  lemma {:induction false} SplitLength(s: string, d: char)
    ensures |Split(s, d)| == Occurrences(s, d) + 1
    decreases |s|
  {
    if |s| > 0 {
      SplitLength(s[1..], d);
    }
  }

  /** Joining the pieces of a split gives the string back. */
  lemma {:induction false} JoinSplit(s: string, d: char)
    ensures Join(Split(s, d), d) == s
    decreases |s|
  {
    if |s| > 0 {
      JoinSplit(s[1..], d);
      var rest := Split(s[1..], d);
      if s[0] == d {
        assert Split(s, d)[1..] == rest;
      } else {
        var parts := Split(s, d);
        if |rest| == 1 {
          assert parts == [[s[0]] + rest[0]];
        } else {
          assert parts[1..] == rest[1..];
          assert Join(rest, d) == rest[0] + [d] + Join(rest[1..], d);
        }
      }
    }
  }

  /** A string without the separator splits into itself. */
  lemma {:induction false} SplitFree(s: string, d: char)
    requires d !in s
    ensures Split(s, d) == [s]
    decreases |s|
  {
    if |s| > 0 {
      SplitFree(s[1..], d);
      assert [s[0]] + s[1..] == s;
    }
  }

  /** Splitting distributes over a separator: the separator ends one piece and starts the next. */
  lemma {:induction false} SplitAround(a: string, b: string, d: char)
    ensures Split(a + [d] + b, d) == Split(a, d) + Split(b, d)
    decreases |a|
  {
    var s := a + [d] + b;
    if |a| == 0 {
      assert s == [d] + b && s[1..] == b;
    } else {
      assert s[0] == a[0] && s[1..] == a[1..] + [d] + b;
      SplitAround(a[1..], b, d);
    }
  }

  /** Splitting a join of separator-free pieces gives the pieces back. */
  lemma {:induction false} SplitJoin(parts: seq<string>, d: char)
    requires |parts| >= 1
    requires forall k :: 0 <= k < |parts| ==> d !in parts[k]
    ensures Split(Join(parts, d), d) == parts
    decreases |parts|
  {
    SplitFree(parts[0], d);
    if |parts| > 1 {
      var rest := parts[1..];
      forall k | 0 <= k < |rest|
        ensures d !in rest[k]
      {
        assert rest[k] == parts[k + 1];
      }
      SplitJoin(rest, d);
      assert Join(parts, d) == parts[0] + [d] + Join(rest, d);
      SplitAround(parts[0], Join(rest, d), d);
      assert parts == [parts[0]] + rest;
    }
  }

  /** Joining two non-empty lists of pieces puts one separator between their joins. */
  lemma {:induction false} JoinConcat(a: seq<string>, b: seq<string>, d: char)
    requires |a| >= 1 && |b| >= 1
    ensures Join(a + b, d) == Join(a, d) + [d] + Join(b, d)
    decreases |a|
  {
    if |a| > 1 {
      JoinConcat(a[1..], b, d);
      assert (a + b)[1..] == a[1..] + b;
    }
  }
}

/** The Python string operations the indexer relies on: the substring test
    `p in s`, `s.split(sep)`, `sep.join(parts)` and `s.replace(pat, rep)`. */
module Strings {

  /** `p` is a prefix of `s`. */
  predicate StartsWith(s: string, p: string)
  {
    |p| <= |s| && s[..|p|] == p
  }

  /** Python's `p in s`: `p` occurs in `s` as a contiguous substring. */
  predicate Contains(s: string, p: string)
    decreases |s|
  {
    StartsWith(s, p) || (|s| > 0 && Contains(s[1..], p))
  }

  /** `s.split(sep)` for a non-empty separator: the pieces between the
      non-overlapping occurrences of `sep`, found scanning left to right. */
  function Split(s: string, sep: string): (parts: seq<string>)
    requires |sep| > 0
    ensures |parts| >= 1
    decreases |s|
  {
    if StartsWith(s, sep) then [""] + Split(s[|sep|..], sep)
    else if |s| == 0 then [""]
    else
      var rest := Split(s[1..], sep);
      [[s[0]] + rest[0]] + rest[1..]
  }

  /** `sep.join(parts)`. */
  function Join(sep: string, parts: seq<string>): string
  {
    if |parts| == 0 then ""
    else if |parts| == 1 then parts[0]
    else parts[0] + sep + Join(sep, parts[1..])
  }

  /** `s.replace(pat, rep)` for a non-empty pattern: scanning left to right,
      each non-overlapping occurrence of `pat` is replaced by `rep`. */
  function Replace(s: string, pat: string, rep: string): string
    requires |pat| > 0
    decreases |s|
  {
    if StartsWith(s, pat) then rep + Replace(s[|pat|..], pat, rep)
    else if |s| == 0 then ""
    else [s[0]] + Replace(s[1..], pat, rep)
  }

  /** `s.split(sep)[-1]`: the last piece of the split. */
  function AfterLast(s: string, sep: string): string
    requires |sep| > 0
  {
    var parts := Split(s, sep);
    parts[|parts| - 1]
  }

  // ---------------------------------------------------------------------
  // Substring facts

  /** A string containing `p + q` contains `p`. */
  lemma {:induction false} ContainsLonger(s: string, p: string, q: string)
    requires Contains(s, p + q)
    ensures Contains(s, p)
    decreases |s|
  {
    if StartsWith(s, p + q) {
      assert s[..|p|] == (p + q)[..|p|] == p;
    } else {
      ContainsLonger(s[1..], p, q);
    }
  }

  /** Appending text keeps an occurrence. */
  lemma {:induction false} ContainsInPrefix(a: string, b: string, p: string)
    requires Contains(a, p)
    ensures Contains(a + b, p)
    decreases |a|
  {
    if StartsWith(a, p) {
      assert (a + b)[..|p|] == a[..|p|];
    } else {
      ContainsInPrefix(a[1..], b, p);
      assert (a + b)[1..] == a[1..] + b;
    }
  }

  /** Prepending text keeps an occurrence. */
  lemma {:induction false} ContainsInSuffix(a: string, b: string, p: string)
    requires Contains(b, p)
    ensures Contains(a + b, p)
    decreases |a|
  {
    if |a| > 0 {
      ContainsInSuffix(a[1..], b, p);
      assert (a + b)[1..] == a[1..] + b;
    } else {
      assert a + b == b;
    }
  }

  // ---------------------------------------------------------------------
  // Split and Join

  lemma {:induction false} JoinConsHead(sep: string, c: char, x: string, t: seq<string>)
    ensures Join(sep, [[c] + x] + t) == [c] + Join(sep, [x] + t)
  {
    if |t| == 0 {
      assert [[c] + x] + t == [[c] + x];
      assert [x] + t == [x];
    } else {
      assert ([[c] + x] + t)[1..] == t;
      assert ([x] + t)[1..] == t;
    }
  }

  /** Joining the pieces of a split with the same separator gives back the string. */
  lemma {:induction false} JoinSplit(s: string, sep: string)
    requires |sep| > 0
    ensures Join(sep, Split(s, sep)) == s
    decreases |s|
  {
    if StartsWith(s, sep) {
      JoinSplit(s[|sep|..], sep);
      JoinSplitAtSep(s, sep);
    } else if |s| > 0 {
      JoinSplit(s[1..], sep);
      JoinSplitAtChar(s, sep);
    }
  }

  lemma {:induction false} JoinSplitAtSep(s: string, sep: string)
    requires |sep| > 0 && StartsWith(s, sep)
    requires Join(sep, Split(s[|sep|..], sep)) == s[|sep|..]
    ensures Join(sep, Split(s, sep)) == s
  {
    var rest := Split(s[|sep|..], sep);
    assert ([""] + rest)[1..] == rest;
    assert s == s[..|sep|] + s[|sep|..];
  }

  lemma {:induction false} JoinSplitAtChar(s: string, sep: string)
    requires |sep| > 0 && !StartsWith(s, sep) && |s| > 0
    requires Join(sep, Split(s[1..], sep)) == s[1..]
    ensures Join(sep, Split(s, sep)) == s
  {
    var rest := Split(s[1..], sep);
    JoinConsHead(sep, s[0], rest[0], rest[1..]);
    assert [rest[0]] + rest[1..] == rest;
    assert s == [s[0]] + s[1..];
  }

  /** A split yields more than one piece exactly when the separator occurs. */
  lemma {:induction false} SplitContains(s: string, sep: string)
    requires |sep| > 0
    ensures |Split(s, sep)| >= 2 <==> Contains(s, sep)
    decreases |s|
  {
    if StartsWith(s, sep) {
    } else if |s| == 0 {
    } else {
      SplitContains(s[1..], sep);
    }
  }

  /** The first piece of a split is a prefix of the string. */
  lemma {:induction false} SplitHeadIsPrefix(s: string, sep: string)
    requires |sep| > 0
    ensures StartsWith(s, Split(s, sep)[0])
    decreases |s|
  {
    if StartsWith(s, sep) {
    } else if |s| == 0 {
    } else {
      SplitHeadIsPrefix(s[1..], sep);
      var h := Split(s[1..], sep)[0];
      assert s[..1 + |h|] == [s[0]] + s[1..][..|h|];
    }
  }

  /** No piece of a split contains the separator. */
  lemma {:induction false} SplitPiecesFree(s: string, sep: string)
    requires |sep| > 0
    ensures forall i :: 0 <= i < |Split(s, sep)| ==> !Contains(Split(s, sep)[i], sep)
    decreases |s|
  {
    var parts := Split(s, sep);
    if StartsWith(s, sep) {
      SplitPiecesFree(s[|sep|..], sep);
      var rest := Split(s[|sep|..], sep);
      forall i | 0 <= i < |parts| ensures !Contains(parts[i], sep) {
        if i > 0 {
          assert parts[i] == rest[i - 1];
        }
      }
    } else if |s| == 0 {
    } else {
      SplitPiecesFree(s[1..], sep);
      SplitHeadIsPrefix(s, sep);
      var rest := Split(s[1..], sep);
      var head := [s[0]] + rest[0];
      assert parts == [head] + rest[1..];
      if |sep| <= |head| {
        assert head[..|sep|] == s[..|head|][..|sep|] == s[..|sep|];
      }
      assert !StartsWith(head, sep);
      assert head[1..] == rest[0];
      forall i | 0 <= i < |parts| ensures !Contains(parts[i], sep) {
        if i > 0 {
          assert parts[i] == rest[i];
        }
      }
    }
  }

  lemma {:induction false} JoinSnoc(sep: string, parts: seq<string>)
    requires |parts| >= 2
    ensures Join(sep, parts) == Join(sep, parts[..|parts| - 1]) + sep + parts[|parts| - 1]
    decreases |parts|
  {
    if |parts| == 2 {
      assert parts[..1] == [parts[0]];
      assert parts[1..] == [parts[1]];
    } else {
      JoinSnoc(sep, parts[1..]);
      assert parts[1..][..|parts| - 2] == parts[..|parts| - 1][1..];
    }
  }

  /** `s.split(sep)[-1]` is the text after the last occurrence of `sep`:
      it is a suffix of `s` preceded by `sep` and holding no `sep` itself,
      or the whole of `s` when `sep` does not occur. */
  lemma {:induction false} AfterLastOccurrence(s: string, sep: string)
    requires |sep| > 0
    ensures !Contains(AfterLast(s, sep), sep)
    ensures Contains(s, sep) ==>
              |AfterLast(s, sep)| + |sep| <= |s| &&
              s[|s| - |AfterLast(s, sep)| - |sep|..] == sep + AfterLast(s, sep)
    ensures !Contains(s, sep) ==> AfterLast(s, sep) == s
  {
    AfterLastFree(s, sep);
    if Contains(s, sep) {
      AfterLastSuffix(s, sep);
    } else {
      AfterLastWhole(s, sep);
    }
  }

  lemma {:induction false} AfterLastFree(s: string, sep: string)
    requires |sep| > 0
    ensures !Contains(AfterLast(s, sep), sep)
  {
    var parts := Split(s, sep);
    SplitPiecesFree(s, sep);
    assert !Contains(parts[|parts| - 1], sep);
  }

  lemma {:induction false} AfterLastSuffix(s: string, sep: string)
    requires |sep| > 0 && Contains(s, sep)
    ensures |AfterLast(s, sep)| + |sep| <= |s|
    ensures s[|s| - |AfterLast(s, sep)| - |sep|..] == sep + AfterLast(s, sep)
  {
    var parts := Split(s, sep);
    var n := |parts|;
    SplitContains(s, sep);
    JoinSplit(s, sep);
    JoinSnoc(sep, parts);
    EndsWithLast(s, Join(sep, parts[..n - 1]), sep, parts[n - 1]);
  }

  lemma EndsWithLast(s: string, pre: string, sep: string, last: string)
    requires s == pre + sep + last
    ensures |last| + |sep| <= |s|
    ensures s[|s| - |last| - |sep|..] == sep + last
  {
    assert s[|pre|..] == sep + last;
  }

  lemma {:induction false} AfterLastWhole(s: string, sep: string)
    requires |sep| > 0 && !Contains(s, sep)
    ensures AfterLast(s, sep) == s
  {
    var parts := Split(s, sep);
    SplitContains(s, sep);
    JoinSplit(s, sep);
    assert parts == [parts[0]];
  }

  /** Splitting that starts with a piece free of a one-character separator. */
  lemma {:induction false} SplitAfterFree(x: string, sep: string, y: string)
    requires |sep| == 1 && !Contains(x, sep)
    ensures Split(x + sep + y, sep) == [x] + Split(y, sep)
    decreases |x|
  {
    var s := x + sep + y;
    if |x| == 0 {
      assert s == sep + y;
      assert s[|sep|..] == y;
    } else {
      assert s[0] == x[0];
      assert x[..1] != sep;
      assert !StartsWith(s, sep);
      SplitAfterFree(x[1..], sep, y);
      assert s[1..] == x[1..] + sep + y;
      assert [x[0]] + x[1..] == x;
    }
  }

  /** A string free of a one-character separator splits into itself. */
  lemma {:induction false} SplitFree(x: string, sep: string)
    requires |sep| == 1 && !Contains(x, sep)
    ensures Split(x, sep) == [x]
    decreases |x|
  {
    if |x| > 0 {
      SplitFree(x[1..], sep);
      assert [x[0]] + x[1..] == x;
    }
  }

  /** Splitting a join on a one-character separator gives back the pieces,
      when no piece contains the separator. */
  lemma {:induction false} SplitJoin(sep: string, parts: seq<string>)
    requires |sep| == 1 && |parts| >= 1
    requires forall i :: 0 <= i < |parts| ==> !Contains(parts[i], sep)
    ensures Split(Join(sep, parts), sep) == parts
    decreases |parts|
  {
    if |parts| == 1 {
      SplitFree(parts[0], sep);
    } else {
      SplitJoin(sep, parts[1..]);
      SplitAfterFree(parts[0], sep, Join(sep, parts[1..]));
      assert [parts[0]] + parts[1..] == parts;
    }
  }

  // ---------------------------------------------------------------------
  // Replace

  /** `s.replace(pat, rep)` equals `rep.join(s.split(pat))`. */
  lemma {:induction false} ReplaceIsJoinOfSplit(s: string, pat: string, rep: string)
    requires |pat| > 0
    ensures Replace(s, pat, rep) == Join(rep, Split(s, pat))
    decreases |s|
  {
    if StartsWith(s, pat) {
      ReplaceIsJoinOfSplit(s[|pat|..], pat, rep);
      var rest := Split(s[|pat|..], pat);
      assert ([""] + rest)[1..] == rest;
    } else if |s| == 0 {
    } else {
      ReplaceIsJoinOfSplit(s[1..], pat, rep);
      var rest := Split(s[1..], pat);
      JoinConsHead(rep, s[0], rest[0], rest[1..]);
      assert [rest[0]] + rest[1..] == rest;
    }
  }

  /** Replacing a pattern that does not occur changes nothing. */
  lemma ReplaceAbsent(s: string, pat: string, rep: string)
    requires |pat| > 0 && !Contains(s, pat)
    ensures Replace(s, pat, rep) == s
  {
    ReplaceIsJoinOfSplit(s, pat, rep);
    SplitContains(s, pat);
    JoinSplit(s, pat);
  }
}

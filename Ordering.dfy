/** The orders `sorted` uses on the index keys: Python's `<` on `str`
    (lexicographic by code point) and the value of `int()` on a decimal
    string, and `sorted(set(...))` under each of them. */
module Ordering {

  /** Python's `a < b` on `str`. */
  predicate Less(a: string, b: string)
    decreases |a|
  {
    if |a| == 0 then |b| > 0
    else |b| > 0 && (a[0] < b[0] || (a[0] == b[0] && Less(a[1..], b[1..])))
  }

  lemma {:induction false} LessIrreflexive(a: string)
    ensures !Less(a, a)
    decreases |a|
  {
    if |a| > 0 {
      LessIrreflexive(a[1..]);
    }
  }

  lemma {:induction false} LessTransitive(a: string, b: string, c: string)
    requires Less(a, b) && Less(b, c)
    ensures Less(a, c)
    decreases |a|
  {
    if |a| > 0 && a[0] == b[0] == c[0] {
      LessTransitive(a[1..], b[1..], c[1..]);
    }
  }

  lemma {:induction false} LessTotal(a: string, b: string)
    requires a != b
    ensures Less(a, b) || Less(b, a)
    decreases |a|
  {
    if |a| > 0 && |b| > 0 && a[0] == b[0] {
      assert a == [a[0]] + a[1..] && b == [b[0]] + b[1..];
      LessTotal(a[1..], b[1..]);
    }
  }

  /** `m` is the least element of `s`. */
  predicate IsLeast(m: string, s: set<string>)
  {
    m in s && forall x :: x in s && x != m ==> Less(m, x)
  }

  /** Every finite non-empty set of strings has a least element. */
  lemma {:induction false} LeastExists(s: set<string>)
    requires s != {}
    ensures exists m :: IsLeast(m, s)
    decreases |s|
  {
    var y :| y in s;
    if s == {y} {
      assert IsLeast(y, s);
    } else {
      var rest := s - {y};
      LeastExists(rest);
      var m :| IsLeast(m, rest);
      LessTotal(y, m);
      if Less(y, m) {
        forall x | x in s && x != y ensures Less(y, x) {
          if x != m {
            LessTransitive(y, m, x);
          }
        }
        assert IsLeast(y, s);
      } else {
        assert IsLeast(m, s);
      }
    }
  }

  predicate StrictlySorted(r: seq<string>)
  {
    forall i, j :: 0 <= i < j < |r| ==> Less(r[i], r[j])
  }

  /** A strictly sorted list holds each string at most once. */
  lemma StrictlySortedDistinct(r: seq<string>)
    requires StrictlySorted(r)
    ensures forall i, j :: 0 <= i < j < |r| ==> r[i] != r[j]
  {
    forall i, j | 0 <= i < j < |r| ensures r[i] != r[j] {
      LessIrreflexive(r[i]);
    }
  }

  /** `sorted(s)` of a set of strings: its elements in strictly increasing order. */
  ghost function SortedStrings(s: set<string>): (r: seq<string>)
    ensures forall x :: x in r <==> x in s
    ensures StrictlySorted(r)
    decreases s
  {
    if s == {} then []
    else
      LeastExists(s);
      var m :| IsLeast(m, s);
      var rest := SortedStrings(s - {m});
      assert forall j :: 0 <= j < |rest| ==> Less(m, rest[j]);
      [m] + rest
  }

  predicate AllDigits(s: string)
  {
    forall i :: 0 <= i < |s| ==> '0' <= s[i] <= '9'
  }

  /** A string `int()` reads as a decimal number without sign, space or '_'. */
  predicate IsDigits(s: string)
  {
    |s| > 0 && AllDigits(s)
  }

  /** `int(s)` when `s` is a string of decimal digits (the value is only
      meaningful for such strings). */
  function DecimalValue(s: string): int
  {
    if |s| == 0 then 0
    else 10 * DecimalValue(s[..|s| - 1]) + (s[|s| - 1] as int - '0' as int)
  }

  /** No element of `s` has a smaller value than `m`. */
  predicate IsLeastValue(m: string, s: set<string>)
  {
    m in s && forall x :: x in s ==> DecimalValue(m) <= DecimalValue(x)
  }

  /** Every finite non-empty set of digit strings has an element of least value. */
  lemma {:induction false} LeastValueExists(s: set<string>)
    requires s != {}
    ensures exists m :: IsLeastValue(m, s)
    decreases |s|
  {
    var y :| y in s;
    if s == {y} {
      assert IsLeastValue(y, s);
    } else {
      var rest := s - {y};
      LeastValueExists(rest);
      var m :| IsLeastValue(m, rest);
      if DecimalValue(y) <= DecimalValue(m) {
        assert IsLeastValue(y, s);
      } else {
        assert IsLeastValue(m, s);
      }
    }
  }

  /** `sorted(s, key=int)` of a set of digit strings: each element once, in
      non-decreasing order of value.  Strings of equal value (such as "7"
      and "07") come out in an unspecified order, as they do from a set. */
  ghost function SortedByValue(s: set<string>): (r: seq<string>)
    requires forall x :: x in s ==> IsDigits(x)
    ensures forall x :: x in r <==> x in s
    ensures forall i :: 0 <= i < |r| ==> IsDigits(r[i])
    ensures forall i, j :: 0 <= i < j < |r| ==> r[i] != r[j] && DecimalValue(r[i]) <= DecimalValue(r[j])
    decreases s
  {
    if s == {} then []
    else
      LeastValueExists(s);
      var m :| IsLeastValue(m, s);
      var rest := SortedByValue(s - {m});
      assert forall j :: 0 <= j < |rest| ==> rest[j] in s - {m};
      [m] + rest
  }
}

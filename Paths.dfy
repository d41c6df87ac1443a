/** The two `os.path` operations of the indexer, on POSIX paths. */
module Paths {
  import opened Strings

  /** `os.path.join(root, name)`: an absolute `name` replaces `root`, and a
      '/' is inserted unless `root` is empty or already ends in one. */
  function JoinPath(root: string, name: string): string
  {
    if StartsWith(name, "/") then name
    else if |root| == 0 || root[|root| - 1] == '/' then root + name
    else root + "/" + name
  }

  /** `os.path.basename(path)`: the text after the last '/'. */
  function Basename(path: string): string
  {
    AfterLast(path, "/")
  }

  /** The last piece of a split on a one-character separator only depends on
      what follows an occurrence of it. */
  lemma {:induction false} AfterLastOfAppend(a: string, sep: string, b: string)
    requires |sep| == 1
    ensures AfterLast(a + sep + b, sep) == AfterLast(b, sep)
    decreases |a|
  {
    var s := a + sep + b;
    if |a| == 0 {
      assert s == sep + b;
      assert StartsWith(s, sep);
      assert s[|sep|..] == b;
    } else {
      AfterLastOfAppend(a[1..], sep, b);
      assert s[1..] == a[1..] + sep + b;
      if !StartsWith(s, sep) {
        var rest := Split(s[1..], sep);
        assert StartsWith(sep + b, sep);
        ContainsInSuffix(a[1..], sep + b, sep);
        assert a[1..] + (sep + b) == s[1..];
        SplitContains(s[1..], sep);
        assert |rest| >= 2;
      } else {
        assert s[|sep|..] == s[1..];
      }
    }
  }

  /** A file name found under a directory is recovered by `basename`. */
  lemma {:induction false} BasenameOfJoin(root: string, name: string)
    requires !Contains(name, "/")
    ensures Basename(JoinPath(root, name)) == name
  {
    AfterLastWhole(name, "/");
    assert !StartsWith(name, "/");
    if |root| == 0 {
      assert root + name == name;
    } else if root[|root| - 1] == '/' {
      var dir := root[..|root| - 1];
      assert root + name == dir + "/" + name;
      AfterLastOfAppend(dir, "/", name);
    } else {
      AfterLastOfAppend(root, "/", name);
    }
  }
}

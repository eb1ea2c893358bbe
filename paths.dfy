/** POSIX path strings as `os.path.join` and `os.path.relpath` build them. */
module Paths {
  import opened Strings

  /** `a` is empty or ends with "/": joining a name to it needs no separator. */
  predicate EndsInSeparator(a: string) {
    a == [] || a[|a| - 1] == '/'
  }

  /**
   * `os.path.join(a, b)` for a name `b` that is not absolute: `b` is appended to `a`, with a "/"
   * in between unless `a` is empty or already ends with one.
   */
  function Join(a: string, b: string): string
  {
    if EndsInSeparator(a) then a + b else a + "/" + b
  }

  /** A joined path starts with the directory and ends with the name, with at most one "/" between. */
  lemma JoinShape(a: string, b: string)
    ensures var r := Join(a, b);
      && StartsWith(r, a) && EndsWith(r, b)
      && (|r| == |a| + |b| || (|r| == |a| + 1 + |b| && r[|a|] == '/'))
  {
  }

  /** The path reached from `base` by joining the names `comps` one after the other. */
  function JoinAll(base: string, comps: seq<string>): string
    decreases |comps|
  {
    if comps == [] then base else JoinAll(Join(base, comps[0]), comps[1..])
  }

  /** What every path joined below `root` starts with: `root` followed by a separator. */
  function DirPrefix(root: string): (p: string)
    ensures EndsInSeparator(p)
    ensures StartsWith(p, root)
  {
    if EndsInSeparator(root) then root else root + "/"
  }

  /** `os.path.relpath(full, root)` for a path below `root`: `full` without the root prefix. */
  function RelPath(full: string, root: string): string
    requires StartsWith(full, DirPrefix(root))
  {
    full[|DirPrefix(root)|..]
  }

  /** Joining below a directory prefix does not look at the prefix. */
  lemma JoinUnderPrefix(prefix: string, s: string, c: string)
    requires EndsInSeparator(prefix)
    ensures Join(prefix + s, c) == prefix + Join(s, c)
  {
    if s != [] {
      assert (prefix + s)[|prefix + s| - 1] == s[|s| - 1];
      assert EndsInSeparator(prefix + s) == EndsInSeparator(s);
      if EndsInSeparator(s) {
        assert prefix + s + c == prefix + (s + c);
      } else {
        assert prefix + s + "/" + c == prefix + (s + "/" + c);
      }
    } else {
      assert prefix + s == prefix;
    }
  }

  lemma {:induction false} JoinAllUnderPrefix(prefix: string, s: string, comps: seq<string>)
    requires EndsInSeparator(prefix)
    ensures JoinAll(prefix + s, comps) == prefix + JoinAll(s, comps)
    decreases |comps|
  {
    if comps != [] {
      JoinUnderPrefix(prefix, s, comps[0]);
      JoinAllUnderPrefix(prefix, Join(s, comps[0]), comps[1..]);
    }
  }

  /**
   * A path joined below `root` lies under the root prefix, and its path relative to `root` is the
   * same names joined from the empty path: the relative path can be built alongside the absolute one.
   */
  lemma {:induction false} RelPathOfJoined(root: string, comps: seq<string>)
    requires |comps| >= 1
    ensures StartsWith(JoinAll(root, comps), DirPrefix(root))
    ensures RelPath(JoinAll(root, comps), root) == JoinAll("", comps)
  {
    var p := DirPrefix(root);
    assert Join(root, comps[0]) == p + Join("", comps[0]);
    JoinAllUnderPrefix(p, Join("", comps[0]), comps[1..]);
    assert JoinAll(root, comps) == p + JoinAll("", comps);
  }
}

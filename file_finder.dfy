/**
 * Discovery of the Python files below a directory (find_python_files in
 * src/pyright_mcp/file_finder.py): an ordered ignore-pattern list, a top-down walk that prunes
 * ignored subdirectories before descending, an extension filter on files and a sorted result.
 */
module FileFinder {
  import opened Wrappers
  import opened Sequences
  import opened Strings
  import opened Paths
  import opened Sorting

  // ---------------------------------------------------------------------------
  // The ignore-pattern list
  // ---------------------------------------------------------------------------

  /** The patterns that are always ignored, in this order. */
  const DefaultIgnorePatterns: seq<string> := [
    "__pycache__", "*.pyc", ".git", ".venv", "venv", "env", ".env", "node_modules",
    ".mypy_cache", ".pytest_cache", ".ruff_cache", "dist", "build", "*.egg-info"]

  /** A `.gitignore` line gives a pattern when it is not blank and its raw text does not start with "#". */
  predicate IsPatternLine(line: string) {
    Strip(line) != [] && !StartsWith(line, "#")
  }

  /** The patterns of a `.gitignore` file, given its lines as read: the pattern lines, stripped. */
  function GitignorePatterns(lines: seq<string>): seq<string> {
    MapKept(IsPatternLine, Strip, lines)
  }

  /**
   * The `.gitignore` patterns are the pattern lines of the file, stripped, one each, in file order:
   * the k-th pattern is the k-th line that is neither blank nor a "#" line, and no pattern is empty.
   * The lines used are exactly the pattern lines, each once, in increasing order.
   */
  lemma GitignorePatternsAreSelection(lines: seq<string>)
    ensures |GitignorePatterns(lines)| == |KeptIndices(IsPatternLine, lines)| <= |lines|
    ensures forall k :: 0 <= k < |GitignorePatterns(lines)| ==>
      GitignorePatterns(lines)[k] == Strip(lines[KeptIndices(IsPatternLine, lines)[k]])
      && GitignorePatterns(lines)[k] != []
    ensures StrictlyIncreasing(KeptIndices(IsPatternLine, lines))
    ensures forall i :: 0 <= i < |lines| ==> (IsPatternLine(lines[i]) <==> i in KeptIndices(IsPatternLine, lines))
  {
    MapKeptIsSelection(IsPatternLine, Strip, lines);
    KeptIndicesExact(IsPatternLine, lines);
  }

  /** The caller's patterns, when there are any. */
  function CustomPart(custom: Option<seq<string>>): seq<string> {
    if custom.Some? && |custom.value| > 0 then custom.value else []
  }

  /** The `.gitignore` patterns, when the file exists. */
  function GitignorePart(gitignore: Option<seq<string>>): seq<string> {
    if gitignore.Some? then GitignorePatterns(gitignore.value) else []
  }

  /**
   * The full pattern list: the fourteen defaults in order, then the caller's patterns in order,
   * then the `.gitignore` patterns in file order. The later groups add to the defaults, never
   * replace them.
   */
  function IgnorePatterns(custom: Option<seq<string>>, gitignore: Option<seq<string>>): (r: seq<string>)
    ensures |DefaultIgnorePatterns| == 14
    ensures |r| == 14 + |CustomPart(custom)| + |GitignorePart(gitignore)|
    ensures r[..14] == DefaultIgnorePatterns
    ensures r[14..14 + |CustomPart(custom)|] == CustomPart(custom)
    ensures r[14 + |CustomPart(custom)|..] == GitignorePart(gitignore)
    ensures custom == None || custom == Some([]) ==> CustomPart(custom) == []
    ensures gitignore == None ==> GitignorePart(gitignore) == []
  {
    var r := DefaultIgnorePatterns + CustomPart(custom) + GitignorePart(gitignore);
    assert r[..14] == DefaultIgnorePatterns;
    assert r[14..14 + |CustomPart(custom)|] == CustomPart(custom);
    r
  }

  /**
   * A compiled ignore specification: the pattern list compiled with the gitwildmatch dialect.
   * The gitwildmatch semantics belong to a library outside this model, so the matcher is a
   * parameter: any function of the pattern list and the path.
   */
  datatype PathSpec = PathSpec(patterns: seq<string>, gitwildmatch: (seq<string>, string) -> bool) {
    /** Whether the compiled specification matches `path` (the library's `match_file`). */
    predicate MatchFile(path: string) {
      gitwildmatch(patterns, path)
    }
  }

  // ---------------------------------------------------------------------------
  // The directory tree
  // ---------------------------------------------------------------------------

  /** An entry of a directory: a file, or a subdirectory with its own entries. */
  datatype Entry = File(name: string) | Dir(name: string, children: seq<Entry>)

  /** What the root path names: nothing, something that is not a directory, or a directory. */
  datatype Root = Missing | NotADirectory | Directory(children: seq<Entry>)

  /** The not-found error, naming the root directory as the caller gave it. */
  datatype FindError = NotFound(path: string)

  /** Only names ending in ".py" or ".pyi" are candidates. */
  predicate IsPythonFileName(name: string) {
    EndsWith(name, ".py") || EndsWith(name, ".pyi")
  }

  /** The names of the files among `cs`, as `os.walk` lists them. */
  function FileNames(cs: seq<Entry>): (r: seq<string>)
    ensures forall n :: n in r <==> File(n) in cs
  {
    if cs == [] then []
    else
      assert forall e :: e in cs <==> e == cs[0] || e in cs[1..];
      (if cs[0].File? then [cs[0].name] else []) + FileNames(cs[1..])
  }

  function EntrySize(e: Entry): (n: nat)
    ensures n >= 1
  {
    match e
    case File(_) => 1
    case Dir(_, cs) => 1 + ChildrenSize(cs)
  }

  function ChildrenSize(cs: seq<Entry>): nat {
    if cs == [] then 0 else EntrySize(cs[0]) + ChildrenSize(cs[1..])
  }

  /**
   * One directory `os.walk` has still to visit: its path as joined from the root, the same
   * names joined from the empty path (its path relative to the root), and its entries.
   */
  datatype Frame = Frame(dirpath: string, reldir: string, children: seq<Entry>)

  function FrameSize(f: Frame): (n: nat)
    ensures n >= 1
  {
    1 + ChildrenSize(f.children)
  }

  function StackSize(fs: seq<Frame>): nat {
    if fs == [] then 0 else FrameSize(fs[0]) + StackSize(fs[1..])
  }

  lemma {:induction false} StackSizeAppend(a: seq<Frame>, b: seq<Frame>)
    ensures StackSize(a + b) == StackSize(a) + StackSize(b)
  {
    if a != [] {
      assert (a + b)[1..] == a[1..] + b;
      StackSizeAppend(a[1..], b);
    } else {
      assert a + b == b;
    }
  }

  /**
   * The pruning of the subdirectory list before descending: the subdirectories of `cs` whose
   * path joined to `dirpath` does not match, as frames to visit, kept in order.
   */
  function SubFrames(spec: PathSpec, dirpath: string, reldir: string, cs: seq<Entry>): (r: seq<Frame>)
    ensures StackSize(r) <= ChildrenSize(cs)
  {
    if cs == [] then []
    else
      var head := if cs[0].Dir? && !spec.MatchFile(Join(dirpath, cs[0].name))
        then [Frame(Join(dirpath, cs[0].name), Join(reldir, cs[0].name), cs[0].children)]
        else [];
      var rest := SubFrames(spec, dirpath, reldir, cs[1..]);
      StackSizeAppend(head, rest);
      head + rest
  }

  /** File `name` is collected: it is a candidate and its relative path does not match. */
  predicate Listed(spec: PathSpec, reldir: string, name: string) {
    IsPythonFileName(name) && !spec.MatchFile(Join(reldir, name))
  }

  /** The full paths of the files among `names` that are collected, in order. */
  function FilesHere(spec: PathSpec, dirpath: string, reldir: string, names: seq<string>): seq<string> {
    MapKept(n => Listed(spec, reldir, n), n => Join(dirpath, n), names)
  }

  /** Going one name further adds that name's full path when it is collected. */
  lemma FilesHereStep(spec: PathSpec, dirpath: string, reldir: string, names: seq<string>, i: int)
    requires 0 <= i < |names|
    ensures FilesHere(spec, dirpath, reldir, names[..i + 1])
      == FilesHere(spec, dirpath, reldir, names[..i])
        + (if Listed(spec, reldir, names[i]) then [Join(dirpath, names[i])] else [])
  {
    assert names[..i + 1][..i] == names[..i];
  }

  /** The files a top-down `os.walk` of frame `f` collects: those of `f` itself, then those below each kept subdirectory. */
  function Walk(spec: PathSpec, f: Frame): seq<string>
    decreases FrameSize(f), 0
  {
    FilesHere(spec, f.dirpath, f.reldir, FileNames(f.children))
      + WalkAll(spec, SubFrames(spec, f.dirpath, f.reldir, f.children))
  }

  /** The files collected from the frames `fs`, one after the other. */
  function WalkAll(spec: PathSpec, fs: seq<Frame>): seq<string>
    decreases StackSize(fs), 1
  {
    if fs == [] then [] else Walk(spec, fs[0]) + WalkAll(spec, fs[1..])
  }

  lemma {:induction false} WalkAllAppend(spec: PathSpec, a: seq<Frame>, b: seq<Frame>)
    ensures WalkAll(spec, a + b) == WalkAll(spec, a) + WalkAll(spec, b)
    decreases |a|
  {
    if a != [] {
      assert (a + b)[1..] == a[1..] + b;
      WalkAllAppend(spec, a[1..], b);
    } else {
      assert a + b == b;
    }
  }

  // ---------------------------------------------------------------------------
  // What the walk returns
  // ---------------------------------------------------------------------------

  /**
   * The names `comps` lead from the entries `cs` of directory `dirpath` to a file: every name but
   * the last is a subdirectory whose joined path does not match, and the last one is a file.
   */
  ghost predicate Reaches(spec: PathSpec, dirpath: string, cs: seq<Entry>, comps: seq<string>)
    decreases |comps|
  {
    if |comps| == 1 then File(comps[0]) in cs
    else
      && |comps| > 1
      && (exists i :: 0 <= i < |cs| && cs[i].Dir? && cs[i].name == comps[0]
           && !spec.MatchFile(Join(dirpath, comps[0]))
           && Reaches(spec, Join(dirpath, comps[0]), cs[i].children, comps[1..]))
  }

  /**
   * The walk from `f` returns `x` for the names `comps`: they reach a file through unpruned
   * directories, the file's name is a candidate, its relative path does not match, and `x` is
   * its full path.
   */
  ghost predicate Discovered(spec: PathSpec, f: Frame, comps: seq<string>, x: string) {
    && Reaches(spec, f.dirpath, f.children, comps)
    && |comps| >= 1
    && IsPythonFileName(comps[|comps| - 1])
    && !spec.MatchFile(JoinAll(f.reldir, comps))
    && x == JoinAll(f.dirpath, comps)
  }

  /** The file `name` of directory `dirpath` is listed, as `x`. */
  predicate ListedAs(spec: PathSpec, dirpath: string, reldir: string, name: string, x: string) {
    Listed(spec, reldir, name) && x == Join(dirpath, name)
  }

  /** The files collected in a directory are the full paths of its listed names. */
  lemma FilesHereMembers(spec: PathSpec, dirpath: string, reldir: string, names: seq<string>, x: string)
    ensures x in FilesHere(spec, dirpath, reldir, names) <==>
      exists i :: 0 <= i < |names| && ListedAs(spec, dirpath, reldir, names[i], x)
  {
    MapKeptMember(n => Listed(spec, reldir, n), n => Join(dirpath, n), names, x);
  }

  lemma {:induction false} SubFramesMembers(spec: PathSpec, dirpath: string, reldir: string, cs: seq<Entry>, g: Frame)
    ensures g in SubFrames(spec, dirpath, reldir, cs) <==>
      exists i :: 0 <= i < |cs| && cs[i].Dir? && !spec.MatchFile(Join(dirpath, cs[i].name))
        && g == Frame(Join(dirpath, cs[i].name), Join(reldir, cs[i].name), cs[i].children)
  {
    if cs != [] {
      SubFramesMembers(spec, dirpath, reldir, cs[1..], g);
      assert forall i :: 0 <= i < |cs| - 1 ==> cs[1..][i] == cs[i + 1];
      if g in SubFrames(spec, dirpath, reldir, cs[1..]) {
        var i :| 0 <= i < |cs| - 1 && cs[1..][i].Dir? && !spec.MatchFile(Join(dirpath, cs[1..][i].name))
          && g == Frame(Join(dirpath, cs[1..][i].name), Join(reldir, cs[1..][i].name), cs[1..][i].children);
        assert cs[i + 1] == cs[1..][i];
      }
    }
  }

  lemma {:induction false} WalkAllMembers(spec: PathSpec, fs: seq<Frame>, x: string)
    ensures x in WalkAll(spec, fs) <==> exists g :: g in fs && x in Walk(spec, g)
    decreases |fs|
  {
    if fs != [] {
      WalkAllMembers(spec, fs[1..], x);
      assert WalkAll(spec, fs) == Walk(spec, fs[0]) + WalkAll(spec, fs[1..]);
      assert forall g :: g in fs <==> g == fs[0] || g in fs[1..];
      if x in Walk(spec, fs[0]) {
        assert fs[0] in fs;
      }
    }
  }

  lemma {:induction false} FrameSizeInStack(fs: seq<Frame>, g: Frame)
    requires g in fs
    ensures FrameSize(g) <= StackSize(fs)
  {
    if fs[0] != g {
      FrameSizeInStack(fs[1..], g);
    }
  }

  /** A file listed in the frame's own directory is discovered through its name alone. */
  lemma DiscoveredHere(spec: PathSpec, f: Frame, n: string, x: string)
    requires n in FileNames(f.children) && ListedAs(spec, f.dirpath, f.reldir, n, x)
    ensures Discovered(spec, f, [n], x)
  {
    assert [n][1..] == [];
    assert JoinAll(f.reldir, [n]) == JoinAll(Join(f.reldir, n), []);
    assert JoinAll(f.dirpath, [n]) == JoinAll(Join(f.dirpath, n), []);
  }

  /** A file discovered below a kept subdirectory is discovered from its parent, one name further up. */
  lemma DiscoveredBelow(spec: PathSpec, f: Frame, i: int, x: string)
    requires KeptSubdir(spec, f, i) && exists rest :: Discovered(spec, SubFrameAt(f, i), rest, x)
    ensures exists comps :: Discovered(spec, f, comps, x)
  {
    var rest :| Discovered(spec, SubFrameAt(f, i), rest, x);
    var name := f.children[i].name;
    ReachesThrough(spec, f.dirpath, f.children, i, rest);
    JoinAllCons(f.reldir, name, rest);
    JoinAllCons(f.dirpath, name, rest);
    assert Discovered(spec, f, [name] + rest, x);
  }

  /** Joining a list of names that starts with `name` joins `name` first. */
  lemma JoinAllCons(base: string, name: string, rest: seq<string>)
    ensures JoinAll(base, [name] + rest) == JoinAll(Join(base, name), rest)
  {
    assert ([name] + rest)[1..] == rest;
  }

  /** Names that reach a file from an unpruned subdirectory reach it from its parent too. */
  lemma ReachesThrough(spec: PathSpec, dirpath: string, cs: seq<Entry>, i: int, rest: seq<string>)
    requires 0 <= i < |cs| && cs[i].Dir? && !spec.MatchFile(Join(dirpath, cs[i].name))
    requires Reaches(spec, Join(dirpath, cs[i].name), cs[i].children, rest) && |rest| >= 1
    ensures Reaches(spec, dirpath, cs, [cs[i].name] + rest)
  {
    var comps := [cs[i].name] + rest;
    assert comps[0] == cs[i].name && comps[1..] == rest;
  }

  /** Entry `i` of frame `f` is a subdirectory that the walk descends into. */
  predicate KeptSubdir(spec: PathSpec, f: Frame, i: int) {
    0 <= i < |f.children| && f.children[i].Dir? && !spec.MatchFile(Join(f.dirpath, f.children[i].name))
  }

  /** The frame the walk visits for entry `i` of `f`. */
  function SubFrameAt(f: Frame, i: int): Frame
    requires 0 <= i < |f.children| && f.children[i].Dir?
  {
    Frame(Join(f.dirpath, f.children[i].name), Join(f.reldir, f.children[i].name), f.children[i].children)
  }

  /** A path collected in the frame's own directory is discovered. */
  lemma FoundHere(spec: PathSpec, f: Frame, x: string)
    requires x in FilesHere(spec, f.dirpath, f.reldir, FileNames(f.children))
    ensures exists comps :: Discovered(spec, f, comps, x)
  {
    var names := FileNames(f.children);
    FilesHereMembers(spec, f.dirpath, f.reldir, names, x);
    var k :| 0 <= k < |names| && ListedAs(spec, f.dirpath, f.reldir, names[k], x);
    DiscoveredHere(spec, f, names[k], x);
  }

  /** A path found below `f` was found by the walk of one of its kept subdirectories, which is smaller. */
  lemma FoundBelow(spec: PathSpec, f: Frame, x: string)
    requires x in WalkAll(spec, SubFrames(spec, f.dirpath, f.reldir, f.children))
    ensures exists i :: (KeptSubdir(spec, f, i) && FrameSize(SubFrameAt(f, i)) < FrameSize(f)
      && x in Walk(spec, SubFrameAt(f, i)))
  {
    var subs := SubFrames(spec, f.dirpath, f.reldir, f.children);
    WalkAllMembers(spec, subs, x);
    var g :| g in subs && x in Walk(spec, g);
    SubFramesMembers(spec, f.dirpath, f.reldir, f.children, g);
    FrameSizeInStack(subs, g);
    var i :| 0 <= i < |f.children| && f.children[i].Dir? && !spec.MatchFile(Join(f.dirpath, f.children[i].name))
      && g == Frame(Join(f.dirpath, f.children[i].name), Join(f.reldir, f.children[i].name), f.children[i].children);
    assert KeptSubdir(spec, f, i) && g == SubFrameAt(f, i);
  }

  /** Every path the walk from `f` returns is discovered through some names. */
  lemma {:induction false} WalkSound(spec: PathSpec, f: Frame, x: string)
    requires x in Walk(spec, f)
    ensures exists comps :: Discovered(spec, f, comps, x)
    decreases FrameSize(f)
  {
    if x in FilesHere(spec, f.dirpath, f.reldir, FileNames(f.children)) {
      FoundHere(spec, f, x);
    } else {
      FoundBelow(spec, f, x);
      var i :| KeptSubdir(spec, f, i) && FrameSize(SubFrameAt(f, i)) < FrameSize(f) && x in Walk(spec, SubFrameAt(f, i));
      WalkSound(spec, SubFrameAt(f, i), x);
      DiscoveredBelow(spec, f, i, x);
    }
  }

  /** Every discovered path is returned by the walk from `f`. */
  lemma {:induction false} WalkComplete(spec: PathSpec, f: Frame, comps: seq<string>, x: string)
    requires Discovered(spec, f, comps, x)
    ensures x in Walk(spec, f)
    decreases FrameSize(f)
  {
    var dp, rd, cs := f.dirpath, f.reldir, f.children;
    var subs := SubFrames(spec, dp, rd, cs);
    if |comps| == 1 {
      assert comps[1..] == [];
      assert JoinAll(rd, comps) == JoinAll(Join(rd, comps[0]), []) == Join(rd, comps[0]);
      assert JoinAll(dp, comps) == JoinAll(Join(dp, comps[0]), []) == Join(dp, comps[0]);
      assert comps[0] in FileNames(cs);
      assert ListedAs(spec, dp, rd, comps[0], x);
      var names := FileNames(cs);
      var k :| 0 <= k < |names| && names[k] == comps[0];
      FilesHereMembers(spec, dp, rd, names, x);
    } else {
      var i :| 0 <= i < |cs| && cs[i].Dir? && cs[i].name == comps[0]
        && !spec.MatchFile(Join(dp, comps[0]))
        && Reaches(spec, Join(dp, comps[0]), cs[i].children, comps[1..]);
      var g := Frame(Join(dp, cs[i].name), Join(rd, cs[i].name), cs[i].children);
      SubFramesMembers(spec, dp, rd, cs, g);
      FrameSizeInStack(subs, g);
      assert Discovered(spec, g, comps[1..], x);
      WalkComplete(spec, g, comps[1..], x);
      WalkAllMembers(spec, subs, x);
    }
  }

  /**
   * The walk from `f` returns exactly the full paths of the candidate files that are reached
   * through unpruned directories and whose relative path does not match.
   */
  lemma WalkFindsExactly(spec: PathSpec, f: Frame, x: string)
    ensures x in Walk(spec, f) <==> exists comps :: Discovered(spec, f, comps, x)
  {
    if x in Walk(spec, f) {
      WalkSound(spec, f, x);
    }
    if comps :| Discovered(spec, f, comps, x) {
      WalkComplete(spec, f, comps, x);
    }
  }

  /** Replacing the entries of a subdirectory does not change the file names of a directory. */
  lemma {:induction false} FileNamesIgnoreSubdirectories(cs: seq<Entry>, i: nat, other: seq<Entry>)
    requires i < |cs| && cs[i].Dir?
    ensures FileNames(cs[i := Dir(cs[i].name, other)]) == FileNames(cs)
  {
    var cs' := cs[i := Dir(cs[i].name, other)];
    if i == 0 {
      assert cs'[1..] == cs[1..];
    } else {
      assert cs'[0] == cs[0];
      assert cs'[1..] == cs[1..][i - 1 := Dir(cs[i].name, other)];
      FileNamesIgnoreSubdirectories(cs[1..], i - 1, other);
    }
  }

  /** Replacing the entries of a pruned subdirectory does not change the subdirectories kept. */
  lemma {:induction false} SubFramesIgnorePruned(spec: PathSpec, dirpath: string, reldir: string, cs: seq<Entry>, i: nat, other: seq<Entry>)
    requires i < |cs| && cs[i].Dir? && spec.MatchFile(Join(dirpath, cs[i].name))
    ensures SubFrames(spec, dirpath, reldir, cs[i := Dir(cs[i].name, other)]) == SubFrames(spec, dirpath, reldir, cs)
  {
    var cs' := cs[i := Dir(cs[i].name, other)];
    if i == 0 {
      assert cs'[1..] == cs[1..];
    } else {
      assert cs'[0] == cs[0];
      assert cs'[1..] == cs[1..][i - 1 := Dir(cs[i].name, other)];
      SubFramesIgnorePruned(spec, dirpath, reldir, cs[1..], i - 1, other);
    }
  }

  /**
   * A subdirectory whose joined path matches is never entered: whatever it contains, the walk
   * returns the same files, so none of its descendants can appear.
   */
  lemma PrunedDirectoryNeverVisited(spec: PathSpec, f: Frame, i: nat, other: seq<Entry>)
    requires i < |f.children| && f.children[i].Dir? && spec.MatchFile(Join(f.dirpath, f.children[i].name))
    ensures Walk(spec, Frame(f.dirpath, f.reldir, f.children[i := Dir(f.children[i].name, other)])) == Walk(spec, f)
  {
    FileNamesIgnoreSubdirectories(f.children, i, other);
    SubFramesIgnorePruned(spec, f.dirpath, f.reldir, f.children, i, other);
  }

  lemma {:induction false} JoinAllEndsWithLast(base: string, comps: seq<string>)
    requires |comps| >= 1
    ensures EndsWith(JoinAll(base, comps), comps[|comps| - 1])
    decreases |comps|
  {
    if |comps| > 1 {
      JoinAllEndsWithLast(Join(base, comps[0]), comps[1..]);
    } else {
      JoinShape(base, comps[0]);
    }
  }

  /** Every path the walk returns ends in ".py" or ".pyi". */
  lemma WalkReturnsPythonFiles(spec: PathSpec, f: Frame, x: string)
    requires x in Walk(spec, f)
    ensures IsPythonFileName(x)
  {
    WalkSound(spec, f, x);
    var comps :| Discovered(spec, f, comps, x);
    var name := comps[|comps| - 1];
    JoinAllEndsWithLast(f.dirpath, comps);
    if EndsWith(name, ".py") {
      EndsWithTransitive(x, name, ".py");
    } else {
      EndsWithTransitive(x, name, ".pyi");
    }
  }

  /**
   * The sorted walk holds exactly the discovered paths, and each of them ends in ".py" or ".pyi".
   */
  lemma SortedWalkIsExactlyDiscovered(spec: PathSpec, f: Frame)
    ensures forall x :: x in SortStrings(Walk(spec, f)) ==> IsPythonFileName(x)
    ensures forall x :: x in SortStrings(Walk(spec, f)) <==> exists comps :: Discovered(spec, f, comps, x)
  {
    forall x ensures x in SortStrings(Walk(spec, f)) <==> x in Walk(spec, f) {
      SortKeepsMembers(Walk(spec, f), x);
    }
    forall x ensures x in Walk(spec, f) <==> exists comps :: Discovered(spec, f, comps, x) {
      WalkFindsExactly(spec, f, x);
    }
    forall x | x in Walk(spec, f) ensures IsPythonFileName(x) {
      WalkReturnsPythonFiles(spec, f, x);
    }
  }

  // ---------------------------------------------------------------------------
  // find_python_files
  // ---------------------------------------------------------------------------

  /**
   * A frame of a walk from `root`: the root itself, or a directory whose path is the root
   * prefix followed by its relative path.
   */
  predicate Rooted(root: string, f: Frame) {
    (f.dirpath == root && f.reldir == []) || f.dirpath == DirPrefix(root) + f.reldir
  }

  /** Below a rooted frame, a joined name is the root prefix followed by the name joined to the relative directory. */
  lemma JoinedBelowRoot(root: string, f: Frame, name: string)
    requires Rooted(root, f)
    ensures Join(f.dirpath, name) == DirPrefix(root) + Join(f.reldir, name)
  {
    var p := DirPrefix(root);
    if f.dirpath == root && f.reldir == [] {
      assert Join(f.dirpath, name) == p + Join(f.reldir, name);
    } else {
      JoinUnderPrefix(p, f.reldir, name);
    }
  }

  /** Below a rooted frame, `os.path.relpath` of a joined name is that name joined to the relative directory. */
  lemma RelPathBelowFrame(root: string, f: Frame, name: string)
    requires Rooted(root, f)
    ensures StartsWith(Join(f.dirpath, name), DirPrefix(root))
    ensures RelPath(Join(f.dirpath, name), root) == Join(f.reldir, name)
  {
    JoinedBelowRoot(root, f, name);
    var p := DirPrefix(root);
    assert (p + Join(f.reldir, name))[..|p|] == p;
    assert (p + Join(f.reldir, name))[|p|..] == Join(f.reldir, name);
  }

  /** The subdirectories of a rooted frame are rooted. */
  lemma {:induction false} SubFramesRooted(spec: PathSpec, root: string, f: Frame, cs: seq<Entry>)
    requires Rooted(root, f)
    ensures forall g :: g in SubFrames(spec, f.dirpath, f.reldir, cs) ==> Rooted(root, g)
  {
    if cs != [] {
      SubFramesRooted(spec, root, f, cs[1..]);
      JoinedBelowRoot(root, f, cs[0].name);
    }
  }

  /** Builds the pattern list by extending the defaults, as the source does. */
  method BuildIgnorePatterns(customIgnorePatterns: Option<seq<string>>, gitignore: Option<seq<string>>)
    returns (ignorePatterns: seq<string>)
    ensures ignorePatterns == IgnorePatterns(customIgnorePatterns, gitignore)
  {
    ignorePatterns := DefaultIgnorePatterns;
    if customIgnorePatterns.Some? && |customIgnorePatterns.value| > 0 {
      ignorePatterns := ignorePatterns + customIgnorePatterns.value;
    }
    if gitignore.Some? {
      ignorePatterns := ignorePatterns + GitignorePatterns(gitignore.value);
    }
  }

  /**
   * One turn of the file loop in a rooted frame: the relative path can be taken, and the file is
   * collected exactly when it is a candidate whose relative path does not match.
   */
  lemma CollectStep(spec: PathSpec, root: string, f: Frame, names: seq<string>, i: int)
    requires Rooted(root, f) && 0 <= i < |names|
    ensures StartsWith(Join(f.dirpath, names[i]), DirPrefix(root))
    ensures FilesHere(spec, f.dirpath, f.reldir, names[..i + 1])
      == FilesHere(spec, f.dirpath, f.reldir, names[..i])
        + (if IsPythonFileName(names[i]) && !spec.MatchFile(RelPath(Join(f.dirpath, names[i]), root))
           then [Join(f.dirpath, names[i])] else [])
  {
    FilesHereStep(spec, f.dirpath, f.reldir, names, i);
    RelPathBelowFrame(root, f, names[i]);
  }

  /**
   * The `for filename in filenames` loop for one directory of the walk: the full paths of the
   * candidate files whose path relative to the root does not match.
   */
  method CollectDirectoryFiles(spec: PathSpec, resolvedRoot: string, frame: Frame) returns (found: seq<string>)
    requires Rooted(resolvedRoot, frame)
    ensures found == FilesHere(spec, frame.dirpath, frame.reldir, FileNames(frame.children))
  {
    var filenames := FileNames(frame.children);
    found := [];
    for i := 0 to |filenames|
      invariant found == FilesHere(spec, frame.dirpath, frame.reldir, filenames[..i])
    {
      var filename := filenames[i];
      CollectStep(spec, resolvedRoot, frame, filenames, i);
      if IsPythonFileName(filename) {
        var fullPath := Join(frame.dirpath, filename);
        var relativePath := RelPath(fullPath, resolvedRoot);
        if !spec.MatchFile(relativePath) {
          found := found + [fullPath];
        }
      }
    }
    assert filenames[..|filenames|] == filenames;
  }

  /** Every frame of `fs` is rooted at `root`. */
  predicate AllRooted(root: string, fs: seq<Frame>) {
    forall g :: g in fs ==> Rooted(root, g)
  }

  /** Visiting the first pending frame collects its files, then the files below its kept subdirectories. */
  lemma WalkStep(spec: PathSpec, stack: seq<Frame>)
    requires stack != []
    ensures var f := stack[0];
      WalkAll(spec, stack) == FilesHere(spec, f.dirpath, f.reldir, FileNames(f.children))
        + WalkAll(spec, SubFrames(spec, f.dirpath, f.reldir, f.children) + stack[1..])
  {
    var f := stack[0];
    WalkAllAppend(spec, SubFrames(spec, f.dirpath, f.reldir, f.children), stack[1..]);
  }

  /** Replacing the first pending frame by its kept subdirectories makes the pending work smaller. */
  lemma WalkStepShrinks(spec: PathSpec, stack: seq<Frame>)
    requires stack != []
    ensures var f := stack[0];
      StackSize(SubFrames(spec, f.dirpath, f.reldir, f.children) + stack[1..]) < StackSize(stack)
  {
    var f := stack[0];
    StackSizeAppend(SubFrames(spec, f.dirpath, f.reldir, f.children), stack[1..]);
  }

  /** Replacing the first pending frame by its kept subdirectories keeps every frame rooted. */
  lemma WalkStepRooted(spec: PathSpec, root: string, stack: seq<Frame>)
    requires stack != [] && AllRooted(root, stack)
    ensures var f := stack[0];
      AllRooted(root, SubFrames(spec, f.dirpath, f.reldir, f.children) + stack[1..])
  {
    var f := stack[0];
    SubFramesRooted(spec, root, f, f.children);
    assert forall g :: g in stack[1..] ==> g in stack;
  }

  /**
   * The `os.walk` loop: visits directories top-down from the root, skipping the subdirectories
   * whose joined path matches before descending, and collects the files of each visited one.
   */
  method WalkPythonFiles(spec: PathSpec, resolvedRoot: string, children: seq<Entry>) returns (pythonFiles: seq<string>)
    ensures pythonFiles == Walk(spec, Frame(resolvedRoot, [], children))
  {
    var top := Frame(resolvedRoot, [], children);
    var stack := [top];
    pythonFiles := [];
    assert WalkAll(spec, stack) == Walk(spec, top) + WalkAll(spec, []);
    while stack != []
      invariant AllRooted(resolvedRoot, stack)
      invariant pythonFiles + WalkAll(spec, stack) == Walk(spec, top)
      decreases StackSize(stack)
    {
      var frame := stack[0];
      assert frame in stack;
      var dirnames := SubFrames(spec, frame.dirpath, frame.reldir, frame.children);
      var found := CollectDirectoryFiles(spec, resolvedRoot, frame);
      WalkStep(spec, stack);
      WalkStepShrinks(spec, stack);
      WalkStepRooted(spec, resolvedRoot, stack);
      ConcatAssociative(pythonFiles, found, WalkAll(spec, dirnames + stack[1..]));
      pythonFiles := pythonFiles + found;
      stack := dirnames + stack[1..];
    }
  }

  /**
   * `find_python_files(root_dir, custom_ignore_patterns)`. `resolvedRoot` is the resolved root
   * path, `root` what it names, `gitignore` the lines of `root/.gitignore` when that file exists,
   * and `gitwildmatch` the pattern matcher. A missing root fails before anything is read; otherwise
   * the result is the sorted list of the files the pruned walk collects.
   */
  method FindPythonFiles(
    rootDir: string,
    resolvedRoot: string,
    root: Root,
    customIgnorePatterns: Option<seq<string>>,
    gitignore: Option<seq<string>>,
    gitwildmatch: (seq<string>, string) -> bool)
    returns (r: Result<seq<string>, FindError>)
    ensures root.Missing? <==> r.Failure?
    ensures root.Missing? ==> r == Failure(NotFound(rootDir))
    ensures root.NotADirectory? ==> r == Success([])
    ensures root.Directory? ==> r == Success(SortStrings(Walk(
      PathSpec(IgnorePatterns(customIgnorePatterns, gitignore), gitwildmatch),
      Frame(resolvedRoot, [], root.children))))
    ensures r.Success? ==> Sorted(r.value)
    ensures r.Success? ==> forall x :: x in r.value ==> IsPythonFileName(x)
    ensures root.Directory? ==> forall x :: x in r.value <==> exists comps :: Discovered(
      PathSpec(IgnorePatterns(customIgnorePatterns, gitignore), gitwildmatch),
      Frame(resolvedRoot, [], root.children), comps, x)
  {
    if root.Missing? {
      return Failure(NotFound(rootDir));
    }
    var ignorePatterns := BuildIgnorePatterns(customIgnorePatterns, gitignore);
    var spec := PathSpec(ignorePatterns, gitwildmatch);
    var pythonFiles: seq<string> := [];
    if root.Directory? {
      pythonFiles := WalkPythonFiles(spec, resolvedRoot, root.children);
      SortedWalkIsExactlyDiscovered(spec, Frame(resolvedRoot, [], root.children));
    }
    var sorted := SortStrings(pythonFiles);
    return Success(sorted);
  }
}

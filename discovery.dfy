/** Which files a run works on: the directory walk with its ignore
    patterns, or the single selected file. */
module Discovery {
  import opened Chars
  import opened Binary
  import opened Glob

  /** The extensions the tool processes. */
  const SupportedExtensions: seq<string> := [
    ".py", ".c", ".h", ".html", ".css", ".scss", ".less", ".js", ".jsx", ".ts", ".tsx",
    ".php", ".cs", ".cpp", ".java", ".json", ".xml", ".yaml", ".yml", ".md"
  ]

  // ---------------------------------------------------------------------
  // `os.path.splitext(p)[1].lower()`

  /** Index of the last `c` in `s`, or -1. */
  function LastIndexOf(s: string, c: char): (r: int)
    ensures -1 <= r < |s|
    ensures r >= 0 ==> s[r] == c
    decreases |s|
  {
    if s == [] then -1
    else if s[|s| - 1] == c then |s| - 1
    else LastIndexOf(s[..|s| - 1], c)
  }

  /** The extension of one path component: from its last '.', unless
      only dots precede that '.' (".bashrc" has no extension). */
  function NameExt(n: string): (e: string)
    ensures e == [] || (e[0] == '.' && '.' !in e[1..])
    ensures |e| <= |n| && n[|n| - |e|..] == e
  {
    var dot := LastIndexOf(n, '.');
    if exists k :: 0 <= k < dot && n[k] != '.' then
      LastIndexAfter(n, '.');
      assert forall k :: 0 <= k < |n[dot..]| - 1 ==> n[dot..][1..][k] == n[dot + 1 + k];
      n[dot..]
    else ""
  }

  lemma {:induction false} LastIndexAfter(s: string, c: char)
    ensures forall k :: LastIndexOf(s, c) < k < |s| ==> s[k] != c
    decreases |s|
  {
    if s != [] && s[|s| - 1] != c {
      LastIndexAfter(s[..|s| - 1], c);
    }
  }

  /** `os.path.splitext(p)[1]` with '/' as separator: the extension of
      the last component. */
  function ExtSuffix(p: string): string
  {
    NameExt(p[LastIndexOf(p, '/') + 1..])
  }

  /** The extension the tool compares, lower-cased. */
  function Ext(p: string): string
  {
    LowerStr(ExtSuffix(p))
  }

  lemma {:induction false} LastIndexAppend(a: string, b: string, c: char)
    ensures LastIndexOf(a + b, c) ==
            if LastIndexOf(b, c) >= 0 then |a| + LastIndexOf(b, c) else LastIndexOf(a, c)
    decreases |b|
  {
    if b == [] {
      assert a + b == a;
    } else {
      var ab := a + b;
      assert ab[..|ab| - 1] == a + b[..|b| - 1];
      if b[|b| - 1] != c {
        LastIndexAppend(a, b[..|b| - 1], c);
      }
    }
  }

  /** `os.path.join(a, b)` for a `b` that does not start with '/': a '/'
      goes between them unless `a` is empty or already ends in one. */
  function PathJoin(a: string, b: string): string
  {
    if a == [] || a[|a| - 1] == '/' then a + b else a + "/" + b
  }

  /** The extension of a path joined from a directory and a file name is
      the file name's: the directory's dots never count. */
  lemma ExtOfJoin(dir: string, name: string)
    requires '/' !in name
    ensures Ext(PathJoin(dir, name)) == Ext(name)
  {
    LastComponentOfJoin(dir, name);
    assert name[LastIndexOf(name, '/') + 1..] == name;
  }

  lemma LastComponentOfJoin(dir: string, name: string)
    requires '/' !in name
    ensures var p := PathJoin(dir, name);
            LastIndexOf(name, '/') == -1 && p[LastIndexOf(p, '/') + 1..] == name
  {
    if dir == [] || dir[|dir| - 1] == '/' {
      LastComponentAfter(dir, name);
    } else {
      LastComponentAfter(dir + "/", name);
      assert PathJoin(dir, name) == (dir + "/") + name;
    }
  }

  lemma {:induction false} LastIndexAbsent(s: string, c: char)
    requires c !in s
    ensures LastIndexOf(s, c) == -1
    decreases |s|
  {
    if s != [] {
      assert s[..|s| - 1] <= s;
      LastIndexAbsent(s[..|s| - 1], c);
    }
  }

  /** Appending a name without '/' to a text that is empty or ends in '/'
      makes the name the last component. */
  lemma LastComponentAfter(dir: string, name: string)
    requires '/' !in name && (dir == [] || dir[|dir| - 1] == '/')
    ensures var p := dir + name;
            LastIndexOf(name, '/') == -1 && p[LastIndexOf(p, '/') + 1..] == name
  {
    LastIndexAppend(dir, name, '/');
    LastIndexAbsent(name, '/');
    if dir == [] {
      assert dir + name == name;
    }
  }

  /** A name that starts with its only dot has no extension. */
  lemma DotFileHasNoExt()
    ensures Ext(".py") == ""
  {
    assert ".py"[..2] == ".p" && ".p"[..1] == "." && "."[..0] == "";
    assert LastIndexOf(".p", '/') == -1;
    assert LastIndexOf(".py", '/') == -1;
    assert ".py"[0..] == ".py";
    assert LastIndexOf(".py", '.') == 0;
    assert NameExt(".py") == "";
  }

  /** The extension is compared in lower case. */
  lemma ExtIsLowered()
    ensures Ext("main.PY") == ".py"
  {
    var p := "main.PY";
    assert p[..6] == "main.P" && p[..5] == "main.";
    assert LastIndexOf("main.", '.') == 4;
    assert LastIndexOf("main.P", '.') == 4;
    assert LastIndexOf(p, '.') == 4 && p[0] != '.';
    NoSlash(p);
    assert p[0..] == p;
    assert NameExt(p) == ".PY";
    assert LowerStr(".PY") == ".py";
  }

  lemma NoSlash(p: string)
    requires '/' !in p
    ensures LastIndexOf(p, '/') == -1
  {
  }

  /** Two extensions have a comment family but are not processed, so their
      comment rules never run. */
  lemma UnprocessedCStyleExtensions()
    ensures ".hpp" !in SupportedExtensions && ".m" !in SupportedExtensions
  {
  }

  // ---------------------------------------------------------------------
  // Ignore patterns

  predicate EndsWithSep(p: string)
  {
    |p| > 0 && (p[|p| - 1] == '/' || p[|p| - 1] == '\\')
  }

  /** The pattern with every '/' and '\' deleted. */
  function DropSeps(p: string): (r: string)
    ensures '/' !in r && '\\' !in r
  {
    if p == [] then ""
    else (if p[0] == '/' || p[0] == '\\' then "" else [p[0]]) + DropSeps(p[1..])
  }

  /** Patterns ending in a separator name directories, with the separators
      removed; the others are file-name globs. Both keep their order. */
  function DirNames(ignore: seq<string>): (r: seq<string>)
    ensures forall k :: 0 <= k < |r| ==> '/' !in r[k]
  {
    if ignore == [] then []
    else (if EndsWithSep(ignore[0]) then [DropSeps(ignore[0])] else []) + DirNames(ignore[1..])
  }

  function FileGlobs(ignore: seq<string>): (r: seq<string>)
    ensures forall g :: g in r ==> g in ignore && !EndsWithSep(g)
  {
    if ignore == [] then []
    else (if EndsWithSep(ignore[0]) then [] else [ignore[0]]) + FileGlobs(ignore[1..])
  }

  /** Every pattern goes to exactly one of the two lists. */
  lemma {:induction false} SplitIgnoreCounts(ignore: seq<string>)
    ensures |DirNames(ignore)| + |FileGlobs(ignore)| == |ignore|
    ensures forall p :: p in ignore && EndsWithSep(p) ==> DropSeps(p) in DirNames(ignore)
    ensures forall p :: p in ignore && !EndsWithSep(p) ==> p in FileGlobs(ignore)
  {
    if ignore != [] {
      SplitIgnoreCounts(ignore[1..]);
      assert forall p :: p in ignore ==> p == ignore[0] || p in ignore[1..];
    }
  }

  // ---------------------------------------------------------------------
  // The directory tree and `os.walk`

  /** A file as the walk finds it: its name, the outcome of reading its
      first bytes for the binary test, and the outcome of reading it as
      text (`None`: the read failed). */
  datatype FileEntry = FileEntry(name: string, bytes: Option<seq<byte>>, text: Option<string>)

  /** A directory: its files and sub-directories in listing order. */
  datatype Dir = Dir(name: string, files: seq<FileEntry>, subdirs: seq<Dir>)

  /** A file reached by the walk, with the directory names leading to it
      from the selected directory. */
  datatype Located = Located(dirs: seq<string>, entry: FileEntry)

  /** The files of `d` in the order a top-down `os.walk` visits them, when
      the sub-directories named in `pruned` are removed from every listing
      before the walk descends: `d`'s own files, then each kept
      sub-directory in turn. */
  function Walk(d: Dir, dirs: seq<string>, pruned: seq<string>): seq<Located>
    decreases d, 1
  {
    Here(d, dirs) + WalkSubdirs(d, dirs, pruned, |d.subdirs|)
  }

  /** The walk of the first `n` sub-directories of `d`. */
  function WalkSubdirs(d: Dir, dirs: seq<string>, pruned: seq<string>, n: nat): seq<Located>
    requires n <= |d.subdirs|
    decreases d, 0, n
  {
    if n == 0 then []
    else
      var sub := d.subdirs[n - 1];
      WalkSubdirs(d, dirs, pruned, n - 1) +
      (if sub.name in pruned then [] else Walk(sub, dirs + [sub.name], pruned))
  }

  function Here(d: Dir, dirs: seq<string>): (r: seq<Located>)
    ensures |r| == |d.files|
    ensures forall k :: 0 <= k < |r| ==> r[k] == Located(dirs, d.files[k])
  {
    seq(|d.files|, k requires 0 <= k < |d.files| => Located(dirs, d.files[k]))
  }

  predicate InsideIgnoredDir(loc: Located, dirNames: seq<string>)
  {
    exists k :: 0 <= k < |loc.dirs| && loc.dirs[k] in dirNames
  }

  predicate MatchesAnyGlob(name: string, globs: seq<string>)
  {
    exists g :: g in globs && FnMatch(name, g)
  }

  /** The four tests a walked file must pass to be processed. */
  predicate Candidate(loc: Located, dirNames: seq<string>, globs: seq<string>)
  {
    !InsideIgnoredDir(loc, dirNames) && !MatchesAnyGlob(loc.entry.name, globs) &&
    Ext(loc.entry.name) in SupportedExtensions && !IsLikelyBinary(loc.entry.bytes)
  }

  /** The candidates among `ls`, in order. */
  function Select(ls: seq<Located>, dirNames: seq<string>, globs: seq<string>): (r: seq<Located>)
    ensures |r| <= |ls|
    decreases |ls|
  {
    if ls == [] then []
    else
      var last := ls[|ls| - 1];
      Select(ls[..|ls| - 1], dirNames, globs) +
      (if Candidate(last, dirNames, globs) then [last] else [])
  }

  lemma {:induction false} SelectAppend(a: seq<Located>, b: seq<Located>, dirNames: seq<string>, globs: seq<string>)
    ensures Select(a + b, dirNames, globs) == Select(a, dirNames, globs) + Select(b, dirNames, globs)
    decreases |b|
  {
    if b == [] {
      assert a + b == a;
    } else {
      var b' := b[..|b| - 1];
      assert (a + b)[..|a + b| - 1] == a + b';
      SelectAppend(a, b', dirNames, globs);
    }
  }

  lemma SelectCandidate(ls: seq<Located>, x: Located, dirNames: seq<string>, globs: seq<string>)
    ensures Select(ls + [x], dirNames, globs) ==
            Select(ls, dirNames, globs) + (if Candidate(x, dirNames, globs) then [x] else [])
  {
    assert (ls + [x])[..|ls|] == ls;
  }

  /** Every file the walk reaches lies outside the pruned directories, so
      the per-file directory test never rejects anything. */
  lemma {:induction false} WalkOutsidePruned(d: Dir, dirs: seq<string>, pruned: seq<string>)
    requires forall k :: 0 <= k < |dirs| ==> dirs[k] !in pruned
    ensures forall x :: x in Walk(d, dirs, pruned) ==> !InsideIgnoredDir(x, pruned)
    decreases d, 1
  {
    WalkSubdirsOutsidePruned(d, dirs, pruned, |d.subdirs|);
    InAppend(Here(d, dirs), WalkSubdirs(d, dirs, pruned, |d.subdirs|));
  }

  lemma {:induction false} WalkSubdirsOutsidePruned(d: Dir, dirs: seq<string>, pruned: seq<string>, n: nat)
    requires n <= |d.subdirs|
    requires forall k :: 0 <= k < |dirs| ==> dirs[k] !in pruned
    ensures forall x :: x in WalkSubdirs(d, dirs, pruned, n) ==> !InsideIgnoredDir(x, pruned)
    decreases d, 0, n
  {
    if n > 0 {
      WalkSubdirsOutsidePruned(d, dirs, pruned, n - 1);
      var sub := d.subdirs[n - 1];
      if sub.name !in pruned {
        var dirs' := dirs + [sub.name];
        assert forall k :: 0 <= k < |dirs'| ==> dirs'[k] == if k < |dirs| then dirs[k] else sub.name;
        WalkOutsidePruned(sub, dirs', pruned);
      }
    }
  }

  lemma InAppend(a: seq<Located>, b: seq<Located>)
    ensures forall x :: x in a + b <==> x in a || x in b
  {
  }

  /** The files under the selected directory that are not below a
      directory named in `pruned`: pruning removes exactly those. */
  function Outside(ls: seq<Located>, pruned: seq<string>): (r: seq<Located>)
    decreases |ls|
  {
    if ls == [] then []
    else (if InsideIgnoredDir(ls[0], pruned) then [] else [ls[0]]) + Outside(ls[1..], pruned)
  }

  /** `Outside` keeps exactly the files under no pruned directory. */
  lemma {:induction false} OutsideMembers(ls: seq<Located>, pruned: seq<string>)
    ensures forall x :: x in Outside(ls, pruned) <==> x in ls && !InsideIgnoredDir(x, pruned)
    decreases |ls|
  {
    if ls != [] {
      OutsideMembers(ls[1..], pruned);
      assert ls == [ls[0]] + ls[1..];
    }
  }

  lemma {:induction false} OutsideAppend(a: seq<Located>, b: seq<Located>, pruned: seq<string>)
    ensures Outside(a + b, pruned) == Outside(a, pruned) + Outside(b, pruned)
    decreases |a|
  {
    if a != [] {
      assert (a + b)[0] == a[0] && (a + b)[1..] == a[1..] + b;
      OutsideAppend(a[1..], b, pruned);
    } else {
      assert a + b == b;
    }
  }

  /** Every file below a directory whose name is pruned is inside it. */
  lemma {:induction false} OutsideEmpty(ls: seq<Located>, pruned: seq<string>)
    requires forall x :: x in ls ==> InsideIgnoredDir(x, pruned)
    ensures Outside(ls, pruned) == []
    decreases |ls|
  {
    if ls != [] {
      assert forall x :: x in ls[1..] ==> x in ls;
      OutsideEmpty(ls[1..], pruned);
    }
  }

  /** Files of a sub-tree reached through `dirs` carry `dirs` as prefix. */
  lemma {:induction false} WalkUnder(d: Dir, dirs: seq<string>, pruned: seq<string>)
    ensures forall x :: x in Walk(d, dirs, pruned) ==> |dirs| <= |x.dirs| && x.dirs[..|dirs|] == dirs
    decreases d, 1
  {
    WalkSubdirsUnder(d, dirs, pruned, |d.subdirs|);
    InAppend(Here(d, dirs), WalkSubdirs(d, dirs, pruned, |d.subdirs|));
  }

  lemma {:induction false} WalkSubdirsUnder(d: Dir, dirs: seq<string>, pruned: seq<string>, n: nat)
    requires n <= |d.subdirs|
    ensures forall x :: x in WalkSubdirs(d, dirs, pruned, n) ==> |dirs| <= |x.dirs| && x.dirs[..|dirs|] == dirs
    decreases d, 0, n
  {
    if n > 0 {
      WalkSubdirsUnder(d, dirs, pruned, n - 1);
      var sub := d.subdirs[n - 1];
      if sub.name !in pruned {
        WalkUnder(sub, dirs + [sub.name], pruned);
        forall x | x in Walk(sub, dirs + [sub.name], pruned) ensures x.dirs[..|dirs|] == dirs {
          assert x.dirs[..|dirs|] == x.dirs[..|dirs| + 1][..|dirs|];
        }
      }
    }
  }

  /** Pruning during the walk reaches exactly the files of the full walk
      that lie outside every pruned directory, in the same order. */
  lemma {:induction false} WalkIsPrunedFullWalk(d: Dir, dirs: seq<string>, pruned: seq<string>)
    requires forall k :: 0 <= k < |dirs| ==> dirs[k] !in pruned
    ensures Walk(d, dirs, pruned) == Outside(Walk(d, dirs, []), pruned)
    decreases d, 1
  {
    OutsideHere(d, dirs, pruned);
    WalkSubdirsPruned(d, dirs, pruned, |d.subdirs|);
    OutsideAppend(Here(d, dirs), WalkSubdirs(d, dirs, [], |d.subdirs|), pruned);
  }

  lemma OutsideHere(d: Dir, dirs: seq<string>, pruned: seq<string>)
    requires forall k :: 0 <= k < |dirs| ==> dirs[k] !in pruned
    ensures Outside(Here(d, dirs), pruned) == Here(d, dirs)
  {
    OutsideKeeps(Here(d, dirs), pruned);
  }

  lemma {:induction false} OutsideKeeps(ls: seq<Located>, pruned: seq<string>)
    requires forall x :: x in ls ==> !InsideIgnoredDir(x, pruned)
    ensures Outside(ls, pruned) == ls
    decreases |ls|
  {
    if ls != [] {
      assert forall x :: x in ls[1..] ==> x in ls;
      OutsideKeeps(ls[1..], pruned);
      assert ls == [ls[0]] + ls[1..];
    }
  }

  lemma {:induction false} WalkSubdirsPruned(d: Dir, dirs: seq<string>, pruned: seq<string>, n: nat)
    requires n <= |d.subdirs|
    requires forall k :: 0 <= k < |dirs| ==> dirs[k] !in pruned
    ensures WalkSubdirs(d, dirs, pruned, n) == Outside(WalkSubdirs(d, dirs, [], n), pruned)
    decreases d, 0, n, 1
  {
    if n > 0 {
      WalkSubdirsPruned(d, dirs, pruned, n - 1);
      PrunedStep(d, dirs, pruned, n);
    }
  }

  lemma {:induction false} PrunedStep(d: Dir, dirs: seq<string>, pruned: seq<string>, n: nat)
    requires 0 < n <= |d.subdirs|
    requires forall k :: 0 <= k < |dirs| ==> dirs[k] !in pruned
    ensures WalkSubdirs(d, dirs, pruned, n - 1) == Outside(WalkSubdirs(d, dirs, [], n - 1), pruned) ==>
            WalkSubdirs(d, dirs, pruned, n) == Outside(WalkSubdirs(d, dirs, [], n), pruned)
    decreases d, 0, n, 0
  {
    if d.subdirs[n - 1].name in pruned {
      PrunedSkipStep(d, dirs, pruned, n);
    } else {
      PrunedKeepStep(d, dirs, pruned, n);
    }
  }

  /** A pruned sub-directory adds nothing to either side. */
  lemma PrunedSkipStep(d: Dir, dirs: seq<string>, pruned: seq<string>, n: nat)
    requires 0 < n <= |d.subdirs| && d.subdirs[n - 1].name in pruned
    ensures WalkSubdirs(d, dirs, pruned, n - 1) == Outside(WalkSubdirs(d, dirs, [], n - 1), pruned) ==>
            WalkSubdirs(d, dirs, pruned, n) == Outside(WalkSubdirs(d, dirs, [], n), pruned)
  {
    var sub := d.subdirs[n - 1];
    PrunedSubtreeVanishes(sub, dirs, pruned);
    var before, full := WalkSubdirs(d, dirs, [], n - 1), Walk(sub, dirs + [sub.name], []);
    assert WalkSubdirs(d, dirs, [], n) == before + full;
    OutsideAppend(before, full, pruned);
    assert WalkSubdirs(d, dirs, pruned, n) == WalkSubdirs(d, dirs, pruned, n - 1) + [];
  }

  /** A kept sub-directory adds its pruned walk, which is the part of its
      full walk outside the pruned directories. */
  lemma {:induction false} PrunedKeepStep(d: Dir, dirs: seq<string>, pruned: seq<string>, n: nat)
    requires 0 < n <= |d.subdirs| && d.subdirs[n - 1].name !in pruned
    requires forall k :: 0 <= k < |dirs| ==> dirs[k] !in pruned
    ensures WalkSubdirs(d, dirs, pruned, n - 1) == Outside(WalkSubdirs(d, dirs, [], n - 1), pruned) ==>
            WalkSubdirs(d, dirs, pruned, n) == Outside(WalkSubdirs(d, dirs, [], n), pruned)
    decreases d, 0, n - 1
  {
    var sub := d.subdirs[n - 1];
    DescendOutside(dirs, sub.name, pruned);
    WalkIsPrunedFullWalk(sub, dirs + [sub.name], pruned);
    var before, full := WalkSubdirs(d, dirs, [], n - 1), Walk(sub, dirs + [sub.name], []);
    assert WalkSubdirs(d, dirs, [], n) == before + full;
    OutsideAppend(before, full, pruned);
    assert WalkSubdirs(d, dirs, pruned, n) == WalkSubdirs(d, dirs, pruned, n - 1) + Walk(sub, dirs + [sub.name], pruned);
  }

  lemma DescendOutside(dirs: seq<string>, name: string, pruned: seq<string>)
    requires forall k :: 0 <= k < |dirs| ==> dirs[k] !in pruned
    requires name !in pruned
    ensures forall k :: 0 <= k < |dirs + [name]| ==> (dirs + [name])[k] !in pruned
  {
    assert forall k :: 0 <= k < |dirs + [name]| ==> (dirs + [name])[k] == if k < |dirs| then dirs[k] else name;
  }

  /** Every file below a pruned directory lies inside it. */
  lemma PrunedSubtreeVanishes(sub: Dir, dirs: seq<string>, pruned: seq<string>)
    requires sub.name in pruned
    ensures Outside(Walk(sub, dirs + [sub.name], []), pruned) == []
  {
    var dirs' := dirs + [sub.name];
    WalkUnder(sub, dirs', []);
    forall x | x in Walk(sub, dirs', []) ensures InsideIgnoredDir(x, pruned) {
      assert x.dirs[|dirs|] == x.dirs[..|dirs'|][|dirs|] == sub.name;
    }
    OutsideEmpty(Walk(sub, dirs', []), pruned);
  }

  // ---------------------------------------------------------------------
  // The selection

  /** What the selected path turned out to be. */
  datatype Target =
    | DirTarget(root: string, tree: Dir)
    | FileTarget(path: string, bytes: Option<seq<byte>>, text: Option<string>)
    | Missing

  /** A file the worker will process: its path and the outcome of reading
      it as text. */
  datatype Job = Job(path: string, text: Option<string>)

  /** The outcome of discovery: the files to process and the number of
      files looked at, or an invalid single-file selection. */
  datatype Discovered = Found(jobs: seq<Job>, checked: nat) | InvalidSelection

  /** The `root` that `os.walk` yields for a directory: the selected
      directory joined with each directory name in turn. */
  function DirPath(root: string, dirs: seq<string>): string
    decreases |dirs|
  {
    if dirs == [] then root else DirPath(PathJoin(root, dirs[0]), dirs[1..])
  }

  /** The path of a walked file, as `os.path.join(root, file)` spells it. */
  function JoinPath(root: string, dirs: seq<string>, name: string): string
  {
    PathJoin(DirPath(root, dirs), name)
  }

  function Jobs(root: string, ls: seq<Located>): (r: seq<Job>)
    ensures |r| == |ls|
    ensures forall k :: 0 <= k < |ls| ==> r[k] == Job(JoinPath(root, ls[k].dirs, ls[k].entry.name), ls[k].entry.text)
  {
    seq(|ls|, k requires 0 <= k < |ls| => Job(JoinPath(root, ls[k].dirs, ls[k].entry.name), ls[k].entry.text))
  }

  /** The walk loop of the worker on one directory: count every file
      listed, keep the candidates, then descend into the sub-directories
      that are not pruned. */
  method WalkDir(d: Dir, dirs: seq<string>, dirNames: seq<string>, globs: seq<string>)
    returns (found: seq<Located>, checked: nat)
    ensures found == Select(Walk(d, dirs, dirNames), dirNames, globs)
    ensures checked == |Walk(d, dirs, dirNames)|
    decreases d, 2
  {
    var here, hereCount := ScanFiles(d, dirs, dirNames, globs);
    var below, belowCount := WalkSubdirsOf(d, dirs, dirNames, globs);
    SelectAppend(Here(d, dirs), WalkSubdirs(d, dirs, dirNames, |d.subdirs|), dirNames, globs);
    found, checked := here + below, hereCount + belowCount;
  }

  /** The descent into the sub-directories of one directory, in order,
      skipping the pruned ones. */
  method WalkSubdirsOf(d: Dir, dirs: seq<string>, dirNames: seq<string>, globs: seq<string>)
    returns (below: seq<Located>, belowCount: nat)
    ensures below == Select(WalkSubdirs(d, dirs, dirNames, |d.subdirs|), dirNames, globs)
    ensures belowCount == |WalkSubdirs(d, dirs, dirNames, |d.subdirs|)|
    decreases d, 1
  {
    below, belowCount := [], 0;
    var j := 0;
    while j < |d.subdirs|
      invariant 0 <= j <= |d.subdirs|
      invariant below == Select(WalkSubdirs(d, dirs, dirNames, j), dirNames, globs)
      invariant belowCount == |WalkSubdirs(d, dirs, dirNames, j)|
    {
      below, belowCount := VisitSubdir(d, dirs, dirNames, globs, j, below, belowCount);
      j := j + 1;
    }
  }

  /** One pass of the descent: walk the `j`-th sub-directory unless it is
      pruned. */
  method VisitSubdir(d: Dir, dirs: seq<string>, dirNames: seq<string>, globs: seq<string>, j: nat,
                     below: seq<Located>, belowCount: nat)
    returns (below': seq<Located>, belowCount': nat)
    requires j < |d.subdirs|
    requires below == Select(WalkSubdirs(d, dirs, dirNames, j), dirNames, globs)
    requires belowCount == |WalkSubdirs(d, dirs, dirNames, j)|
    ensures below' == Select(WalkSubdirs(d, dirs, dirNames, j + 1), dirNames, globs)
    ensures belowCount' == |WalkSubdirs(d, dirs, dirNames, j + 1)|
    decreases d, 0
  {
    var sub := d.subdirs[j];
    if sub.name !in dirNames {
      var more, n := WalkDir(sub, dirs + [sub.name], dirNames, globs);
      DescendStep(d, dirs, dirNames, globs, j);
      below', belowCount' := below + more, belowCount + n;
    } else {
      SkipStep(d, dirs, dirNames, j);
      below', belowCount' := below, belowCount;
    }
  }

  /** The file loop of one directory. */
  method ScanFiles(d: Dir, dirs: seq<string>, dirNames: seq<string>, globs: seq<string>)
    returns (found: seq<Located>, checked: nat)
    ensures found == Select(Here(d, dirs), dirNames, globs)
    ensures checked == |d.files|
  {
    found, checked := [], 0;
    var i := 0;
    while i < |d.files|
      invariant 0 <= i <= |d.files|
      invariant found == Select(Here(d, dirs)[..i], dirNames, globs)
      invariant checked == i
    {
      var loc := Located(dirs, d.files[i]);
      checked := checked + 1;
      assert Here(d, dirs)[..i + 1] == Here(d, dirs)[..i] + [loc];
      SelectCandidate(Here(d, dirs)[..i], loc, dirNames, globs);
      if Candidate(loc, dirNames, globs) {
        found := found + [loc];
      }
      i := i + 1;
    }
    assert Here(d, dirs)[..i] == Here(d, dirs);
  }

  lemma DescendStep(d: Dir, dirs: seq<string>, dirNames: seq<string>, globs: seq<string>, j: nat)
    requires j < |d.subdirs| && d.subdirs[j].name !in dirNames
    ensures var sub := d.subdirs[j];
            Select(WalkSubdirs(d, dirs, dirNames, j + 1), dirNames, globs) ==
            Select(WalkSubdirs(d, dirs, dirNames, j), dirNames, globs) +
            Select(Walk(sub, dirs + [sub.name], dirNames), dirNames, globs) &&
            |WalkSubdirs(d, dirs, dirNames, j + 1)| ==
            |WalkSubdirs(d, dirs, dirNames, j)| + |Walk(sub, dirs + [sub.name], dirNames)|
  {
    var sub := d.subdirs[j];
    var before, w := WalkSubdirs(d, dirs, dirNames, j), Walk(sub, dirs + [sub.name], dirNames);
    assert WalkSubdirs(d, dirs, dirNames, j + 1) == before + w;
    SelectAppend(before, w, dirNames, globs);
  }

  lemma SkipStep(d: Dir, dirs: seq<string>, dirNames: seq<string>, j: nat)
    requires j < |d.subdirs| && d.subdirs[j].name in dirNames
    ensures WalkSubdirs(d, dirs, dirNames, j + 1) == WalkSubdirs(d, dirs, dirNames, j)
  {
    assert WalkSubdirs(d, dirs, dirNames, j + 1) == WalkSubdirs(d, dirs, dirNames, j) + [];
  }

  /** Only candidates are selected, in their order of the walk. */
  lemma {:induction false} SelectSound(ls: seq<Located>, dirNames: seq<string>, globs: seq<string>)
    ensures forall x :: x in Select(ls, dirNames, globs) ==> x in ls && Candidate(x, dirNames, globs)
    decreases |ls|
  {
    if ls != [] {
      var init := ls[..|ls| - 1];
      SelectSound(init, dirNames, globs);
      assert forall x :: x in init ==> x in ls;
    }
  }

  /** Every candidate is selected: with `SelectSound`, the selection holds
      exactly the candidates, and by `SelectAppend` those of an earlier part
      of the walk come before those of a later one. */
  lemma {:induction false} SelectComplete(ls: seq<Located>, dirNames: seq<string>, globs: seq<string>)
    ensures forall x :: x in ls && Candidate(x, dirNames, globs) ==> x in Select(ls, dirNames, globs)
    decreases |ls|
  {
    if ls != [] {
      var init := ls[..|ls| - 1];
      SelectComplete(init, dirNames, globs);
      assert ls == init + [ls[|ls| - 1]];
    }
  }

  /** The paths the walk builds, at the file-system root and below an
      ordinary directory. */
  lemma JoinPathExamples()
    ensures JoinPath("/", ["src"], "a.py") == "/src/a.py"
    ensures JoinPath("proj", ["src"], "a.py") == "proj/src/a.py"
  {
  }

  /** `process_single_file` takes the extension again from the joined
      path; for every job of a walk it is the supported one the walk
      checked, since a file name holds no '/'. */
  lemma JobExtSupported(root: string, ls: seq<Located>, dirNames: seq<string>, globs: seq<string>, k: nat)
    requires k < |Select(ls, dirNames, globs)|
    requires '/' !in Select(ls, dirNames, globs)[k].entry.name
    ensures Ext(Jobs(root, Select(ls, dirNames, globs))[k].path) in SupportedExtensions
  {
    var x := Select(ls, dirNames, globs)[k];
    SelectSound(ls, dirNames, globs);
    assert x in Select(ls, dirNames, globs);
    ExtOfJoin(DirPath(root, x.dirs), x.entry.name);
  }

  lemma JobsAppend(root: string, a: seq<Located>, b: seq<Located>)
    ensures Jobs(root, a + b) == Jobs(root, a) + Jobs(root, b)
  {
  }

  /** The walk part of the worker (the file loop for a single file and
      the test for a missing path included): which files it processes
      and how many it looked at. */
  method Discover(target: Target, ignore: seq<string>) returns (r: Discovered)
    ensures target.DirTarget? ==>
              r == Found(Jobs(target.root, Select(Walk(target.tree, [], DirNames(ignore)), DirNames(ignore), FileGlobs(ignore))),
                         |Walk(target.tree, [], DirNames(ignore))|)
    ensures target.FileTarget? ==>
              if Ext(target.path) in SupportedExtensions && !IsLikelyBinary(target.bytes)
              then r == Found([Job(target.path, target.text)], 1)
              else r == InvalidSelection
    ensures target.Missing? ==> r == Found([], 0)
  {
    match target
    case DirTarget(root, tree) =>
      var dirNames := DirNames(ignore);
      var globs := FileGlobs(ignore);
      var found, checked := WalkDir(tree, [], dirNames, globs);
      r := Found(Jobs(root, found), checked);
    case FileTarget(path, bytes, text) =>
      if Ext(path) in SupportedExtensions && !IsLikelyBinary(bytes) {
        r := Found([Job(path, text)], 1);
      } else {
        r := InvalidSelection;
      }
    case Missing =>
      r := Found([], 0);
  }

  /** What a directory run processes, stated without the walk: the files of
      the whole tree, in walk order, that lie under no ignored directory,
      match no file glob, have a supported extension and do not look
      binary. */
  lemma DiscoveredFiles(root: string, tree: Dir, ignore: seq<string>)
    ensures Select(Walk(tree, [], DirNames(ignore)), DirNames(ignore), FileGlobs(ignore)) ==
            Select(Outside(Walk(tree, [], []), DirNames(ignore)), DirNames(ignore), FileGlobs(ignore))
    ensures forall x :: x in Walk(tree, [], DirNames(ignore)) ==> !InsideIgnoredDir(x, DirNames(ignore))
    ensures forall x :: x in Select(Walk(tree, [], DirNames(ignore)), DirNames(ignore), FileGlobs(ignore)) <==>
                        x in Walk(tree, [], []) && Candidate(x, DirNames(ignore), FileGlobs(ignore))
  {
    var dirNames, globs := DirNames(ignore), FileGlobs(ignore);
    WalkIsPrunedFullWalk(tree, [], dirNames);
    WalkOutsidePruned(tree, [], dirNames);
    var outside := Outside(Walk(tree, [], []), dirNames);
    OutsideMembers(Walk(tree, [], []), dirNames);
    SelectSound(outside, dirNames, globs);
    SelectComplete(outside, dirNames, globs);
  }
}

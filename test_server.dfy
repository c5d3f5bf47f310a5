/** The test server of `test-server/src/index.ts`: the directory lists it
    scans and watches, the files it accepts while walking a directory, the
    guard on request paths, and the merging of the per-file results into
    one list sorted by path. Reading directories and files, the analyzer
    service and HTTP are not part of this model: a directory's listing, a
    file's size and each file's scoring outcome are inputs. */
module TestServer {
  import opened Wrappers
  import opened Text
  import opened Scores
  import FileList

  // ---------------------------------------------------------------------
  // Directory lists

  const DefaultInputDirs := "files/training-set"

  /** An entry of a parsed directory list. */
  predicate WellFormedDir(d: string) {
    d != "" && IsTrimmed(d) && ',' !in d
  }

  /** `.map((d) => d.trim())`. */
  function TrimAll(parts: seq<string>): seq<string> {
    seq(|parts|, i requires 0 <= i < |parts| => Trim(parts[i]))
  }

  /** `.filter(Boolean)` on strings: the non-empty ones, in order. */
  function NonEmpty(parts: seq<string>): (r: seq<string>)
    ensures forall p :: p in r <==> p in parts && p != ""
  {
    if parts == [] then []
    else
      assert parts == [parts[0]] + parts[1..];
      (if parts[0] == "" then [] else [parts[0]]) + NonEmpty(parts[1..])
  }

  /** Filtering keeps a list without empty strings as it is. */
  lemma {:induction false} NonEmptyKeepsAll(parts: seq<string>)
    requires forall i :: 0 <= i < |parts| ==> parts[i] != ""
    ensures NonEmpty(parts) == parts
    decreases |parts|
  {
    if parts != [] {
      NonEmptyKeepsAll(parts[1..]);
    }
  }

  /** Filtering keeps the order: a concatenation filters part by part. */
  lemma {:induction false} NonEmptyAppend(a: seq<string>, b: seq<string>)
    ensures NonEmpty(a + b) == NonEmpty(a) + NonEmpty(b)
    decreases |a|
  {
    if a != [] {
      assert (a + b)[0] == a[0] && (a + b)[1..] == a[1..] + b;
      NonEmptyAppend(a[1..], b);
    } else {
      assert a + b == b;
    }
  }

  /** Trimming keeps a list of trimmed strings as it is. */
  lemma TrimAllKeepsTrimmed(parts: seq<string>)
    requires forall i :: 0 <= i < |parts| ==> IsTrimmed(parts[i])
    ensures TrimAll(parts) == parts
  {
  }

  /** `s.split(',').map((d) => d.trim()).filter(Boolean)`. */
  function ParseDirList(s: string): seq<string> {
    NonEmpty(TrimAll(Split(s, ',')))
  }

  /** Every entry of a parsed list is non-empty, trimmed and comma-free. */
  lemma DirListWellFormed(s: string)
    ensures forall d :: d in ParseDirList(s) ==> WellFormedDir(d)
  {
    var parts := Split(s, ',');
    SplitPiecesHaveNoSeparator(s, ',');
    forall d | d in ParseDirList(s) ensures WellFormedDir(d) {
      var i :| 0 <= i < |parts| && TrimAll(parts)[i] == d;
      assert parts[i] in parts;
      ContainedAvoids(parts[i], d, ',');
    }
  }

  /** Parsing the comma-join of well-formed entries gives them back. */
  lemma DirListRoundTrip(dirs: seq<string>)
    requires |dirs| >= 1
    requires forall i :: 0 <= i < |dirs| ==> WellFormedDir(dirs[i])
    ensures ParseDirList(Join(dirs, ',')) == dirs
  {
    SplitJoin(dirs, ',');
    TrimAllKeepsTrimmed(dirs);
    NonEmptyKeepsAll(dirs);
  }

  /** `INPUT_DIRS`: the environment's list, or the default one when the
      variable is unset or empty. */
  function InputDirs(env: Option<string>): seq<string> {
    ParseDirList(if env.Some? && env.value != "" then env.value else DefaultInputDirs)
  }

  /** Without the variable the server scans `files/training-set` alone. */
  lemma InputDirsDefault(env: Option<string>)
    requires env.None? || env.value == ""
    ensures InputDirs(env) == [DefaultInputDirs]
  {
    assert DefaultInputDirs[0] == 'f' && DefaultInputDirs[|DefaultInputDirs| - 1] == 't';
    DirListRoundTrip([DefaultInputDirs]);
  }

  /** `WATCH_DIRS`: the input directories joined, `,algo` appended, and the
      result parsed again. */
  function WatchDirs(inputDirs: seq<string>): seq<string> {
    ParseDirList(Join(inputDirs, ',') + ",algo")
  }

  /** `",algo"` splits into an empty piece and `algo`. */
  lemma SplitCommaAlgo()
    ensures Split(",algo", ',') == ["", "algo"]
  {
    var parts: seq<string> := ["", "algo"];
    assert Join(parts, ',') == ",algo";
    SplitJoin(parts, ',');
  }

  /** Both pieces are already trimmed. */
  lemma TrimEmptyAlgo()
    ensures TrimAll(["", "algo"]) == ["", "algo"]
  {
    assert IsTrimmed("algo");
    TrimAllKeepsTrimmed(["", "algo"]);
  }

  /** Filtering drops the empty piece. */
  lemma NonEmptyEmptyAlgo()
    ensures NonEmpty(["", "algo"]) == ["algo"]
  {
    var parts: seq<string> := ["", "algo"];
    assert parts[1..] == ["algo"];
    NonEmptyKeepsAll(["algo"]);
  }

  /** Parsing `",algo"` drops the empty piece. */
  lemma ParseCommaAlgo()
    ensures ParseDirList(",algo") == ["algo"]
  {
    SplitCommaAlgo();
    TrimEmptyAlgo();
    NonEmptyEmptyAlgo();
  }

  /** With no input directory only `algo` is watched. */
  lemma WatchDirsWithoutInputs()
    ensures WatchDirs([]) == ["algo"]
  {
    assert Join([], ',') + ",algo" == ",algo";
    ParseCommaAlgo();
  }

  /** Input directories that parse back to themselves are watched
      followed by `algo`. */
  lemma WatchDirsWithInputs(dirs: seq<string>)
    requires |dirs| >= 1
    requires forall i :: 0 <= i < |dirs| ==> WellFormedDir(dirs[i])
    ensures WatchDirs(dirs) == dirs + ["algo"]
  {
    var all := dirs + ["algo"];
    JoinSnoc(dirs, "algo", ',');
    assert Join(dirs, ',') + ",algo" == Join(dirs, ',') + [','] + "algo";
    assert WellFormedDir("algo");
    assert forall i :: 0 <= i < |all| ==> WellFormedDir(all[i]) by {
      forall i | 0 <= i < |all| ensures WellFormedDir(all[i]) {
        if i < |dirs| { assert all[i] == dirs[i]; }
      }
    }
    DirListRoundTrip(all);
  }

  /** The watched directories are the input directories followed by
      `algo`, even when there is no input directory. */
  lemma WatchDirsAppendAlgo(env: Option<string>)
    ensures WatchDirs(InputDirs(env)) == InputDirs(env) + ["algo"]
  {
    var dirs := InputDirs(env);
    DirListWellFormed(if env.Some? && env.value != "" then env.value else DefaultInputDirs);
    if dirs == [] {
      WatchDirsWithoutInputs();
    } else {
      forall i | 0 <= i < |dirs| ensures WellFormedDir(dirs[i]) {
        assert dirs[i] in dirs;
      }
      WatchDirsWithInputs(dirs);
    }
  }

  // ---------------------------------------------------------------------
  // Walking a directory

  const AllowedExt: set<string> := {".diff", ".patch"}

  const IgnoredDirs: set<string> := {
    "node_modules", ".git", "dist", "build", ".next", ".nuxt", ".cache", "out",
    ".turbo", ".yarn", ".pnpm", "coverage"
  }

  /** Files above 64 KiB are skipped. */
  const MaxFileSize := 64 * 1024

  /** The position of the last dot of `name`, or -1. */
  function LastDot(name: string): (i: int)
    ensures -1 <= i < |name|
    ensures i >= 0 ==> name[i] == '.' && forall k :: i < k < |name| ==> name[k] != '.'
    ensures i == -1 ==> forall k :: 0 <= k < |name| ==> name[k] != '.'
    decreases |name|
  {
    if name == [] then -1
    else if name[|name| - 1] == '.' then |name| - 1
    else LastDot(name[..|name| - 1])
  }

  /** `path.extname(name)` of an entry name: from the last dot on; empty
      when there is no dot, when the only dot leads the name, and for `..`. */
  function Extname(name: string): string {
    var i := LastDot(name);
    if i <= 0 || name == ".." then "" else name[i..]
  }

  /** The extension test of `walkFiles`. */
  predicate ExtAllowed(name: string) {
    Lower(Extname(name)) in AllowedExt
  }

  /** A dot, lower-cased or not, is a dot. */
  lemma LowerDot(c: char)
    ensures LowerChar(c) == '.' <==> c == '.'
  {
  }

  lemma LowerSuffix(s: string, i: nat)
    requires i <= |s|
    ensures Lower(s[i..]) == Lower(s)[i..]
  {
  }

  /** The dot at `k` is the last one when none follows it. */
  lemma LastDotAt(name: string, k: nat)
    requires k < |name| && name[k] == '.'
    requires forall j :: k < j < |name| ==> name[j] != '.'
    ensures LastDot(name) == k
  {
  }

  /** A name whose lower-cased form ends in `ext` (a dot, then no dot)
      after at least one more character has that extension. */
  lemma ExtnameOfSuffix(name: string, ext: string)
    requires |ext| >= 2 && ext[0] == '.' && '.' !in ext[1..]
    requires |name| > |ext| && EndsWith(Lower(name), ext)
    ensures Lower(Extname(name)) == ext
  {
    var k := |name| - |ext|;
    var low := Lower(name);
    assert low[k] == ext[0];
    LowerDot(name[k]);
    forall j | k < j < |name| ensures name[j] != '.' {
      assert low[j] == ext[j - k];
      assert ext[j - k] in ext[1..];
      LowerDot(name[j]);
    }
    LastDotAt(name, k);
    LowerSuffix(name, k);
    assert name != "..";
    assert Extname(name) == name[k..];
  }

  /** A name that passes the extension test ends, lower-cased, with
      `.diff` or `.patch`, and something precedes that ending. */
  lemma ExtAllowedEndsWithDiff(name: string)
    requires ExtAllowed(name)
    ensures (|name| > 5 && EndsWith(Lower(name), ".diff")) || (|name| > 6 && EndsWith(Lower(name), ".patch"))
  {
    var i := LastDot(name);
    assert 0 < i && name != "..";
    LowerSuffix(name, i);
    var low := Lower(name);
    assert low[i..] == ".diff" || low[i..] == ".patch";
    assert |low| - |low[i..]| == i;
  }

  /** A name passes the extension test exactly when its lower-cased form
      ends with `.diff` or `.patch` and something precedes that ending. */
  lemma ExtAllowedIff(name: string)
    ensures ExtAllowed(name) <==>
      (|name| > 5 && EndsWith(Lower(name), ".diff")) || (|name| > 6 && EndsWith(Lower(name), ".patch"))
  {
    if ExtAllowed(name) {
      ExtAllowedEndsWithDiff(name);
    } else if |name| > 5 && EndsWith(Lower(name), ".diff") {
      AllowedExtShapes();
      ExtnameOfSuffix(name, ".diff");
    } else if |name| > 6 && EndsWith(Lower(name), ".patch") {
      AllowedExtShapes();
      ExtnameOfSuffix(name, ".patch");
    }
  }

  /** Both allowed extensions are a dot followed by dot-free letters. */
  lemma AllowedExtShapes()
    ensures ".diff"[0] == '.' && '.' !in ".diff"[1..]
    ensures ".patch"[0] == '.' && '.' !in ".patch"[1..]
  {
    assert ".diff"[1..] == "diff";
    assert ".patch"[1..] == "patch";
  }

  /** A directory entry: a sub-directory with its listing (`readable` is
      false when it cannot be listed), a file with its size (`None` when
      `stat` fails), or anything else. */
  datatype Entry =
    | Directory(name: string, readable: bool, children: seq<Entry>)
    | File(name: string, size: Option<nat>)
    | Other(name: string)

  /** The path of entry `name` of directory `dir`. */
  function Child(dir: string, name: string): string {
    dir + "/" + name
  }

  /** Whether `walkFiles` keeps a file: an allowed extension, and not known
      to be larger than the limit (a failing `stat` keeps it). */
  predicate Accepted(name: string, size: Option<nat>) {
    ExtAllowed(name) && !(size.Some? && size.value > MaxFileSize)
  }

  /** The paths `walkFiles` collects from the listing `entries` of `dir`,
      in order. */
  function Walked(entries: seq<Entry>, dir: string): seq<string>
    decreases entries
  {
    if entries == [] then []
    else Walked(entries[..|entries| - 1], dir) + WalkedEntry(entries[|entries| - 1], dir)
  }

  /** The paths collected from one entry. */
  function WalkedEntry(e: Entry, dir: string): seq<string>
    decreases e
  {
    if StartsWith(e.name, ".DS_Store") then []
    else
      match e
      case Directory(name, readable, children) =>
        if name in IgnoredDirs || !readable then [] else Walked(children, Child(dir, name))
      case File(name, size) => if Accepted(name, size) then [Child(dir, name)] else []
      case Other(_) => []
  }

  /** `walkFiles(dir, acc)`: append the accepted files below `dir` to
      `acc`; an unreadable directory adds nothing. */
  method WalkFiles(dir: string, readable: bool, entries: seq<Entry>, acc: seq<string>) returns (out: seq<string>)
    ensures out == acc + (if readable then Walked(entries, dir) else [])
    decreases entries
  {
    out := acc;
    if !readable {
      return;
    }
    var k := 0;
    while k < |entries|
      invariant 0 <= k <= |entries|
      invariant out == acc + Walked(entries[..k], dir)
    {
      WalkedSnoc(entries, k, dir);
      out := WalkEntry(dir, entries[k], out);
      k := k + 1;
    }
    assert entries[..|entries|] == entries;
  }

  /** The paths of one more entry of the listing follow the others'. */
  lemma WalkedSnoc(entries: seq<Entry>, k: nat, dir: string)
    requires k < |entries|
    ensures Walked(entries[..k + 1], dir) == Walked(entries[..k], dir) + WalkedEntry(entries[k], dir)
  {
    TakeSnoc(entries, k);
    assert entries[..k + 1][..k] == entries[..k];
  }

  /** One turn of `walkFiles`'s loop: skip `.DS_Store*` names, descend into
      a directory that is not ignored, keep an accepted file. */
  method WalkEntry(dir: string, e: Entry, acc: seq<string>) returns (out: seq<string>)
    ensures out == acc + WalkedEntry(e, dir)
    decreases e
  {
    out := acc;
    if StartsWith(e.name, ".DS_Store") {
    } else if e.Directory? {
      if e.name !in IgnoredDirs {
        out := WalkFiles(Child(dir, e.name), e.readable, e.children, out);
      }
    } else if e.File? {
      if ExtAllowed(e.name) && !(e.size.Some? && e.size.value > MaxFileSize) {
        out := out + [Child(dir, e.name)];
      }
    }
  }

  lemma StartsWithAppend(a: string, b: string, p: string)
    requires StartsWith(a, p)
    ensures StartsWith(a + b, p)
  {
    assert (a + b)[..|p|] == a[..|p|];
  }

  lemma EndsWithLowerAppend(a: string, b: string, suffix: string)
    requires EndsWith(Lower(b), suffix)
    ensures EndsWith(Lower(a + b), suffix)
  {
    LowerAppend(a, b);
    assert (Lower(a) + Lower(b))[|a + b| - |suffix|..] == Lower(b)[|b| - |suffix|..];
  }

  /** Every collected path lies below `dir` and is a diff or patch file
      by the page's own test. */
  lemma {:induction false} WalkedAreDiffs(entries: seq<Entry>, dir: string)
    ensures forall p :: p in Walked(entries, dir) ==> StartsWith(p, dir + "/") && FileList.IsDiff(p)
    decreases entries
  {
    if entries != [] {
      var init, e := entries[..|entries| - 1], entries[|entries| - 1];
      WalkedAreDiffs(init, dir);
      WalkedEntryAreDiffs(e, dir);
    }
  }

  lemma {:induction false} WalkedEntryAreDiffs(e: Entry, dir: string)
    ensures forall p :: p in WalkedEntry(e, dir) ==> StartsWith(p, dir + "/") && FileList.IsDiff(p)
    decreases e
  {
    if !StartsWith(e.name, ".DS_Store") {
      match e
      case Directory(name, readable, children) =>
        if name !in IgnoredDirs && readable {
          var sub := Child(dir, name);
          WalkedAreDiffs(children, sub);
          forall p | p in Walked(children, sub) ensures StartsWith(p, dir + "/") {
            BelowChild(dir, name, p);
          }
        }
      case File(name, size) =>
        if Accepted(name, size) {
          AcceptedChildIsDiff(dir, name);
        }
      case Other(_) =>
    }
  }

  /** A path below a subdirectory of `dir` is below `dir`. */
  lemma BelowChild(dir: string, name: string, p: string)
    requires StartsWith(p, Child(dir, name) + "/")
    ensures StartsWith(p, dir + "/")
  {
    assert p[..|dir + "/"|] == (Child(dir, name) + "/")[..|dir + "/"|];
  }

  /** An accepted file's path is below `dir` and names a diff. */
  lemma AcceptedChildIsDiff(dir: string, name: string)
    requires ExtAllowed(name)
    ensures StartsWith(Child(dir, name), dir + "/") && FileList.IsDiff(Child(dir, name))
  {
    ExtAllowedIff(name);
    StartsWithAppend(dir + "/", name, dir + "/");
    if EndsWith(Lower(name), ".diff") {
      EndsWithLowerAppend(dir + "/", name, ".diff");
    } else {
      EndsWithLowerAppend(dir + "/", name, ".patch");
    }
  }

  /** An accepted file of the listing is collected. */
  lemma {:induction false} WalkedIncludesAccepted(entries: seq<Entry>, dir: string, k: nat)
    requires k < |entries| && entries[k].File?
    requires !StartsWith(entries[k].name, ".DS_Store") && Accepted(entries[k].name, entries[k].size)
    ensures Child(dir, entries[k].name) in Walked(entries, dir)
    decreases |entries|
  {
    var init, e := entries[..|entries| - 1], entries[|entries| - 1];
    assert Walked(entries, dir) == Walked(init, dir) + WalkedEntry(e, dir);
    if k < |entries| - 1 {
      assert init[k] == entries[k];
      WalkedIncludesAccepted(init, dir, k);
    } else {
      assert WalkedEntry(e, dir) == [Child(dir, e.name)];
    }
  }

  // The walk against an independent description: every file of the tree at
  // any depth, with the directories on its way, and which of them the walk
  // may collect.

  /** A file found anywhere below a listing: its path, name and size, and
      the name and readability of each directory on the way to it. */
  datatype Found = Found(path: string, name: string, size: Option<nat>, route: seq<(string, bool)>)

  /** A directory the walk enters: readable, not ignored, not `.DS_Store*`. */
  predicate OpenDir(d: (string, bool)) {
    d.1 && d.0 !in IgnoredDirs && !StartsWith(d.0, ".DS_Store")
  }

  /** A file the walk keeps: not `.DS_Store*`, accepted, and reached only
      through directories the walk enters. */
  predicate Collectable(f: Found) {
    && !StartsWith(f.name, ".DS_Store")
    && Accepted(f.name, f.size)
    && forall i :: 0 <= i < |f.route| ==> OpenDir(f.route[i])
  }

  /** Every file of the listing at any depth, in listing order, including
      those in ignored or unreadable directories. */
  function Tree(entries: seq<Entry>, dir: string): seq<Found>
    decreases entries
  {
    if entries == [] then []
    else Tree(entries[..|entries| - 1], dir) + TreeEntry(entries[|entries| - 1], dir)
  }

  function TreeEntry(e: Entry, dir: string): seq<Found>
    decreases e
  {
    match e
    case Directory(name, readable, children) => Under((name, readable), Tree(children, Child(dir, name)))
    case File(name, size) => [Found(Child(dir, name), name, size, [])]
    case Other(_) => []
  }

  /** The files of a sub-directory, seen from its parent. */
  function Under(d: (string, bool), fs: seq<Found>): (r: seq<Found>)
    ensures |r| == |fs|
    ensures forall i :: 0 <= i < |fs| ==> r[i] == fs[i].(route := [d] + fs[i].route)
  {
    seq(|fs|, i requires 0 <= i < |fs| => fs[i].(route := [d] + fs[i].route))
  }

  /** The paths of the collectable files, in order. */
  function CollectedPaths(fs: seq<Found>): seq<string> {
    if fs == [] then []
    else
      var f := fs[|fs| - 1];
      CollectedPaths(fs[..|fs| - 1]) + (if Collectable(f) then [f.path] else [])
  }

  lemma {:induction false} CollectedAppend(a: seq<Found>, b: seq<Found>)
    ensures CollectedPaths(a + b) == CollectedPaths(a) + CollectedPaths(b)
    decreases |b|
  {
    if b == [] {
      assert a + b == a;
    } else {
      assert (a + b)[..|a + b| - 1] == a + b[..|b| - 1];
      CollectedAppend(a, b[..|b| - 1]);
    }
  }

  lemma RouteCons(d: (string, bool), f: Found)
    ensures OpenDir(d) ==> (Collectable(f.(route := [d] + f.route)) <==> Collectable(f))
    ensures !OpenDir(d) ==> !Collectable(f.(route := [d] + f.route))
  {
    var g := f.(route := [d] + f.route);
    assert g.route[0] == d;
    assert forall i :: 0 <= i < |f.route| ==> g.route[i + 1] == f.route[i];
  }

  /** Below a directory the walk enters, the same files are collected; below
      any other directory, none. */
  lemma {:induction false} CollectedUnder(d: (string, bool), fs: seq<Found>)
    ensures CollectedPaths(Under(d, fs)) == if OpenDir(d) then CollectedPaths(fs) else []
    decreases |fs|
  {
    if fs != [] {
      var init := fs[..|fs| - 1];
      assert Under(d, fs)[..|fs| - 1] == Under(d, init);
      CollectedUnder(d, init);
      RouteCons(d, fs[|fs| - 1]);
    }
  }

  /** `walkFiles` collects exactly the collectable files of the tree, in
      listing order. */
  lemma {:induction false} WalkedIsCollected(entries: seq<Entry>, dir: string)
    ensures Walked(entries, dir) == CollectedPaths(Tree(entries, dir))
    decreases entries
  {
    if entries != [] {
      var init, e := entries[..|entries| - 1], entries[|entries| - 1];
      WalkedIsCollected(init, dir);
      WalkedEntryIsCollected(e, dir);
      CollectedAppend(Tree(init, dir), TreeEntry(e, dir));
    }
  }

  lemma {:induction false} WalkedEntryIsCollected(e: Entry, dir: string)
    ensures WalkedEntry(e, dir) == CollectedPaths(TreeEntry(e, dir))
    decreases e
  {
    match e
    case Directory(name, readable, children) =>
      var sub := Child(dir, name);
      CollectedUnder((name, readable), Tree(children, sub));
      if OpenDir((name, readable)) {
        WalkedIsCollected(children, sub);
      }
    case File(name, size) =>
      var f := Found(Child(dir, name), name, size, []);
      assert [f][..0] == [];
    case Other(_) =>
  }

  lemma {:induction false} CollectedMembers(fs: seq<Found>, p: string)
    ensures p in CollectedPaths(fs) <==> exists f :: f in fs && f.path == p && Collectable(f)
    decreases |fs|
  {
    if fs != [] {
      var init, f := fs[..|fs| - 1], fs[|fs| - 1];
      CollectedMembers(init, p);
      assert fs == init + [f];
      assert CollectedPaths(fs) == CollectedPaths(init) + (if Collectable(f) then [f.path] else []);
      if p in CollectedPaths(fs) {
        if p in CollectedPaths(init) {
          var g :| g in init && g.path == p && Collectable(g);
          assert g in fs;
        } else {
          assert f in fs && f.path == p && Collectable(f);
        }
      }
      if exists g :: g in fs && g.path == p && Collectable(g) {
        var g :| g in fs && g.path == p && Collectable(g);
        if g != f {
          assert g in init;
        }
      }
    }
  }

  /** A path is collected exactly when some file of the tree has it, is
      accepted, is not `.DS_Store*`, and lies below no ignored, unreadable
      or `.DS_Store*` directory, at any depth. */
  lemma WalkedMembers(entries: seq<Entry>, dir: string, p: string)
    ensures p in Walked(entries, dir) <==>
      exists f :: f in Tree(entries, dir) && f.path == p && Collectable(f)
  {
    WalkedIsCollected(entries, dir);
    CollectedMembers(Tree(entries, dir), p);
  }

  /** A path whose every file in the tree is too large, or has an extension
      that is not allowed, is never collected, at any depth. */
  lemma WalkedSkipsRejectedFiles(entries: seq<Entry>, dir: string, p: string)
    requires forall f :: f in Tree(entries, dir) && f.path == p ==> !Accepted(f.name, f.size)
    ensures p !in Walked(entries, dir)
  {
    WalkedMembers(entries, dir, p);
  }

  /** A path whose every file in the tree lies below an ignored directory
      (such as `node_modules`) or a `.DS_Store*` directory, at any depth,
      is never collected. */
  lemma WalkedSkipsIgnoredDirs(entries: seq<Entry>, dir: string, p: string)
    requires forall f :: f in Tree(entries, dir) && f.path == p ==>
      exists i :: 0 <= i < |f.route| && (f.route[i].0 in IgnoredDirs || StartsWith(f.route[i].0, ".DS_Store"))
    ensures p !in Walked(entries, dir)
  {
    WalkedMembers(entries, dir, p);
  }

  // ---------------------------------------------------------------------
  // Request paths

  /** `(req.query.path as string) || ''`. */
  function QueryPath(query: Option<string>): string {
    if query.Some? then query.value else ""
  }

  /** The guard of `/api/score` and `/raw`: an empty path, or one holding
      `..` anywhere, is answered with 400. */
  predicate RejectsPath(p: string) {
    p == "" || Contains(p, "..")
  }

  /** A request without a path is rejected, and a path that passes the
      guard is not empty and has no `..` segment between slashes. (How
      `path.join` then resolves it is not part of this model.) */
  lemma GuardedPathStaysInside(query: Option<string>)
    ensures query.None? ==> RejectsPath(QueryPath(query))
    ensures !RejectsPath(QueryPath(query)) ==>
      QueryPath(query) != "" && forall seg :: seg in Split(QueryPath(query), '/') ==> seg != ".."
  {
    var p := QueryPath(query);
    SplitPiecesOccur(p, '/');
  }

  // ---------------------------------------------------------------------
  // Merging the results

  /** One scored file: its path, its scores and its size in bytes. */
  datatype Result = Result(path: string, tokenScores: seq<TokenScore>, fileSize: nat)

  /** One directory to scan: its path and its listing. */
  datatype Root = Root(dir: string, readable: bool, entries: seq<Entry>)

  /** The files collected from the roots, in order. */
  function FilesOf(roots: seq<Root>): seq<string> {
    if roots == [] then []
    else
      var r := roots[|roots| - 1];
      FilesOf(roots[..|roots| - 1]) + (if r.readable then Walked(r.entries, r.dir) else [])
  }

  /** `Array.from(new Set(xs))`: each element at its first occurrence. */
  function FirstOccurrences(xs: seq<string>): seq<string> {
    if xs == [] then []
    else
      var d := FirstOccurrences(xs[..|xs| - 1]);
      if xs[|xs| - 1] in d then d else d + [xs[|xs| - 1]]
  }

  /** The de-duplicated list has no repetition and the same elements. */
  lemma {:induction false} FirstOccurrencesSpec(xs: seq<string>)
    ensures Distinct(FirstOccurrences(xs))
    ensures forall x :: x in FirstOccurrences(xs) <==> x in xs
    decreases |xs|
  {
    if xs != [] {
      var init, x := xs[..|xs| - 1], xs[|xs| - 1];
      FirstOccurrencesSpec(init);
      assert xs == init + [x];
      var d := FirstOccurrences(init);
      if x !in d {
        assert multiset(d)[x] == 0;
      }
    }
  }

  /** Building the set by inserting each element in turn. */
  method Uniq(xs: seq<string>) returns (uniq: seq<string>)
    ensures uniq == FirstOccurrences(xs)
    ensures Distinct(uniq) && forall x :: x in uniq <==> x in xs
  {
    var seen: set<string> := {};
    uniq := [];
    var i := 0;
    while i < |xs|
      invariant 0 <= i <= |xs|
      invariant uniq == FirstOccurrences(xs[..i])
      invariant forall x :: x in seen <==> x in uniq
    {
      assert xs[..i + 1][..i] == xs[..i];
      if xs[i] !in seen {
        uniq := uniq + [xs[i]];
        seen := seen + {xs[i]};
      }
      i := i + 1;
    }
    assert xs[..|xs|] == xs;
    FirstOccurrencesSpec(xs);
  }

  /** The results of the files whose scoring succeeded, in file order. */
  function ScoredResults(files: seq<string>, scoreFile: string -> Option<(seq<TokenScore>, nat)>): seq<Result> {
    if files == [] then []
    else
      var p := files[|files| - 1];
      ScoredResults(files[..|files| - 1], scoreFile)
        + (if scoreFile(p).Some? then [Result(p, scoreFile(p).value.0, scoreFile(p).value.1)] else [])
  }

  function Paths(rs: seq<Result>): seq<string> {
    seq(|rs|, i requires 0 <= i < |rs| => rs[i].path)
  }

  lemma PathsAppend(a: seq<Result>, b: seq<Result>)
    ensures Paths(a + b) == Paths(a) + Paths(b)
  {
  }

  /** The paths of a result put in front: its path, counted once more. */
  lemma PathsCons(r: Result, rs: seq<Result>)
    ensures multiset(Paths([r] + rs)) == multiset(Paths(rs)) + multiset{r.path}
  {
    PathsAppend([r], rs);
    assert Paths([r]) == [r.path];
  }

  /** A result is kept exactly for a file whose scoring succeeded. */
  lemma {:induction false} ScoredResultsMembers(files: seq<string>, scoreFile: string -> Option<(seq<TokenScore>, nat)>)
    ensures forall r :: r in ScoredResults(files, scoreFile) <==>
      r.path in files && scoreFile(r.path) == Some((r.tokenScores, r.fileSize))
    decreases |files|
  {
    if files != [] {
      var init, p := files[..|files| - 1], files[|files| - 1];
      ScoredResultsMembers(init, scoreFile);
      DropLastSnoc(files);
    }
  }

  /** No path is kept more often than it is listed. */
  lemma {:induction false} ScoredResultsPaths(files: seq<string>, scoreFile: string -> Option<(seq<TokenScore>, nat)>)
    ensures multiset(Paths(ScoredResults(files, scoreFile))) <= multiset(files)
    decreases |files|
  {
    if files != [] {
      var init, p := files[..|files| - 1], files[|files| - 1];
      ScoredResultsPaths(init, scoreFile);
      DropLastSnoc(files);
      var more := if scoreFile(p).Some? then [Result(p, scoreFile(p).value.0, scoreFile(p).value.1)] else [];
      PathsAppend(ScoredResults(init, scoreFile), more);
      assert Paths(more) == if scoreFile(p).Some? then [p] else [];
    }
  }

  /** Both halves of what scoring the files keeps. */
  lemma ScoredResultsSpec(files: seq<string>, scoreFile: string -> Option<(seq<TokenScore>, nat)>)
    ensures forall r :: r in ScoredResults(files, scoreFile) <==>
      r.path in files && scoreFile(r.path) == Some((r.tokenScores, r.fileSize))
    ensures multiset(Paths(ScoredResults(files, scoreFile))) <= multiset(files)
  {
    ScoredResultsMembers(files, scoreFile);
    ScoredResultsPaths(files, scoreFile);
  }

  /** `a.localeCompare(b) <= 0`, taken as the order of code units. */
  predicate PathLe(a: string, b: string)
    decreases |a|
  {
    a == [] || (b != [] && (a[0] < b[0] || (a[0] == b[0] && PathLe(a[1..], b[1..]))))
  }

  lemma {:induction false} PathLeTotal(a: string, b: string)
    ensures PathLe(a, b) || PathLe(b, a)
    decreases |a|
  {
    if a != [] && b != [] && a[0] == b[0] {
      PathLeTotal(a[1..], b[1..]);
    }
  }

  predicate SortedByPath(rs: seq<Result>) {
    forall i :: 0 < i < |rs| ==> PathLe(rs[i - 1].path, rs[i].path)
  }

  function Insert(r: Result, rs: seq<Result>): seq<Result> {
    if rs == [] || PathLe(r.path, rs[0].path) then [r] + rs
    else [rs[0]] + Insert(r, rs[1..])
  }

  /** `results.sort((a, b) => a.path.localeCompare(b.path))`. */
  function SortByPath(rs: seq<Result>): seq<Result> {
    if rs == [] then [] else Insert(rs[0], SortByPath(rs[1..]))
  }

  /** Inserting into a sorted list keeps it sorted; the new head is the
      inserted result or the old head. */
  lemma {:induction false} InsertSorted(r: Result, rs: seq<Result>)
    requires SortedByPath(rs)
    ensures SortedByPath(Insert(r, rs))
    ensures Insert(r, rs)[0] == r || (rs != [] && Insert(r, rs)[0] == rs[0])
    decreases |rs|
  {
    if rs != [] && !PathLe(r.path, rs[0].path) {
      var tail := Insert(r, rs[1..]);
      InsertSorted(r, rs[1..]);
      PathLeTotal(r.path, rs[0].path);
      assert PathLe(rs[0].path, tail[0].path);
      assert Insert(r, rs) == [rs[0]] + tail;
    }
  }

  /** Inserting adds exactly the one result. */
  lemma {:induction false} InsertAdds(r: Result, rs: seq<Result>)
    ensures multiset(Insert(r, rs)) == multiset(rs) + multiset{r}
    ensures multiset(Paths(Insert(r, rs))) == multiset(Paths(rs)) + multiset{r.path}
    decreases |rs|
  {
    if rs == [] || PathLe(r.path, rs[0].path) {
      PathsCons(r, rs);
    } else {
      var tail := Insert(r, rs[1..]);
      InsertAdds(r, rs[1..]);
      PathsCons(rs[0], tail);
      PathsCons(rs[0], rs[1..]);
      HeadTail(rs);
    }
  }

  /** Sorting orders the results by path. */
  lemma {:induction false} SortByPathSorted(rs: seq<Result>)
    ensures SortedByPath(SortByPath(rs))
    decreases |rs|
  {
    if rs != [] {
      SortByPathSorted(rs[1..]);
      InsertSorted(rs[0], SortByPath(rs[1..]));
    }
  }

  /** Sorting keeps the same results. */
  lemma {:induction false} SortByPathPermutes(rs: seq<Result>)
    ensures multiset(SortByPath(rs)) == multiset(rs)
    decreases |rs|
  {
    if rs != [] {
      var rest := SortByPath(rs[1..]);
      SortByPathPermutes(rs[1..]);
      InsertAdds(rs[0], rest);
      HeadTail(rs);
      assert multiset(rs) == multiset(rs[1..]) + multiset{rs[0]};
    }
  }

  /** Sorting keeps the same paths. */
  lemma {:induction false} SortByPathKeepsPaths(rs: seq<Result>)
    ensures multiset(Paths(SortByPath(rs))) == multiset(Paths(rs))
    decreases |rs|
  {
    if rs != [] {
      var rest := SortByPath(rs[1..]);
      SortByPathKeepsPaths(rs[1..]);
      InsertAdds(rs[0], rest);
      HeadTail(rs);
      PathsCons(rs[0], rs[1..]);
    }
  }

  /** What `scoreAll` answers: the files of every root, each once, scored,
      the failures dropped, sorted by path. */
  function ScoredFiles(roots: seq<Root>, scoreFile: string -> Option<(seq<TokenScore>, nat)>): seq<Result> {
    SortByPath(ScoredResults(FirstOccurrences(FilesOf(roots)), scoreFile))
  }

  /** No path is answered twice. */
  lemma ScoredFilesDistinct(roots: seq<Root>, scoreFile: string -> Option<(seq<TokenScore>, nat)>)
    ensures Distinct(Paths(ScoredFiles(roots, scoreFile)))
  {
    var uniq := FirstOccurrences(FilesOf(roots));
    var scored := ScoredResults(uniq, scoreFile);
    FirstOccurrencesSpec(FilesOf(roots));
    ScoredResultsSpec(uniq, scoreFile);
    SortByPathKeepsPaths(scored);
    forall x ensures multiset(Paths(ScoredFiles(roots, scoreFile)))[x] <= 1 {
      assert multiset(Paths(scored))[x] <= multiset(uniq)[x];
    }
  }

  /** A result is answered exactly for a collected file whose scoring
      succeeded, with that outcome. */
  lemma ScoredFilesMembers(roots: seq<Root>, scoreFile: string -> Option<(seq<TokenScore>, nat)>)
    ensures forall r :: r in ScoredFiles(roots, scoreFile) <==>
      r.path in FilesOf(roots) && scoreFile(r.path) == Some((r.tokenScores, r.fileSize))
  {
    var uniq := FirstOccurrences(FilesOf(roots));
    var scored := ScoredResults(uniq, scoreFile);
    FirstOccurrencesSpec(FilesOf(roots));
    ScoredResultsSpec(uniq, scoreFile);
    SortByPathPermutes(scored);
    forall r ensures r in ScoredFiles(roots, scoreFile) <==> r in scored {
      assert r in ScoredFiles(roots, scoreFile) <==> r in multiset(ScoredFiles(roots, scoreFile));
      assert r in scored <==> r in multiset(scored);
    }
  }

  /** `scoreAll(dirs)` with `scoreFile` the outcome of scoring one file
      (`None` when it throws): walk every directory, drop repeated paths,
      score each file, and sort what succeeded by path. */
  method ScoreAll(roots: seq<Root>, scoreFile: string -> Option<(seq<TokenScore>, nat)>) returns (results: seq<Result>)
    ensures results == ScoredFiles(roots, scoreFile)
    ensures SortedByPath(results)
    ensures Distinct(Paths(results))
    ensures forall r :: r in results <==>
      r.path in FilesOf(roots) && scoreFile(r.path) == Some((r.tokenScores, r.fileSize))
    ensures forall r :: r in results ==> FileList.IsDiff(r.path)
  {
    var files: seq<string> := [];
    var k := 0;
    while k < |roots|
      invariant 0 <= k <= |roots|
      invariant files == FilesOf(roots[..k])
    {
      assert roots[..k + 1][..k] == roots[..k];
      var root := roots[k];
      files := WalkFiles(root.dir, root.readable, root.entries, files);
      k := k + 1;
    }
    assert roots[..|roots|] == roots;
    var uniq := Uniq(files);
    var scored: seq<Result> := [];
    var i := 0;
    while i < |uniq|
      invariant 0 <= i <= |uniq|
      invariant scored == ScoredResults(uniq[..i], scoreFile)
    {
      assert uniq[..i + 1][..i] == uniq[..i];
      var p := uniq[i];
      var outcome := scoreFile(p);
      if outcome.Some? {
        scored := scored + [Result(p, outcome.value.0, outcome.value.1)];
      }
      i := i + 1;
    }
    assert uniq[..|uniq|] == uniq;
    results := SortByPath(scored);
    SortByPathSorted(scored);
    ScoredFilesDistinct(roots, scoreFile);
    ScoredFilesMembers(roots, scoreFile);
    FilesOfAreDiffs(roots);
  }

  /** Every collected file of every root is a diff or patch file. */
  lemma {:induction false} FilesOfAreDiffs(roots: seq<Root>)
    ensures forall p :: p in FilesOf(roots) ==> FileList.IsDiff(p)
    decreases |roots|
  {
    if roots != [] {
      var r := roots[|roots| - 1];
      FilesOfAreDiffs(roots[..|roots| - 1]);
      WalkedAreDiffs(r.entries, r.dir);
    }
  }
}

/** Repository discovery (main.go:257-322), sequentially: a pre-order walk
    of each scan root, the callback's per-directory decision, and the
    collector that de-duplicates and sorts what the walks report. A file
    system is a tree of entries below each root; entries that are not
    directories (files, symbolic links) are never examined. */
module Discovery {
  import Strings
  import Slices
  import Paths
  import Config

  datatype Entry = Dir(name: string, children: seq<Entry>) | File(name: string)

  /** What the walk callback answers for a directory. */
  datatype Decision =
    | Descend   // return nil: walk into it
    | Prune     // return fs.SkipDir
    | Report    // a ".git" directory: its parent is sent, then fs.SkipDir

  /** The callback (main.go:287-301) for the directory at `path`, whose name
      is its last segment: too deep, excluded (unless it is ".git"), ".git",
      or none of these. */
  function Visit(excluded: set<string>, maxDepth: int, root: Paths.Path, path: Paths.Path): (d: Decision)
    ensures d == Report ==> Paths.Base(path) == ".git"
    ensures d == Descend ==> Paths.Base(path) != ".git" && Paths.Base(path) !in excluded
    ensures d != Prune ==> !(maxDepth > 0 && Paths.DepthFrom(root, path) > maxDepth)
  {
    if maxDepth > 0 && Paths.DepthFrom(root, path) > maxDepth then Prune
    else
      var name := Paths.Base(path);
      if name != ".git" && name in excluded then Prune
      else if name == ".git" then Report
      else Descend
  }

  /** The paths one entry below `dir` reports, in walk order. */
  function WalkEntry(excluded: set<string>, maxDepth: int, root: Paths.Path, dir: Paths.Path, e: Entry): seq<Paths.Path>
    decreases e, 1
  {
    match e
    case File(_) => []
    case Dir(name, children) =>
      var path := dir + [name];
      match Visit(excluded, maxDepth, root, path)
      case Prune => []
      case Report => [dir]
      case Descend => WalkEntries(excluded, maxDepth, root, path, children)
  }

  /** The paths the entries of directory `dir` report, entry after entry. */
  function WalkEntries(excluded: set<string>, maxDepth: int, root: Paths.Path, dir: Paths.Path, es: seq<Entry>): seq<Paths.Path>
    decreases es, 0
  {
    if es == [] then []
    else WalkEntry(excluded, maxDepth, root, dir, es[0]) + WalkEntries(excluded, maxDepth, root, dir, es[1..])
  }

  /** filepath.WalkDir from `root`, whose entries are `children`: the root
      itself goes through the callback first. */
  function WalkRoot(excluded: set<string>, maxDepth: int, root: Paths.Path, children: seq<Entry>): seq<Paths.Path> {
    match Visit(excluded, maxDepth, root, root)
    case Prune => []
    case Report => [Paths.Dir(root)]
    case Descend => WalkEntries(excluded, maxDepth, root, root, children)
  }

  // ---------------- What the walk reports ----------------

  /** A reported repository: its ".git" is within the depth limit, and every
      segment from `dir` on is neither excluded nor ".git". */
  predicate Acceptable(excluded: set<string>, maxDepth: int, root: Paths.Path, dir: Paths.Path, r: Paths.Path) {
    |dir| <= |r| && r[..|dir|] == dir
    && (forall i :: |dir| <= i < |r| ==> r[i] !in excluded && r[i] != ".git")
    && (maxDepth > 0 ==> Paths.DepthFrom(root, r + [".git"]) <= maxDepth)
  }

  lemma AcceptableExtend(excluded: set<string>, maxDepth: int, root: Paths.Path, dir: Paths.Path, name: string, r: Paths.Path)
    requires name !in excluded && name != ".git"
    requires Acceptable(excluded, maxDepth, root, dir + [name], r)
    ensures Acceptable(excluded, maxDepth, root, dir, r)
  {
    assert r[..|dir|] == (dir + [name])[..|dir|];
    assert r[|dir|] == name;
  }

  lemma {:induction false} WalkEntryAcceptable(excluded: set<string>, maxDepth: int, root: Paths.Path, dir: Paths.Path, e: Entry)
    ensures forall r :: r in WalkEntry(excluded, maxDepth, root, dir, e) ==> Acceptable(excluded, maxDepth, root, dir, r)
    decreases e, 1
  {
    match e
    case File(_) =>
    case Dir(name, children) =>
      var path := dir + [name];
      match Visit(excluded, maxDepth, root, path)
      case Prune =>
      case Report =>
        assert Paths.Base(path) == name;
        assert dir + [".git"] == path;
        assert dir[..|dir|] == dir;
      case Descend =>
        WalkEntriesAcceptable(excluded, maxDepth, root, path, children);
        forall r | r in WalkEntries(excluded, maxDepth, root, path, children)
          ensures Acceptable(excluded, maxDepth, root, dir, r)
        {
          AcceptableExtend(excluded, maxDepth, root, dir, name, r);
        }
  }

  lemma {:induction false} WalkEntriesAcceptable(excluded: set<string>, maxDepth: int, root: Paths.Path, dir: Paths.Path, es: seq<Entry>)
    ensures forall r :: r in WalkEntries(excluded, maxDepth, root, dir, es) ==> Acceptable(excluded, maxDepth, root, dir, r)
    decreases es, 0
  {
    if es != [] {
      WalkEntryAcceptable(excluded, maxDepth, root, dir, es[0]);
      WalkEntriesAcceptable(excluded, maxDepth, root, dir, es[1..]);
    }
  }

  /** Every repository a walk reports lies below the root, has its ".git"
      within the depth limit, and has no excluded directory and no ".git"
      directory on its way down from the root (main.go:288-300); the only
      exception is a root that is itself a ".git" directory, which reports
      its parent. What it reports does hold a ".git" directory. */
  lemma WalkRootSound(excluded: set<string>, maxDepth: int, root: Paths.Path, children: seq<Entry>)
    ensures Paths.Base(root) != ".git" ==>
      forall r :: r in WalkRoot(excluded, maxDepth, root, children) ==> Acceptable(excluded, maxDepth, root, root, r)
    ensures Paths.Base(root) != ".git" ==>
      forall r :: r in WalkRoot(excluded, maxDepth, root, children) ==> |root| <= |r| && HasRepoAt(children, r[|root|..])
    ensures Paths.Base(root) == ".git" ==>
      WalkRoot(excluded, maxDepth, root, children) == [Paths.Dir(root)]
  {
    WalkEntriesAcceptable(excluded, maxDepth, root, root, children);
    WalkEntriesReal(excluded, maxDepth, root, root, children);
    Paths.DepthFromSelf(root);
  }

  /** An excluded root (other than ".git") reports nothing. */
  lemma WalkRootExcluded(excluded: set<string>, maxDepth: int, root: Paths.Path, children: seq<Entry>)
    requires Paths.Base(root) in excluded && Paths.Base(root) != ".git"
    ensures WalkRoot(excluded, maxDepth, root, children) == []
  {
  }

  // ---------------- What the walk finds ----------------

  /** The tree below a directory has a ".git" directory at `rel`. */
  ghost predicate HasRepoAt(es: seq<Entry>, rel: Paths.Path)
    decreases |rel|
  {
    if rel == [] then exists e :: e in es && e.Dir? && e.name == ".git"
    else exists e :: e in es && e.Dir? && e.name == rel[0] && HasRepoAt(e.children, rel[1..])
  }

  /** A repository found in one entry is found in any list holding it. */
  lemma HasRepoAtWider(e: Entry, es: seq<Entry>, rel: Paths.Path)
    requires e in es && HasRepoAt([e], rel)
    ensures HasRepoAt(es, rel)
  {
    assert forall x :: x in [e] ==> x == e;
  }

  /** The walk reports only directories that do hold a ".git" directory. */
  lemma {:induction false} WalkEntryReal(excluded: set<string>, maxDepth: int, root: Paths.Path, dir: Paths.Path, e: Entry)
    ensures forall r :: r in WalkEntry(excluded, maxDepth, root, dir, e) ==>
      |dir| <= |r| && HasRepoAt([e], r[|dir|..])
    decreases e, 1
  {
    match e
    case File(_) =>
    case Dir(name, children) =>
      var path := dir + [name];
      match Visit(excluded, maxDepth, root, path)
      case Prune =>
      case Report =>
        assert name == ".git";
        assert dir[|dir|..] == [];
        assert e in [e];
      case Descend =>
        WalkEntriesReal(excluded, maxDepth, root, path, children);
        WalkEntriesAcceptable(excluded, maxDepth, root, path, children);
        forall r | r in WalkEntries(excluded, maxDepth, root, path, children)
          ensures |dir| <= |r| && HasRepoAt([e], r[|dir|..])
        {
          var rel := r[|dir|..];
          assert r[..|path|] == path;
          assert rel[0] == name;
          assert rel[1..] == r[|path|..];
          assert e in [e];
        }
  }

  lemma {:induction false} WalkEntriesReal(excluded: set<string>, maxDepth: int, root: Paths.Path, dir: Paths.Path, es: seq<Entry>)
    ensures forall r :: r in WalkEntries(excluded, maxDepth, root, dir, es) ==>
      |dir| <= |r| && HasRepoAt(es, r[|dir|..])
    decreases es, 0
  {
    if es != [] {
      WalkEntryReal(excluded, maxDepth, root, dir, es[0]);
      WalkEntriesReal(excluded, maxDepth, root, dir, es[1..]);
      forall r | r in WalkEntries(excluded, maxDepth, root, dir, es)
        ensures |dir| <= |r| && HasRepoAt(es, r[|dir|..])
      {
        if r in WalkEntry(excluded, maxDepth, root, dir, es[0]) {
          HasRepoAtWider(es[0], es, r[|dir|..]);
        } else {
          HasRepoAtSuffix(es, r[|dir|..]);
        }
      }
    }
  }

  /** A repository found among the later entries is found among all. */
  lemma HasRepoAtSuffix(es: seq<Entry>, rel: Paths.Path)
    requires es != [] && HasRepoAt(es[1..], rel)
    ensures HasRepoAt(es, rel)
  {
    if rel == [] {
      var e :| e in es[1..] && e.Dir? && e.name == ".git";
      assert e in es;
    } else {
      var e :| e in es[1..] && e.Dir? && e.name == rel[0] && HasRepoAt(e.children, rel[1..]);
      assert e in es;
    }
  }

  /** Whatever one entry reports, the directory holding it reports too. */
  lemma {:induction false} WalkEntriesContains(excluded: set<string>, maxDepth: int, root: Paths.Path, dir: Paths.Path, es: seq<Entry>, k: nat)
    requires k < |es|
    ensures forall r :: r in WalkEntry(excluded, maxDepth, root, dir, es[k]) ==> r in WalkEntries(excluded, maxDepth, root, dir, es)
    decreases k
  {
    if k > 0 {
      WalkEntriesContains(excluded, maxDepth, root, dir, es[1..], k - 1);
      assert es[1..][k - 1] == es[k];
    }
  }

  /** Every directory from `dir` down to the ".git" at `rel` passes the
      depth check. */
  predicate WithinDepth(maxDepth: int, root: Paths.Path, dir: Paths.Path, rel: Paths.Path) {
    maxDepth > 0 ==> forall j :: 1 <= j <= |rel| + 1 ==> Paths.DepthFrom(root, dir + (rel + [".git"])[..j]) <= maxDepth
  }

  lemma WithinDepthFirst(maxDepth: int, root: Paths.Path, dir: Paths.Path, rel: Paths.Path)
    requires WithinDepth(maxDepth, root, dir, rel)
    ensures maxDepth > 0 ==> Paths.DepthFrom(root, dir + [(rel + [".git"])[0]]) <= maxDepth
  {
    assert (rel + [".git"])[..1] == [(rel + [".git"])[0]];
  }

  lemma WithinDepthStep(maxDepth: int, root: Paths.Path, dir: Paths.Path, rel: Paths.Path)
    requires rel != [] && WithinDepth(maxDepth, root, dir, rel)
    ensures WithinDepth(maxDepth, root, dir + [rel[0]], rel[1..])
  {
    if maxDepth > 0 {
      var t := rel + [".git"];
      assert rel[1..] + [".git"] == t[1..];
      forall j | 1 <= j <= |rel[1..]| + 1
        ensures Paths.DepthFrom(root, dir + [rel[0]] + t[1..][..j]) <= maxDepth
      {
        assert t[1..][..j] == t[1..j + 1];
        assert [rel[0]] + t[1..j + 1] == t[..j + 1];
        assert dir + [rel[0]] + t[1..][..j] == dir + t[..j + 1];
      }
    }
  }

  /** A ".git" directory is found when no directory on the way to it is
      excluded or ".git" and all of them pass the depth check; nested
      repositories are found too, because only the ".git" directory itself
      is skipped. */
  lemma {:induction false} WalkEntriesComplete(excluded: set<string>, maxDepth: int, root: Paths.Path, dir: Paths.Path, es: seq<Entry>, rel: Paths.Path)
    requires HasRepoAt(es, rel)
    requires forall i :: 0 <= i < |rel| ==> rel[i] !in excluded && rel[i] != ".git"
    requires WithinDepth(maxDepth, root, dir, rel)
    ensures dir + rel in WalkEntries(excluded, maxDepth, root, dir, es)
    decreases |rel|
  {
    WithinDepthFirst(maxDepth, root, dir, rel);
    if rel == [] {
      var e :| e in es && e.Dir? && e.name == ".git";
      var k :| 0 <= k < |es| && es[k] == e;
      assert [(rel + [".git"])[0]] == [".git"];
      assert Paths.Base(dir + [".git"]) == ".git";
      assert Visit(excluded, maxDepth, root, dir + [".git"]) == Report;
      assert dir + rel == dir;
      WalkEntriesContains(excluded, maxDepth, root, dir, es, k);
    } else {
      var e :| e in es && e.Dir? && e.name == rel[0] && HasRepoAt(e.children, rel[1..]);
      var k :| 0 <= k < |es| && es[k] == e;
      var path := dir + [rel[0]];
      assert (rel + [".git"])[0] == rel[0];
      assert Paths.Base(path) == rel[0];
      assert Visit(excluded, maxDepth, root, path) == Descend;
      WithinDepthStep(maxDepth, root, dir, rel);
      forall i | 0 <= i < |rel[1..]| ensures rel[1..][i] !in excluded && rel[1..][i] != ".git" {
        assert rel[1..][i] == rel[i + 1];
      }
      WalkEntriesComplete(excluded, maxDepth, root, path, e.children, rel[1..]);
      assert path + rel[1..] == dir + rel;
      WalkEntriesContains(excluded, maxDepth, root, dir, es, k);
    }
  }

  /** Below a clean root the depth check reduces to counting segments. */
  lemma WithinDepthClean(maxDepth: int, root: Paths.Path, rel: Paths.Path)
    requires Paths.Clean(root + rel + [".git"])
    requires maxDepth > 0 ==> |rel| + 1 <= maxDepth
    ensures WithinDepth(maxDepth, root, root, rel)
  {
    if maxDepth > 0 {
      forall j | 1 <= j <= |rel| + 1 ensures Paths.DepthFrom(root, root + (rel + [".git"])[..j]) <= maxDepth {
        var x := (rel + [".git"])[..j];
        assert root + x == (root + rel + [".git"])[..|root| + j];
        Paths.CleanPrefix(root + rel + [".git"], |root| + j);
        Paths.DepthFromBelow(root, x);
      }
    }
  }

  /** Below a clean root whose name is neither excluded nor ".git", every
      ".git" directory at most `maxDepth` levels down whose way from the
      root has no excluded and no ".git" directory is reported. */
  lemma WalkRootComplete(excluded: set<string>, maxDepth: int, root: Paths.Path, children: seq<Entry>, rel: Paths.Path)
    requires Paths.Clean(root + rel + [".git"])
    requires Paths.Base(root) !in excluded && Paths.Base(root) != ".git"
    requires HasRepoAt(children, rel)
    requires forall i :: 0 <= i < |rel| ==> rel[i] !in excluded && rel[i] != ".git"
    requires maxDepth > 0 ==> |rel| + 1 <= maxDepth
    ensures root + rel in WalkRoot(excluded, maxDepth, root, children)
  {
    Paths.DepthFromSelf(root);
    assert Visit(excluded, maxDepth, root, root) == Descend;
    WithinDepthClean(maxDepth, root, rel);
    WalkEntriesComplete(excluded, maxDepth, root, root, children, rel);
  }

  // ---------------- The collector ----------------

  function Id(s: string): string { s }

  /** The collector's result for the directories in the order the channel
      delivered them: the first copy of each, then slices.Sort. */
  function Collected(emitted: seq<string>): seq<string> {
    Slices.SortBy(Slices.DedupBy(emitted, Id, {}), Strings.Le)
  }

  /** The receive loop of main.go:312-320 with its seen-map, then the sort. */
  method Collect(emitted: seq<string>) returns (repos: seq<string>)
    ensures repos == Collected(emitted)
  {
    var seen: set<string> := {};
    repos := [];
    var i := 0;
    while i < |emitted|
      invariant 0 <= i <= |emitted|
      invariant repos + Slices.DedupBy(emitted[i..], Id, seen) == Slices.DedupBy(emitted, Id, {})
    {
      var dir := emitted[i];
      assert emitted[i..][1..] == emitted[i + 1..];
      if dir !in seen {
        seen := seen + {dir};
        repos := repos + [dir];
      }
      i := i + 1;
    }
    assert emitted[i..] == [];
    assert repos + [] == repos;
    assert repos == Slices.DedupBy(emitted, Id, {});
    repos := Slices.SortBy(repos, Strings.Le);
  }

  /** The collected directories are exactly those delivered, each once, in
      increasing order. */
  lemma CollectedExact(emitted: seq<string>)
    ensures Strings.Increasing(Collected(emitted))
    ensures forall x :: x in Collected(emitted) <==> x in emitted
  {
    var d := Slices.DedupBy(emitted, Id, {});
    var r := Collected(emitted);
    Slices.DedupByDistinct(emitted, Id, {});
    assert Slices.Distinct(d) by {
      forall i, j | 0 <= i < j < |d| ensures d[i] != d[j] {
        assert Id(d[i]) != Id(d[j]);
      }
    }
    Slices.DistinctPermutation(d, r);
    Strings.LeTotalPreorder();
    Slices.SortByIsSorted(d, Strings.Le);
    forall i, j | 0 <= i < j < |r| ensures Strings.Less(r[i], r[j]) {
      Strings.LessTotal(r[i], r[j]);
    }
    Slices.DedupByElements(emitted, Id, {});
    Slices.DedupByKeepsKeys(emitted, Id, {});
    forall x ensures x in r <==> x in emitted {
      if x in r {
        assert x in multiset(r);
        assert x in multiset(emitted);
      }
      if x in emitted {
        var i :| 0 <= i < |emitted| && emitted[i] == x;
        var j :| 0 <= j < |d| && Id(d[j]) == Id(emitted[i]);
        assert d[j] in multiset(r);
      }
    }
  }

  /** The result does not depend on the order in which the concurrent walks
      deliver their directories, nor on repeats: only on which directories
      are delivered. */
  lemma CollectedOrderIrrelevant(e1: seq<string>, e2: seq<string>)
    requires forall x :: x in e1 <==> x in e2
    ensures Collected(e1) == Collected(e2)
  {
    CollectedExact(e1);
    CollectedExact(e2);
    Strings.IncreasingUnique(Collected(e1), Collected(e2));
  }

  // ---------------- The scan ----------------

  /** A scan path after expansion, with the tree below it. */
  datatype Root = Root(path: Paths.Path, children: seq<Entry>)

  /** The directories as the walks send them, as text. */
  function Texts(ps: seq<Paths.Path>): (ts: seq<string>)
    ensures |ts| == |ps| && forall i :: 0 <= i < |ps| ==> ts[i] == Paths.ToString(ps[i])
  {
    seq(|ps|, i requires 0 <= i < |ps| => Paths.ToString(ps[i]))
  }

  /** What the walks of all roots send, one root after another. */
  function Emitted(excluded: set<string>, maxDepth: int, roots: seq<Root>): seq<string>
    decreases |roots|
  {
    if roots == [] then []
    else Texts(WalkRoot(excluded, maxDepth, roots[0].path, roots[0].children)) + Emitted(excluded, maxDepth, roots[1..])
  }

  function ExcludedSet(exclude: seq<string>): set<string> {
    set n | n in exclude
  }

  /** scanGitReposConcurrent as a value: the collected results of walking
      every root with the configured exclusions and depth limit. */
  function Scanned(cfg: Config.Config, roots: seq<Root>): seq<string> {
    Collected(Emitted(ExcludedSet(cfg.exclude), cfg.maxDepth, roots))
  }

  /** scanGitReposConcurrent (main.go:265-322), with its walks run one root
      after another: the exclusion set built from the list, the walks, and
      the collector. */
  method ScanGitRepos(cfg: Config.Config, roots: seq<Root>) returns (repos: seq<string>)
    ensures repos == Scanned(cfg, roots)
  {
    var excluded: set<string> := {};
    var i := 0;
    while i < |cfg.exclude|
      invariant 0 <= i <= |cfg.exclude|
      invariant excluded == set n | n in cfg.exclude[..i]
    {
      assert cfg.exclude[..i + 1] == cfg.exclude[..i] + [cfg.exclude[i]];
      excluded := excluded + {cfg.exclude[i]};
      i := i + 1;
    }
    assert cfg.exclude[..i] == cfg.exclude;
    var emitted: seq<string> := [];
    var k := 0;
    while k < |roots|
      invariant 0 <= k <= |roots|
      invariant emitted + Emitted(excluded, cfg.maxDepth, roots[k..]) == Emitted(excluded, cfg.maxDepth, roots)
    {
      assert roots[k..][1..] == roots[k + 1..];
      emitted := emitted + Texts(WalkRoot(excluded, cfg.maxDepth, roots[k].path, roots[k].children));
      k := k + 1;
    }
    assert roots[k..] == [];
    assert emitted + [] == emitted;
    repos := Collect(emitted);
  }

  /** A directory is sent exactly when the walk of one of the roots reports it. */
  lemma {:induction false} EmittedMembers(excluded: set<string>, maxDepth: int, roots: seq<Root>)
    ensures forall x :: x in Emitted(excluded, maxDepth, roots) <==>
      exists k :: 0 <= k < |roots| && x in Texts(WalkRoot(excluded, maxDepth, roots[k].path, roots[k].children))
    decreases |roots|
  {
    if roots != [] {
      EmittedMembers(excluded, maxDepth, roots[1..]);
      forall x ensures x in Emitted(excluded, maxDepth, roots) <==>
        exists k :: 0 <= k < |roots| && x in Texts(WalkRoot(excluded, maxDepth, roots[k].path, roots[k].children))
      {
        if exists k :: 0 <= k < |roots| && x in Texts(WalkRoot(excluded, maxDepth, roots[k].path, roots[k].children)) {
          var k :| 0 <= k < |roots| && x in Texts(WalkRoot(excluded, maxDepth, roots[k].path, roots[k].children));
          if k > 0 {
            assert roots[1..][k - 1] == roots[k];
          }
        }
        if x in Emitted(excluded, maxDepth, roots[1..]) {
          var k :| 0 <= k < |roots[1..]| && x in Texts(WalkRoot(excluded, maxDepth, roots[1..][k].path, roots[1..][k].children));
          assert roots[1..][k] == roots[k + 1];
        }
      }
    }
  }

  /** The scan's result: increasing, without repeats, and made of exactly
      the directories some root's walk reports. */
  lemma ScannedExact(cfg: Config.Config, roots: seq<Root>)
    ensures Strings.Increasing(Scanned(cfg, roots))
    ensures forall x :: x in Scanned(cfg, roots) <==>
      exists k :: 0 <= k < |roots| && x in Texts(WalkRoot(ExcludedSet(cfg.exclude), cfg.maxDepth, roots[k].path, roots[k].children))
  {
    CollectedExact(Emitted(ExcludedSet(cfg.exclude), cfg.maxDepth, roots));
    EmittedMembers(ExcludedSet(cfg.exclude), cfg.maxDepth, roots);
  }

  /** Every repository found lies below a root, within the depth limit, with
      no excluded and no ".git" directory on the way down (or is the parent
      of a root that is itself a ".git" directory). */
  lemma ScannedSound(cfg: Config.Config, roots: seq<Root>, x: string)
    requires x in Scanned(cfg, roots)
    ensures exists k, p :: (0 <= k < |roots| && x == Paths.ToString(p)
      && p in WalkRoot(ExcludedSet(cfg.exclude), cfg.maxDepth, roots[k].path, roots[k].children)
      && if Paths.Base(roots[k].path) == ".git" then p == Paths.Dir(roots[k].path)
         else Acceptable(ExcludedSet(cfg.exclude), cfg.maxDepth, roots[k].path, roots[k].path, p))
  {
    ScannedExact(cfg, roots);
    var ex := ExcludedSet(cfg.exclude);
    var k :| 0 <= k < |roots| && x in Texts(WalkRoot(ex, cfg.maxDepth, roots[k].path, roots[k].children));
    var w := WalkRoot(ex, cfg.maxDepth, roots[k].path, roots[k].children);
    var i :| 0 <= i < |w| && Texts(w)[i] == x;
    WalkRootSound(ex, cfg.maxDepth, roots[k].path, roots[k].children);
    assert w[i] in w;
  }

  /** Every repository below a clean root within the depth limit, with no
      excluded and no ".git" directory on the way down, is found. */
  lemma ScannedComplete(cfg: Config.Config, roots: seq<Root>, k: nat, rel: Paths.Path)
    requires k < |roots|
    requires Paths.Clean(roots[k].path + rel + [".git"])
    requires Paths.Base(roots[k].path) !in cfg.exclude && Paths.Base(roots[k].path) != ".git"
    requires HasRepoAt(roots[k].children, rel)
    requires forall i :: 0 <= i < |rel| ==> rel[i] !in cfg.exclude && rel[i] != ".git"
    requires cfg.maxDepth > 0 ==> |rel| + 1 <= cfg.maxDepth
    ensures Paths.ToString(roots[k].path + rel) in Scanned(cfg, roots)
  {
    var ex := ExcludedSet(cfg.exclude);
    WalkRootComplete(ex, cfg.maxDepth, roots[k].path, roots[k].children, rel);
    var w := WalkRoot(ex, cfg.maxDepth, roots[k].path, roots[k].children);
    var i :| 0 <= i < |w| && w[i] == roots[k].path + rel;
    assert Texts(w)[i] == Paths.ToString(roots[k].path + rel);
    ScannedExact(cfg, roots);
  }

  /** The tree of main_test.go:55-59: repositories r1 and x/r2, and one
      under node_modules. */
  function ExampleTree(): seq<Entry> {
    [Dir("r1", [Dir(".git", [])]),
     Dir("x", [Dir("r2", [Dir(".git", [])])]),
     Dir("node_modules", [Dir("bad", [Dir(".git", [])])])]
  }

  /** Below a clean root, a directory within the depth limit is decided
      by its name alone. */
  lemma VisitBelow(excluded: set<string>, maxDepth: int, root: Paths.Path, rest: Paths.Path)
    requires rest != [] && Paths.Clean(root + rest)
    requires maxDepth > 0 ==> |rest| <= maxDepth
    ensures var name := rest[|rest| - 1];
      Visit(excluded, maxDepth, root, root + rest)
        == if name != ".git" && name in excluded then Prune else if name == ".git" then Report else Descend
  {
    Paths.DepthFromBelow(root, rest);
  }

  lemma DefaultExcludedNames(excluded: set<string>)
    requires excluded == ExcludedSet(Config.DefaultExclude())
    ensures "r1" !in excluded && "x" !in excluded && "r2" !in excluded && "node_modules" in excluded
  {
    Config.DefaultExcludeNames();
  }

  /** A directory holding only a ".git" directory, within the depth limit
      and not excluded, reports itself. */
  lemma RepoLeaf(excluded: set<string>, maxDepth: int, root: Paths.Path, dir: Paths.Path, name: string)
    requires Paths.Clean(dir) && |root| <= |dir| && dir[..|root|] == root
    requires name != "" && name != "." && name != ".." && '/' !in name
    requires name !in excluded && name != ".git"
    requires maxDepth > 0 ==> |dir| - |root| + 2 <= maxDepth
    ensures WalkEntry(excluded, maxDepth, root, dir, Dir(name, [Dir(".git", [])])) == [dir + [name]]
  {
    var rest := dir[|root|..];
    assert dir == root + rest;
    Paths.CleanSnoc(dir, name);
    Paths.CleanSnoc(dir + [name], ".git");
    assert dir + [name] == root + (rest + [name]);
    assert dir + [name] + [".git"] == root + (rest + [name, ".git"]);
    VisitBelow(excluded, maxDepth, root, rest + [name]);
    VisitBelow(excluded, maxDepth, root, rest + [name, ".git"]);
  }

  /** An excluded directory other than ".git" reports nothing. */
  lemma ExcludedEntry(excluded: set<string>, maxDepth: int, root: Paths.Path, dir: Paths.Path, name: string, children: seq<Entry>)
    requires Paths.Clean(dir) && |root| <= |dir| && dir[..|root|] == root
    requires name != "" && name != "." && name != ".." && '/' !in name
    requires name in excluded && name != ".git"
    requires maxDepth > 0 ==> |dir| - |root| + 1 <= maxDepth
    ensures WalkEntry(excluded, maxDepth, root, dir, Dir(name, children)) == []
  {
    var rest := dir[|root|..];
    assert dir == root + rest;
    Paths.CleanSnoc(dir, name);
    assert dir + [name] == root + (rest + [name]);
    VisitBelow(excluded, maxDepth, root, rest + [name]);
  }

  lemma ExampleR2(root: Paths.Path, excluded: set<string>)
    requires Paths.Clean(root) && "x" !in excluded && "r2" !in excluded
    ensures WalkEntry(excluded, 3, root, root, Dir("x", [Dir("r2", [Dir(".git", [])])])) == [root + ["x", "r2"]]
  {
    VisitBelow(excluded, 3, root, ["x"]);
    Paths.CleanSnoc(root, "x");
    assert (root + ["x"])[..|root|] == root;
    RepoLeaf(excluded, 3, root, root + ["x"], "r2");
    assert root + ["x"] + ["r2"] == root + ["x", "r2"];
  }

  /** A root that is neither excluded nor ".git" is walked into. */
  lemma VisitRoot(excluded: set<string>, maxDepth: int, root: Paths.Path)
    requires Paths.Base(root) !in excluded && Paths.Base(root) != ".git"
    ensures Visit(excluded, maxDepth, root, root) == Descend
  {
    Paths.DepthFromSelf(root);
  }

  lemma ExampleLast(root: Paths.Path, excluded: set<string>)
    requires Paths.Clean(root) && "node_modules" in excluded
    ensures WalkEntries(excluded, 3, root, root, ExampleTree()[2..]) == []
  {
    var t := ExampleTree()[2..];
    assert root[..|root|] == root;
    assert t == [Dir("node_modules", [Dir("bad", [Dir(".git", [])])])] && t[1..] == [];
    ExcludedEntry(excluded, 3, root, root, "node_modules", [Dir("bad", [Dir(".git", [])])]);
  }

  lemma ExampleRest(root: Paths.Path, excluded: set<string>)
    requires Paths.Clean(root)
    requires "x" !in excluded && "r2" !in excluded && "node_modules" in excluded
    ensures WalkEntries(excluded, 3, root, root, ExampleTree()[1..]) == [root + ["x", "r2"]]
  {
    var t := ExampleTree()[1..];
    assert t[0] == Dir("x", [Dir("r2", [Dir(".git", [])])]) && t[1..] == ExampleTree()[2..];
    ExampleLast(root, excluded);
    ExampleR2(root, excluded);
  }

  lemma ExampleEntries(root: Paths.Path, excluded: set<string>)
    requires Paths.Clean(root)
    requires "r1" !in excluded && "x" !in excluded && "r2" !in excluded && "node_modules" in excluded
    ensures WalkEntries(excluded, 3, root, root, ExampleTree()) == [root + ["r1"], root + ["x", "r2"]]
  {
    var t := ExampleTree();
    assert root[..|root|] == root;
    assert t[0] == Dir("r1", [Dir(".git", [])]);
    ExampleRest(root, excluded);
    RepoLeaf(excluded, 3, root, root, "r1");
  }

  /** With depth 3 and an exclusion set that, like the default one, names
      node_modules but none of r1, x and r2, the walk of that tree finds r1
      and x/r2, in walk order, and nothing under node_modules. */
  lemma ExampleWalk(root: Paths.Path, excluded: set<string>)
    requires Paths.Clean(root) && Paths.Base(root) !in excluded && Paths.Base(root) != ".git"
    requires "r1" !in excluded && "x" !in excluded && "r2" !in excluded && "node_modules" in excluded
    ensures WalkRoot(excluded, 3, root, ExampleTree()) == [root + ["r1"], root + ["x", "r2"]]
  {
    VisitRoot(excluded, 3, root);
    ExampleEntries(root, excluded);
  }

  /** Two different directories are collected as two. */
  lemma CollectedTwo(a: string, b: string)
    requires a != b
    ensures var r := Collected([a, b]);
      |r| == 2 && forall x :: x in r <==> x == a || x == b
  {
    var e := [a, b];
    assert e[1..] == [b] && e[1..][1..] == [];
    assert Slices.DedupBy([b], Id, {a}) == [b];
    var none: set<string> := {};
    assert none + {Id(a)} == {a};
    assert Slices.DedupBy(e, Id, none) == [a] + Slices.DedupBy(e[1..], Id, none + {Id(a)});
    assert Slices.DedupBy(e, Id, {}) == [a, b];
    CollectedExact(e);
    assert |multiset(Collected(e))| == |multiset([a, b])|;
  }

  /** The two repositories of the example tree have different texts. */
  lemma ExampleTexts(root: Paths.Path)
    requires Paths.Clean(root)
    ensures Paths.ToString(root + ["r1"]) != Paths.ToString(root + ["x", "r2"])
  {
    Paths.CleanSnoc(root, "r1");
    Paths.CleanSnoc(root, "x");
    Paths.CleanSnoc(root + ["x"], "r2");
    assert root + ["x"] + ["r2"] == root + ["x", "r2"];
    Paths.ToStringInjective(root + ["r1"], root + ["x", "r2"]);
    assert (root + ["r1"])[|root|] != (root + ["x", "r2"])[|root|];
  }

  /** main_test.go:54-69: scanning that tree with the default exclusions
      and depth 3 finds exactly two repositories. */
  lemma ScanExample(cfg: Config.Config, root: Paths.Path)
    requires cfg.exclude == Config.DefaultExclude() && cfg.maxDepth == 3
    requires Paths.Clean(root) && Paths.Base(root) !in cfg.exclude && Paths.Base(root) != ".git"
    ensures var r := Scanned(cfg, [Root(root, ExampleTree())]);
      |r| == 2 && forall x :: x in r <==> x == Paths.ToString(root + ["r1"]) || x == Paths.ToString(root + ["x", "r2"])
  {
    var ex := ExcludedSet(cfg.exclude);
    DefaultExcludedNames(ex);
    ExampleEmitted(root, ex);
    ExampleTexts(root);
    CollectedTwo(Paths.ToString(root + ["r1"]), Paths.ToString(root + ["x", "r2"]));
  }

  /** The one root of the example tree delivers its two repositories. */
  lemma ExampleEmitted(root: Paths.Path, excluded: set<string>)
    requires Paths.Clean(root) && Paths.Base(root) !in excluded && Paths.Base(root) != ".git"
    requires "r1" !in excluded && "x" !in excluded && "r2" !in excluded && "node_modules" in excluded
    ensures Emitted(excluded, 3, [Root(root, ExampleTree())])
      == [Paths.ToString(root + ["r1"]), Paths.ToString(root + ["x", "r2"])]
  {
    ExampleWalk(root, excluded);
    var roots := [Root(root, ExampleTree())];
    assert roots[1..] == [];
  }
}

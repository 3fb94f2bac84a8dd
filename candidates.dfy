/** The candidate list of main (main.go:606-641): live sessions, then the
    discovered repositories, then the bookmarks, de-duplicated by key with
    the first occurrence kept and the order preserved. */
module Candidates {
  import Slices
  import Paths
  import Names
  import Items

  /** The candidate for a repository or bookmark directory. */
  function DirItem(kind: Items.Kind, p: Paths.Path): Items.Item {
    Items.Item(kind, Names.SessionNameFromPath(p), Paths.ToString(p))
  }

  function SessionItems(sessions: seq<string>): (r: seq<Items.Item>)
    ensures |r| == |sessions| && forall i :: 0 <= i < |sessions| ==> r[i] == Items.Item(Items.Session, sessions[i], "")
  {
    seq(|sessions|, i requires 0 <= i < |sessions| => Items.Item(Items.Session, sessions[i], ""))
  }

  function DirItems(kind: Items.Kind, ps: seq<Paths.Path>): (r: seq<Items.Item>)
    ensures |r| == |ps| && forall i :: 0 <= i < |ps| ==> r[i] == DirItem(kind, ps[i])
  {
    seq(|ps|, i requires 0 <= i < |ps| => DirItem(kind, ps[i]))
  }

  /** The three append loops as a value. */
  function Assembled(sessions: seq<string>, repos: seq<Paths.Path>, bookmarks: seq<Paths.Path>): seq<Items.Item> {
    SessionItems(sessions) + DirItems(Items.GitRepo, repos) + DirItems(Items.Bookmark, bookmarks)
  }

  lemma SessionItemsSnoc(sessions: seq<string>, i: nat)
    requires i < |sessions|
    ensures SessionItems(sessions[..i + 1]) == SessionItems(sessions[..i]) + [Items.Item(Items.Session, sessions[i], "")]
  {
  }

  lemma DirItemsSnoc(kind: Items.Kind, ps: seq<Paths.Path>, i: nat)
    requires i < |ps|
    ensures DirItems(kind, ps[..i + 1]) == DirItems(kind, ps[..i]) + [DirItem(kind, ps[i])]
  {
  }

  /** main.go:606-623: the sessions, the repositories found by the scan and
      the bookmarks that expanded, one append loop each. */
  method Assemble(sessions: seq<string>, repos: seq<Paths.Path>, bookmarks: seq<Paths.Path>) returns (items: seq<Items.Item>)
    ensures items == Assembled(sessions, repos, bookmarks)
  {
    items := [];
    var i := 0;
    while i < |sessions|
      invariant 0 <= i <= |sessions|
      invariant items == SessionItems(sessions[..i])
    {
      SessionItemsSnoc(sessions, i);
      items := items + [Items.Item(Items.Session, sessions[i], "")];
      i := i + 1;
    }
    assert sessions[..i] == sessions;
    var base := items;
    i := 0;
    while i < |repos|
      invariant 0 <= i <= |repos|
      invariant items == base + DirItems(Items.GitRepo, repos[..i])
    {
      DirItemsSnoc(Items.GitRepo, repos, i);
      items := items + [DirItem(Items.GitRepo, repos[i])];
      i := i + 1;
    }
    assert repos[..i] == repos;
    base := items;
    i := 0;
    while i < |bookmarks|
      invariant 0 <= i <= |bookmarks|
      invariant items == base + DirItems(Items.Bookmark, bookmarks[..i])
    {
      DirItemsSnoc(Items.Bookmark, bookmarks, i);
      items := items + [DirItem(Items.Bookmark, bookmarks[i])];
      i := i + 1;
    }
    assert bookmarks[..i] == bookmarks;
  }

  /** Names derived from directories never contain '|'. */
  lemma DirItemsNoBar(kind: Items.Kind, ps: seq<Paths.Path>)
    ensures forall it :: it in DirItems(kind, ps) ==> '|' !in it.name
  {
    forall it | it in DirItems(kind, ps) ensures '|' !in it.name {
      var k :| 0 <= k < |ps| && DirItems(kind, ps)[k] == it;
      Names.SessionNameNoBar(ps[k]);
    }
  }

  /** Repository and bookmark names never contain '|'. */
  lemma AssembledNames(sessions: seq<string>, repos: seq<Paths.Path>, bookmarks: seq<Paths.Path>)
    ensures forall it :: it in Assembled(sessions, repos, bookmarks) && it.kind != Items.Session ==> '|' !in it.name
  {
    DirItemsNoBar(Items.GitRepo, repos);
    DirItemsNoBar(Items.Bookmark, bookmarks);
  }

  // ---------------- De-duplication ----------------

  /** The de-duplication loop as a value. */
  function Deduped(items: seq<Items.Item>): seq<Items.Item> {
    Slices.DedupBy(items, Items.DedupKey, {})
  }

  /** main.go:625-641: the seen-map loop. */
  method Dedup(items: seq<Items.Item>) returns (uniq: seq<Items.Item>)
    ensures uniq == Deduped(items)
  {
    var seen: set<string> := {};
    uniq := [];
    var i := 0;
    while i < |items|
      invariant 0 <= i <= |items|
      invariant uniq + Slices.DedupBy(items[i..], Items.DedupKey, seen) == Deduped(items)
    {
      var it := items[i];
      assert items[i..][1..] == items[i + 1..];
      var key := "";
      if it.kind == Items.Session {
        key := "S|" + it.name;
      } else {
        key := Items.Tag(it.kind) + "|" + it.name + "|" + it.path;
      }
      assert key == Items.DedupKey(it);
      if key !in seen {
        seen := seen + {key};
        uniq := uniq + [it];
      }
      i := i + 1;
    }
    assert items[i..] == [];
    assert uniq + [] == uniq;
  }

  /** The keys of a list of candidates. */
  function Keys(items: seq<Items.Item>): set<string> {
    set it | it in items :: Items.DedupKey(it)
  }

  /** De-duplication keeps input order and keeps only first occurrences:
      each kept candidate is the first of the input with its key. */
  lemma DedupedFirstOccurrences(items: seq<Items.Item>)
    ensures Slices.IsSubsequence(Deduped(items), items)
    ensures Slices.KeysDistinct(Deduped(items), Items.DedupKey)
    ensures forall j :: 0 <= j < |Deduped(items)| ==>
      var i := Slices.FirstKeyIndex(items, Items.DedupKey, Items.DedupKey(Deduped(items)[j]));
      i < |items| && items[i] == Deduped(items)[j]
  {
    Slices.DedupBySubsequence(items, Items.DedupKey, {});
    Slices.DedupByDistinct(items, Items.DedupKey, {});
    Slices.DedupByFirstWins(items, Items.DedupKey, {});
  }

  /** No key is lost: the kept keys are exactly the input's. */
  lemma DedupedKeys(items: seq<Items.Item>)
    ensures Keys(Deduped(items)) == Keys(items)
  {
    var u := Deduped(items);
    Slices.DedupByElements(items, Items.DedupKey, {});
    Slices.DedupByKeepsKeys(items, Items.DedupKey, {});
    forall k | k in Keys(u) ensures k in Keys(items) {
      var it :| it in u && Items.DedupKey(it) == k;
      assert it in multiset(u);
    }
    forall k | k in Keys(items) ensures k in Keys(u) {
      var it :| it in items && Items.DedupKey(it) == k;
      var i :| 0 <= i < |items| && items[i] == it;
      var j :| 0 <= j < |u| && Items.DedupKey(u[j]) == Items.DedupKey(items[i]);
      assert u[j] in u;
    }
  }

  /** After de-duplicating the assembled list, sessions are unique by name,
      and repositories and bookmarks are unique by kind, name and path. */
  lemma DedupedUnique(sessions: seq<string>, repos: seq<Paths.Path>, bookmarks: seq<Paths.Path>)
    ensures var u := Deduped(Assembled(sessions, repos, bookmarks));
      forall i, j :: 0 <= i < j < |u| && u[i].kind == u[j].kind ==>
        u[i].name != u[j].name || (u[i].kind != Items.Session && u[i].path != u[j].path)
  {
    var items := Assembled(sessions, repos, bookmarks);
    var u := Deduped(items);
    AssembledNames(sessions, repos, bookmarks);
    Slices.DedupByDistinct(items, Items.DedupKey, {});
    Slices.DedupByElements(items, Items.DedupKey, {});
    forall i, j | 0 <= i < j < |u| && u[i].kind == u[j].kind
      ensures u[i].name != u[j].name || (u[i].kind != Items.Session && u[i].path != u[j].path)
    {
      assert u[i] in multiset(u) && u[j] in multiset(u);
      Items.DedupKeyInjective(u[i], u[j]);
    }
  }

  /** A session and a repository of the same name are both kept: the keys
      of different kinds never collide. */
  lemma KindsNeverCollide(a: Items.Item, b: Items.Item)
    requires a.kind != b.kind
    ensures Items.DedupKey(a) != Items.DedupKey(b)
  {
    assert Items.DedupKey(a)[0] == Items.Tag(a.kind)[0];
    assert Items.DedupKey(b)[0] == Items.Tag(b.kind)[0];
  }
}

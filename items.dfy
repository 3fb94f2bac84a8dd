/** The candidates the selector offers (main.go:127-139): live tmux
    sessions, discovered git repositories and configured bookmarks, and the
    key under which the candidate list is de-duplicated (main.go:629-634). */
module Items {

  /** ItemKind, written "S", "G" and "B". */
  datatype Kind = Session | GitRepo | Bookmark

  function Tag(k: Kind): (t: string)
    ensures |t| == 1 && t[0] != '|'
  {
    match k
    case Session => "S"
    case GitRepo => "G"
    case Bookmark => "B"
  }

  /** A candidate: a session has an empty path; a repository or bookmark has
      the directory a new session starts in. */
  datatype Item = Item(kind: Kind, name: string, path: string)

  /** The de-duplication key: "S|name" for a session, "kind|name|path"
      otherwise. */
  function DedupKey(it: Item): string {
    if it.kind == Session then "S|" + it.name
    else Tag(it.kind) + "|" + it.name + "|" + it.path
  }

  /** Splitting at the first '|' recovers both halves. */
  lemma SplitAtBar(x: string, y: string, x': string, y': string)
    requires '|' !in x && '|' !in x'
    requires x + "|" + y == x' + "|" + y'
    ensures x == x' && y == y'
  {
    var s := x + "|" + y;
    assert |x| == |x'| by {
      assert forall i :: 0 <= i < |x| ==> s[i] == x[i] && x[i] in x;
      assert forall i :: 0 <= i < |x'| ==> s[i] == x'[i] && x'[i] in x';
      assert s[|x|] == '|' && s[|x'|] == '|';
    }
    assert x == s[..|x|] && x' == s[..|x'|];
    assert y == s[|x| + 1..] && y' == s[|x'| + 1..];
  }

  /** Two candidates share a key exactly when they are sessions of the same
      name, or repositories (bookmarks) with the same name and path, given
      that repository and bookmark names contain no '|' (which derived
      session names never do). */
  lemma DedupKeyInjective(a: Item, b: Item)
    requires a.kind != Session ==> '|' !in a.name
    requires b.kind != Session ==> '|' !in b.name
    ensures DedupKey(a) == DedupKey(b)
      <==> a.kind == b.kind && a.name == b.name && (a.kind == Session || a.path == b.path)
  {
    var ka, kb := DedupKey(a), DedupKey(b);
    if ka == kb {
      assert ka[0] == kb[0];
      assert ka[0] == Tag(a.kind)[0] && kb[0] == Tag(b.kind)[0];
      assert a.kind == b.kind;
      if a.kind == Session {
        assert a.name == ka[2..] && b.name == kb[2..];
      } else {
        var t := Tag(a.kind);
        assert ka == t + "|" + (a.name + "|" + a.path);
        assert kb == t + "|" + (b.name + "|" + b.path);
        SplitAtBar(t, a.name + "|" + a.path, t, b.name + "|" + b.path);
        SplitAtBar(a.name, a.path, b.name, b.path);
      }
    }
  }
}

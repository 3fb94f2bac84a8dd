/** Session-name derivation: `sanitize` turns a directory name into a tmux
    session name, and `sessionNameFromPath` prefixes it with the sanitized
    parent directory so that equal leaf names in different places do not
    collide (main.go:141-179). */
module Names {
  import Strings
  import Paths

  /** The characters a session name keeps: ASCII letters, digits, '.', '_', '-'. */
  predicate IsNameChar(c: char) {
    ('a' <= c <= 'z') || ('A' <= c <= 'Z') || ('0' <= c <= '9') || c == '.' || c == '_' || c == '-'
  }

  predicate IsDash(c: char) {
    c == '-'
  }

  /** What sanitize promises of its result: non-empty, only name characters,
      no '-' at either end. */
  predicate WellFormed(name: string) {
    name != []
    && (forall i :: 0 <= i < |name| ==> IsNameChar(name[i]))
    && name[0] != '-' && name[|name| - 1] != '-'
  }

  /** The builder loop of sanitize from a given `prevDash` state: name
      characters are copied, and each run of other characters becomes one
      '-' (none if the run continues one already written). */
  function Squash(s: string, prevDash: bool): string
    decreases |s|
  {
    if s == [] then []
    else if IsNameChar(s[0]) then [s[0]] + Squash(s[1..], false)
    else if prevDash then Squash(s[1..], true)
    else ['-'] + Squash(s[1..], true)
  }

  /** The builder only ever writes name characters. */
  lemma {:induction false} SquashNameChars(s: string, prevDash: bool)
    ensures forall i :: 0 <= i < |Squash(s, prevDash)| ==> IsNameChar(Squash(s, prevDash)[i])
    decreases |s|
  {
    if s != [] {
      SquashNameChars(s[1..], !IsNameChar(s[0]));
    }
  }

  /** One step of the builder loop. */
  lemma SquashStep(s: string, prevDash: bool)
    requires s != []
    ensures Squash(s, prevDash)
      == (if IsNameChar(s[0]) then [s[0]] else if prevDash then [] else ['-']) + Squash(s[1..], !IsNameChar(s[0]))
  {
  }

  /** A run of characters that are not name characters becomes one '-', or
      nothing when it continues a run whose '-' is already written. */
  lemma {:induction false} SquashRun(w: string, s: string, prevDash: bool)
    requires w != [] && forall i :: 0 <= i < |w| ==> !IsNameChar(w[i])
    ensures Squash(w + s, prevDash) == (if prevDash then [] else ['-']) + Squash(s, true)
    decreases |w|
  {
    assert (w + s)[0] == w[0];
    assert (w + s)[1..] == w[1..] + s;
    if |w| > 1 {
      SquashRun(w[1..], s, true);
    } else {
      assert w[1..] + s == s;
    }
  }

  /** sanitize as a value: trim white space, squash, trim '-', and fall back
      to "session" whenever nothing is left. */
  function Sanitized(base: string): string {
    var t := Strings.TrimSpace(base);
    if t == [] then "session"
    else
      var out := Strings.TrimFunc(Squash(t, false), IsDash);
      if out == [] then "session" else out
  }

  /** sanitize (main.go:141-168), with its strings.Builder loop and
      `prevDash` flag. */
  method Sanitize(base: string) returns (out: string)
    ensures out == Sanitized(base)
  {
    var t := Strings.TrimSpace(base);
    if t == [] {
      return "session";
    }
    var b := "";
    var prevDash := false;
    var i := 0;
    while i < |t|
      invariant 0 <= i <= |t|
      invariant b + Squash(t[i..], prevDash) == Squash(t, false)
    {
      var r := t[i];
      ghost var b0 := b;
      SquashStep(t[i..], prevDash);
      assert t[i..][1..] == t[i + 1..];
      ghost var piece := if IsNameChar(r) then [r] else if prevDash then [] else ['-'];
      ghost var rest := Squash(t[i + 1..], !IsNameChar(r));
      if IsNameChar(r) {
        b := b + [r];
        prevDash := false;
      } else if !prevDash {
        b := b + ['-'];
        prevDash := true;
      }
      i := i + 1;
      assert b == b0 + piece;
      assert b + rest == b0 + (piece + rest);
    }
    assert t[i..] == [];
    assert b + Squash(t[i..], prevDash) == b + [];
    assert b == Squash(t, false);
    out := Strings.TrimFunc(b, IsDash);
    if out == [] {
      out := "session";
    }
  }

  /** Every result of sanitize is a well-formed session name. */
  lemma SanitizedWellFormed(base: string)
    ensures WellFormed(Sanitized(base))
  {
    var t := Strings.TrimSpace(base);
    if t != [] {
      var sq := Squash(t, false);
      SquashNameChars(t, false);
      Strings.TrimFuncSlice(sq, IsDash);
      var out := Strings.TrimFunc(sq, IsDash);
      if out != [] {
        forall i | 0 <= i < |out| ensures IsNameChar(out[i]) {
          assert out[i] in sq;
        }
      }
    }
  }

  /** Empty and white-space-only input get the fallback name. */
  lemma SanitizedBlank(base: string)
    requires forall i :: 0 <= i < |base| ==> Strings.IsSpace(base[i])
    ensures Sanitized(base) == "session"
  {
    Strings.TrimFuncSlice(base, Strings.IsSpace);
  }

  /** Squash leaves a string of name characters alone. */
  lemma {:induction false} SquashKeeps(s: string, prevDash: bool)
    requires forall i :: 0 <= i < |s| ==> IsNameChar(s[i])
    ensures Squash(s, prevDash) == s
    decreases |s|
  {
    if s != [] {
      SquashKeeps(s[1..], false);
      assert [s[0]] + s[1..] == s;
    }
  }

  /** sanitize changes a name exactly when the name is not well formed. */
  lemma SanitizedFixed(name: string)
    ensures Sanitized(name) == name <==> WellFormed(name)
  {
    if WellFormed(name) {
      Strings.TrimFuncFixed(name, Strings.IsSpace);
      SquashKeeps(name, false);
      Strings.TrimFuncFixed(name, IsDash);
    } else {
      SanitizedWellFormed(name);
    }
  }

  /** Sanitizing twice is the same as sanitizing once. */
  lemma SanitizedIdempotent(base: string)
    ensures Sanitized(Sanitized(base)) == Sanitized(base)
  {
    SanitizedWellFormed(base);
    SanitizedFixed(Sanitized(base));
  }

  /** sessionNameFromPath (main.go:170-179): "<parent>_<base>" from the
      sanitized last two segments, or just the base when the sanitized
      parent is "", "." or "/". */
  function SessionNameFromPath(dir: Paths.Path): string {
    var base := Sanitized(Paths.Base(dir));
    var parent := Sanitized(Paths.Base(Paths.Dir(dir)));
    if parent == "" || parent == "." || parent == "/" then base
    else parent + "_" + base
  }

  /** Of the three guard values only "." can occur, because sanitize never
      yields "" or "/"; the name is always well-formed parts joined by '_'. */
  lemma SessionNameShape(dir: Paths.Path)
    ensures var base := Sanitized(Paths.Base(dir));
            var parent := Sanitized(Paths.Base(Paths.Dir(dir)));
            SessionNameFromPath(dir) == if parent == "." then base else parent + "_" + base
    ensures var parent := Sanitized(Paths.Base(Paths.Dir(dir)));
            parent != "" && parent != "/"
  {
    SanitizedWellFormed(Paths.Base(Paths.Dir(dir)));
  }

  /** A session name never contains '|' (the separator of the dedup keys)
      and is never empty. */
  lemma SessionNameNoBar(dir: Paths.Path)
    ensures SessionNameFromPath(dir) != []
    ensures '|' !in SessionNameFromPath(dir)
  {
    var base := Sanitized(Paths.Base(dir));
    var parent := Sanitized(Paths.Base(Paths.Dir(dir)));
    SanitizedWellFormed(Paths.Base(dir));
    SanitizedWellFormed(Paths.Base(Paths.Dir(dir)));
    var n := SessionNameFromPath(dir);
    forall i | 0 <= i < |n| ensures n[i] != '|' {
      if n != base {
        assert n == parent + "_" + base;
        if i < |parent| {
          assert n[i] == parent[i];
        } else if i > |parent| {
          assert n[i] == base[i - |parent| - 1];
        }
      }
    }
  }

  /** Different prefixes before the same "_" + base give different strings. */
  lemma JoinedDiffer(p1: string, p2: string, base: string)
    requires p1 != p2
    ensures p1 + "_" + base != p2 + "_" + base
  {
    if |p1| == |p2| {
      assert (p1 + "_" + base)[..|p1|] == p1;
      assert (p2 + "_" + base)[..|p2|] == p2;
    }
  }

  /** Two directories with the same leaf name but different sanitized
      parents get different session names. */
  lemma SessionNamesDistinct(d1: Paths.Path, d2: Paths.Path)
    requires Paths.Base(d1) == Paths.Base(d2)
    requires Sanitized(Paths.Base(Paths.Dir(d1))) != Sanitized(Paths.Base(Paths.Dir(d2)))
    ensures SessionNameFromPath(d1) != SessionNameFromPath(d2)
  {
    var base := Sanitized(Paths.Base(d1));
    var p1 := Sanitized(Paths.Base(Paths.Dir(d1)));
    var p2 := Sanitized(Paths.Base(Paths.Dir(d2)));
    SessionNameShape(d1);
    SessionNameShape(d2);
    if p1 == "." {
      assert |SessionNameFromPath(d1)| < |SessionNameFromPath(d2)|;
    } else if p2 == "." {
      assert |SessionNameFromPath(d2)| < |SessionNameFromPath(d1)|;
    } else {
      JoinedDiffer(p1, p2, base);
    }
  }

  /** A run of characters outside the name set, written after a '-', adds
      nothing; written after anything else, it adds exactly one '-'. */
  lemma {:induction false} SquashForeign(f: string, prevDash: bool)
    requires forall i :: 0 <= i < |f| ==> !IsNameChar(f[i])
    ensures Squash(f, prevDash) == if f == [] || prevDash then [] else "-"
    decreases |f|
  {
    if f != [] {
      SquashForeign(f[1..], true);
    }
  }

  /** Name characters are copied through, and the state after them is "no
      dash written". */
  lemma {:induction false} SquashNamePrefix(w: string, f: string, prevDash: bool)
    requires w != [] && forall i :: 0 <= i < |w| ==> IsNameChar(w[i])
    ensures Squash(w + f, prevDash) == w + Squash(f, false)
    decreases |w|
  {
    assert (w + f)[1..] == w[1..] + f;
    if |w| > 1 {
      SquashNamePrefix(w[1..], f, false);
      assert [w[0]] + w[1..] == w;
    }
  }

  /** A name with no character from the name set (such as "/" or "äö!")
      falls back to "session". */
  lemma SanitizedForeign(base: string)
    requires forall i :: 0 <= i < |base| ==> !IsNameChar(base[i])
    ensures Sanitized(base) == "session"
  {
    var t := Strings.TrimSpace(base);
    Strings.TrimFuncSlice(base, Strings.IsSpace);
    if t != [] {
      SquashForeign(t, false);
      assert Strings.TrimLeftFunc("-", IsDash) == [];
    }
  }

  /** Foreign characters after a well-formed name are dropped: the '-' they
      turn into is trimmed again (so ".!" sanitizes to "."). */
  lemma SanitizedForeignTail(w: string, f: string)
    requires WellFormed(w)
    requires forall i :: 0 <= i < |f| ==> !IsNameChar(f[i]) && !Strings.IsSpace(f[i])
    ensures Sanitized(w + f) == w
  {
    var s := w + f;
    assert s[0] == w[0] && s[|s| - 1] == (if f == [] then w[|w| - 1] else f[|f| - 1]);
    Strings.TrimFuncFixed(s, Strings.IsSpace);
    SquashNamePrefix(w, f, false);
    SquashForeign(f, false);
    var q := Squash(s, false);
    if f == [] {
      assert q == w;
      Strings.TrimFuncFixed(w, IsDash);
    } else {
      assert q == w + "-";
      assert Strings.TrimLeftFunc(q, IsDash) == q;
      assert q[..|q| - 1] == w;
      assert Strings.TrimRightFunc(w, IsDash) == w;
      assert Strings.TrimRightFunc(q, IsDash) == w;
    }
  }

  /** A directory right below "/" is named "session_<leaf>": the parent is
      the root, whose sanitized name is "session" and not "/". */
  lemma SessionNameTopLevel(leaf: string)
    ensures SessionNameFromPath([leaf]) == "session_" + Sanitized(leaf)
  {
    SanitizedForeign("/");
  }

  /** Two well-formed trailing segments give "<parent>_<leaf>" unchanged,
      unless the parent is ".". */
  lemma SessionNameWellFormed(dir: Paths.Path, parent: string, leaf: string)
    requires WellFormed(parent) && WellFormed(leaf) && parent != "."
    ensures SessionNameFromPath(dir + [parent, leaf]) == parent + "_" + leaf
  {
    var d := dir + [parent, leaf];
    assert d == dir + [parent] + [leaf];
    Paths.DirBase(dir + [parent], leaf);
    Paths.DirBase(dir, parent);
    SanitizedFixed(parent);
    SanitizedFixed(leaf);
  }

  /** A parent made only of foreign characters is named "session". */
  lemma SessionNameForeignParent(dir: Paths.Path, parent: string, leaf: string)
    requires forall i :: 0 <= i < |parent| ==> !IsNameChar(parent[i])
    ensures SessionNameFromPath(dir + [parent, leaf]) == "session_" + Sanitized(leaf)
  {
    var d := dir + [parent, leaf];
    assert d == dir + [parent] + [leaf];
    Paths.DirBase(dir + [parent], leaf);
    Paths.DirBase(dir, parent);
    SanitizedForeign(parent);
  }

  /** A parent that sanitizes to "." is dropped: only the leaf remains. */
  lemma SessionNameDotParent(dir: Paths.Path, f: string, leaf: string)
    requires forall i :: 0 <= i < |f| ==> !IsNameChar(f[i]) && !Strings.IsSpace(f[i])
    ensures SessionNameFromPath(dir + ["." + f, leaf]) == Sanitized(leaf)
  {
    var d := dir + ["." + f, leaf];
    assert d == dir + ["." + f] + [leaf];
    Paths.DirBase(dir + ["." + f], leaf);
    Paths.DirBase(dir, "." + f);
    assert WellFormed(".");
    SanitizedForeignTail(".", f);
  }
}

/** The fuzzy matcher of the selector (main.go:326-355): a greedy,
    ASCII-case-insensitive subsequence scan of the needle through the
    haystack, where each matched character earns 2 points plus the length of
    the streak of matches right before it, a haystack that starts with the
    needle earns 5 more, and a needle that is not found scores -1. Each
    character stands for one byte of the haystack (ASCII text). */
module Fuzzy {
  import Strings
  import Slices

  /** toLower (main.go:350-355): ASCII upper case to lower case, everything
      else unchanged. */
  function ToLower(b: char): (l: char)
    ensures 'A' <= b <= 'Z' ==> l as int == b as int + 32
    ensures !('A' <= b <= 'Z') ==> l == b
    ensures !('A' <= l <= 'Z')
  {
    if 'A' <= b <= 'Z' then (b as int + 32) as char else b
  }

  /** strings.ToLower of ASCII text lowers each character with toLower. */
  lemma LowerString(s: string)
    ensures |Strings.ToLower(s)| == |s|
    ensures forall i :: 0 <= i < |s| ==> Strings.ToLower(s)[i] == ToLower(s[i])
  {
  }

  lemma LowerTail(s: string)
    requires s != []
    ensures Strings.ToLower(s)[1..] == Strings.ToLower(s[1..])
    ensures Strings.ToLower(s)[0] == ToLower(s[0])
  {
    LowerString(s);
    LowerString(s[1..]);
  }

  /** What the scan loop has still to do: matches found and points earned
      from this point on. */
  datatype Scan = Scan(matched: nat, points: nat)

  /** The rest of the loop of fuzzyScore, from a position in the needle and
      one in the haystack, with the current streak. */
  function ScanFrom(needle: string, hay: string, streak: nat): Scan
    decreases |hay|
  {
    if needle == [] || hay == [] then Scan(0, 0)
    else if ToLower(hay[0]) == ToLower(needle[0]) then
      var r := ScanFrom(needle[1..], hay[1..], streak + 1);
      Scan(r.matched + 1, r.points + 2 + streak)
    else ScanFrom(needle, hay[1..], 0)
  }

  /** fuzzyScore as a value. */
  function Score(needle: string, hay: string): int {
    if needle == [] then 1
    else
      var sc := ScanFrom(needle, hay, 0);
      if sc.matched < |needle| then -1
      else sc.points + (if Strings.HasPrefix(Strings.ToLower(hay), Strings.ToLower(needle)) then 5 else 0)
  }

  /** fuzzyScore (main.go:327-348), with its index loop over the haystack. */
  method FuzzyScore(needle: string, hay: string) returns (score: int)
    ensures score == Score(needle, hay)
  {
    if needle == [] {
      return 1;
    }
    var ni, streak := 0, 0;
    score := 0;
    var i := 0;
    while i < |hay| && ni < |needle|
      invariant 0 <= i <= |hay| && 0 <= ni <= |needle| && score >= 0
      invariant ni + ScanFrom(needle[ni..], hay[i..], streak).matched == ScanFrom(needle, hay, 0).matched
      invariant score + ScanFrom(needle[ni..], hay[i..], streak).points == ScanFrom(needle, hay, 0).points
    {
      assert hay[i..][1..] == hay[i + 1..];
      assert needle[ni..][1..] == needle[ni + 1..];
      if ToLower(hay[i]) == ToLower(needle[ni]) {
        score := score + 2 + streak;
        ni := ni + 1;
        streak := streak + 1;
      } else {
        streak := 0;
      }
      i := i + 1;
    }
    assert ScanFrom(needle[ni..], hay[i..], streak) == Scan(0, 0);
    if ni < |needle| {
      return -1;
    }
    if Strings.HasPrefix(Strings.ToLower(hay), Strings.ToLower(needle)) {
      score := score + 5;
    }
  }

  /** An empty needle matches everything with score 1. */
  lemma ScoreEmptyNeedle(hay: string)
    ensures Score("", hay) == 1
  {
  }

  /** The greedy scan finds all of the needle exactly when the lowered needle
      is a subsequence of the lowered haystack; it never finds more. */
  lemma {:induction false} ScanMatchesAll(needle: string, hay: string, streak: nat)
    ensures ScanFrom(needle, hay, streak).matched <= |needle|
    ensures ScanFrom(needle, hay, streak).matched == |needle|
      <==> Slices.IsSubsequence(Strings.ToLower(needle), Strings.ToLower(hay))
    decreases |hay|
  {
    var ln, lh := Strings.ToLower(needle), Strings.ToLower(hay);
    if needle != [] && hay != [] {
      LowerTail(needle);
      LowerTail(hay);
      if ToLower(hay[0]) == ToLower(needle[0]) {
        ScanMatchesAll(needle[1..], hay[1..], streak + 1);
        if Slices.IsSubsequence(ln, lh) && !(Slices.IsSubsequence(ln[1..], lh[1..])) {
          Slices.SubsequenceDropFirst(ln, lh[1..]);
        }
      } else {
        ScanMatchesAll(needle, hay[1..], 0);
      }
    }
  }

  /** A negative score is always -1, and it is given exactly when the
      lowered needle is not a subsequence of the lowered haystack. */
  lemma ScoreMissIff(needle: string, hay: string)
    ensures Score(needle, hay) < 0 ==> Score(needle, hay) == -1
    ensures Score(needle, hay) == -1
      <==> !Slices.IsSubsequence(Strings.ToLower(needle), Strings.ToLower(hay))
  {
    ScanMatchesAll(needle, hay, 0);
  }

  /** 0 + 1 + ... + (n - 1). */
  function Triangle(n: nat): nat {
    if n == 0 then 0 else n - 1 + Triangle(n - 1)
  }

  lemma {:induction false} TriangleFormula(n: nat)
    ensures 2 * Triangle(n) == n * (n - 1)
    ensures Triangle(n) == n * (n - 1) / 2
  {
    if n > 0 {
      TriangleFormula(n - 1);
      assert n * (n - 1) == (n - 1) * (n - 2) + 2 * (n - 1);
    }
  }

  /** Each match earns at least 2 points and at most 2 plus its streak, which
      grows by one per consecutive match. */
  lemma {:induction false} ScanPointsBounds(needle: string, hay: string, streak: nat)
    ensures var r := ScanFrom(needle, hay, streak);
      2 * r.matched <= r.points <= 2 * r.matched + r.matched * streak + Triangle(r.matched)
    decreases |hay|
  {
    if needle != [] && hay != [] {
      if ToLower(hay[0]) == ToLower(needle[0]) {
        ScanPointsBounds(needle[1..], hay[1..], streak + 1);
        var r := ScanFrom(needle[1..], hay[1..], streak + 1);
        assert r.matched * (streak + 1) == r.matched * streak + r.matched;
        assert (r.matched + 1) * streak == r.matched * streak + streak;
      } else {
        ScanPointsBounds(needle, hay[1..], 0);
        var r := ScanFrom(needle, hay[1..], 0);
        assert r.matched * 0 == 0;
        assert 0 <= r.matched * streak;
      }
    }
  }

  /** When the haystack starts with the needle, every character matches
      right away and the whole needle is one streak. */
  lemma {:induction false} ScanPrefix(needle: string, hay: string, streak: nat)
    requires Strings.HasPrefix(Strings.ToLower(hay), Strings.ToLower(needle))
    ensures ScanFrom(needle, hay, streak)
      == Scan(|needle|, 2 * |needle| + |needle| * streak + Triangle(|needle|))
    decreases |needle|
  {
    if needle != [] {
      LowerTail(needle);
      LowerTail(hay);
      var ln, lh := Strings.ToLower(needle), Strings.ToLower(hay);
      assert ln[0] == lh[0];
      assert lh[1..][..|ln| - 1] == lh[..|ln|][1..];
      ScanPrefix(needle[1..], hay[1..], streak + 1);
      var m := |needle| - 1;
      assert m * (streak + 1) == m * streak + m;
      assert (m + 1) * streak == m * streak + streak;
    }
  }

  /** A found needle of length n scores between 2n and 2n + n(n-1)/2 + 5. */
  lemma ScoreBounds(needle: string, hay: string)
    requires needle != [] && Score(needle, hay) >= 0
    ensures 2 * |needle| <= Score(needle, hay) <= 2 * |needle| + |needle| * (|needle| - 1) / 2 + 5
  {
    ScanPointsBounds(needle, hay, 0);
    ScanMatchesAll(needle, hay, 0);
    TriangleFormula(|needle|);
    assert ScanFrom(needle, hay, 0).matched * 0 == 0;
  }

  /** The top score is reached exactly when the haystack starts with the
      needle, ignoring ASCII case. */
  lemma ScoreMaxIffPrefix(needle: string, hay: string)
    requires needle != []
    ensures Score(needle, hay) == 2 * |needle| + |needle| * (|needle| - 1) / 2 + 5
      <==> Strings.HasPrefix(Strings.ToLower(hay), Strings.ToLower(needle))
  {
    TriangleFormula(|needle|);
    ScanPointsBounds(needle, hay, 0);
    ScanMatchesAll(needle, hay, 0);
    assert ScanFrom(needle, hay, 0).matched * 0 == 0;
    assert |needle| * 0 == 0;
    if Strings.HasPrefix(Strings.ToLower(hay), Strings.ToLower(needle)) {
      ScanPrefix(needle, hay, 0);
    }
  }
}

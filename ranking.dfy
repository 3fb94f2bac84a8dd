/** filterAndRank (main.go:357-384): score every candidate's search key
    against the query, drop those that do not match, order the rest by score
    (highest first) and then by name, and keep at most `limit` of them. */
module Ranking {
  import Strings
  import Slices
  import Fuzzy
  import Items

  /** viewItem: a candidate with its score. */
  datatype ViewItem = ViewItem(item: Items.Item, score: int)

  /** The text a candidate is matched against: its name, and its path after a
      space when it has one. */
  function SearchKey(it: Items.Item): string {
    if it.path != "" then it.name + " " + it.path else it.name
  }

  /** The append loop: every candidate whose key scores at least 0, with its
      score, in input order. */
  function Scored(items: seq<Items.Item>, q: string): seq<ViewItem>
    decreases |items|
  {
    if items == [] then []
    else
      var last := items[|items| - 1];
      var s := Fuzzy.Score(q, SearchKey(last));
      Scored(items[..|items| - 1], q) + (if s >= 0 then [ViewItem(last, s)] else [])
  }

  /** The comparator given to slices.SortFunc, as "a may come before b":
      higher score first, equal scores by strings.Compare on the names. */
  predicate RankBefore(a: ViewItem, b: ViewItem) {
    a.score > b.score || (a.score == b.score && Strings.Le(a.item.name, b.item.name))
  }

  lemma RankBeforeTotalPreorder()
    ensures Slices.TotalPreorder(RankBefore)
  {
    forall a: ViewItem, b: ViewItem ensures RankBefore(a, b) || RankBefore(b, a) {
      Strings.LeTotal(a.item.name, b.item.name);
    }
    forall a: ViewItem, b: ViewItem, c: ViewItem | RankBefore(a, b) && RankBefore(b, c)
      ensures RankBefore(a, c)
    {
      if a.score == b.score == c.score {
        Strings.LeTransitive(a.item.name, b.item.name, c.item.name);
      }
    }
  }

  /** The sorted candidates, cut to `limit` when `limit` is positive. */
  function Ranked(items: seq<Items.Item>, q: string, limit: int): seq<ViewItem> {
    var sorted := Slices.SortBy(Scored(items, q), RankBefore);
    if limit > 0 && |sorted| > limit then sorted[..limit] else sorted
  }

  /** filterAndRank, with its append loop. */
  method FilterAndRank(items: seq<Items.Item>, q: string, limit: int) returns (out: seq<ViewItem>)
    ensures out == Ranked(items, q, limit)
  {
    out := [];
    var i := 0;
    while i < |items|
      invariant 0 <= i <= |items|
      invariant out == Scored(items[..i], q)
    {
      var it := items[i];
      var key := it.name;
      if it.path != "" {
        key := key + " " + it.path;
      }
      var s := Fuzzy.FuzzyScore(q, key);
      assert items[..i + 1][..i] == items[..i];
      if s >= 0 {
        out := out + [ViewItem(it, s)];
      }
      i := i + 1;
    }
    assert items[..i] == items;
    out := Slices.SortBy(out, RankBefore);
    if limit > 0 && |out| > limit {
      out := out[..limit];
    }
  }

  /** Every entry the append loop keeps is an input candidate that matched,
      carrying its own score; every matching candidate is kept. */
  lemma {:induction false} ScoredExact(items: seq<Items.Item>, q: string)
    ensures forall v :: v in Scored(items, q) ==>
      v.item in items && v.score == Fuzzy.Score(q, SearchKey(v.item)) && v.score >= 0
    ensures forall it :: it in items && Fuzzy.Score(q, SearchKey(it)) >= 0 ==>
      ViewItem(it, Fuzzy.Score(q, SearchKey(it))) in Scored(items, q)
    decreases |items|
  {
    if items != [] {
      var init := items[..|items| - 1];
      ScoredExact(init, q);
      assert items == init + [items[|items| - 1]];
    }
  }

  /** Every entry ranked is an input candidate whose key matched the query,
      with that score. */
  lemma RankedSound(items: seq<Items.Item>, q: string, limit: int)
    ensures forall v :: v in Ranked(items, q, limit) ==>
      v.item in items && v.score >= 0 && v.score == Fuzzy.Score(q, SearchKey(v.item))
  {
    var sorted := Slices.SortBy(Scored(items, q), RankBefore);
    ScoredExact(items, q);
    forall v | v in Ranked(items, q, limit)
      ensures v in Scored(items, q)
    {
      assert v in sorted;
      assert v in multiset(sorted);
    }
  }

  /** Entries come by score, highest first, and by name among equal scores. */
  lemma RankedOrdered(items: seq<Items.Item>, q: string, limit: int)
    ensures var r := Ranked(items, q, limit);
      forall i, j :: 0 <= i < j < |r| ==>
        r[i].score > r[j].score || (r[i].score == r[j].score && Strings.Le(r[i].item.name, r[j].item.name))
  {
    RankBeforeTotalPreorder();
    Slices.SortByIsSorted(Scored(items, q), RankBefore);
  }

  /** A positive limit bounds the number of entries. */
  lemma RankedLimit(items: seq<Items.Item>, q: string, limit: int)
    ensures limit > 0 ==> |Ranked(items, q, limit)| <= limit
    ensures |Ranked(items, q, limit)| <= |items|
  {
    ScoredLength(items, q);
    assert |Slices.SortBy(Scored(items, q), RankBefore)| == |Scored(items, q)| by {
      assert |multiset(Slices.SortBy(Scored(items, q), RankBefore))| == |multiset(Scored(items, q))|;
    }
  }

  lemma {:induction false} ScoredLength(items: seq<Items.Item>, q: string)
    ensures |Scored(items, q)| <= |items|
    decreases |items|
  {
    if items != [] {
      ScoredLength(items[..|items| - 1], q);
    }
  }

  /** The append loop keeps a matching candidate as often as it occurs in
      the input, and a candidate that does not match not at all. */
  lemma {:induction false} ScoredCount(items: seq<Items.Item>, q: string, it: Items.Item)
    ensures multiset(Scored(items, q))[ViewItem(it, Fuzzy.Score(q, SearchKey(it)))]
      == if Fuzzy.Score(q, SearchKey(it)) >= 0 then multiset(items)[it] else 0
    decreases |items|
  {
    if items != [] {
      var init := items[..|items| - 1];
      var last := items[|items| - 1];
      var v := ViewItem(it, Fuzzy.Score(q, SearchKey(it)));
      var sl := Fuzzy.Score(q, SearchKey(last));
      var tail := if sl >= 0 then [ViewItem(last, sl)] else [];
      ScoredCount(init, q, it);
      assert items == init + [last];
      assert Scored(items, q) == Scored(init, q) + tail;
      assert multiset(Scored(items, q))[v] == multiset(Scored(init, q))[v] + multiset(tail)[v];
      assert multiset(items)[it] == multiset(init)[it] + multiset([last])[it];
      if last == it {
        assert multiset(tail)[v] == if sl >= 0 then 1 else 0;
      } else {
        assert multiset(tail)[v] == 0;
      }
    }
  }

  /** Without truncation nothing that matched is lost: the entries are
      exactly the matching candidates, each once per occurrence. */
  lemma RankedComplete(items: seq<Items.Item>, q: string, limit: int)
    requires limit <= 0 || |Scored(items, q)| <= limit
    ensures multiset(Ranked(items, q, limit)) == multiset(Scored(items, q))
    ensures forall it :: it in items && Fuzzy.Score(q, SearchKey(it)) >= 0 ==>
      ViewItem(it, Fuzzy.Score(q, SearchKey(it))) in Ranked(items, q, limit)
    ensures forall it :: (multiset(Ranked(items, q, limit))[ViewItem(it, Fuzzy.Score(q, SearchKey(it)))]
      == if Fuzzy.Score(q, SearchKey(it)) >= 0 then multiset(items)[it] else 0)
  {
    ScoredExact(items, q);
    var r := Ranked(items, q, limit);
    assert |multiset(r)| == |multiset(Scored(items, q))|;
    forall it
      ensures multiset(r)[ViewItem(it, Fuzzy.Score(q, SearchKey(it)))]
        == if Fuzzy.Score(q, SearchKey(it)) >= 0 then multiset(items)[it] else 0
    {
      ScoredCount(items, q, it);
    }
    forall it | it in items && Fuzzy.Score(q, SearchKey(it)) >= 0
      ensures ViewItem(it, Fuzzy.Score(q, SearchKey(it))) in r
    {
      assert ViewItem(it, Fuzzy.Score(q, SearchKey(it))) in multiset(r);
    }
  }

  /** With truncation, what is dropped ranks no better than what is kept. */
  lemma RankedCutsWorst(items: seq<Items.Item>, q: string, limit: int)
    ensures var r := Ranked(items, q, limit);
      multiset(r) <= multiset(Scored(items, q))
      && forall v, w :: v in multiset(Scored(items, q)) - multiset(r) && w in r ==> RankBefore(w, v)
  {
    var sorted := Slices.SortBy(Scored(items, q), RankBefore);
    var r := Ranked(items, q, limit);
    RankBeforeTotalPreorder();
    Slices.SortByIsSorted(Scored(items, q), RankBefore);
    assert r == sorted[..|r|];
    Slices.SortedCut(sorted, |r|, RankBefore);
  }

  /** An empty query matches every candidate with score 1. */
  lemma {:induction false} ScoredEmptyQuery(items: seq<Items.Item>)
    ensures |Scored(items, "")| == |items|
    ensures forall i :: 0 <= i < |items| ==> Scored(items, "")[i] == ViewItem(items[i], 1)
    decreases |items|
  {
    if items != [] {
      var init := items[..|items| - 1];
      ScoredEmptyQuery(init);
      Fuzzy.ScoreEmptyNeedle(SearchKey(items[|items| - 1]));
      assert Scored(items, "") == Scored(init, "") + [ViewItem(items[|items| - 1], 1)];
    }
  }

  /** An empty query rejects nothing: only the limit can drop candidates. */
  lemma RankedEmptyQuery(items: seq<Items.Item>, limit: int)
    ensures |Ranked(items, "", limit)| == if limit > 0 && |items| > limit then limit else |items|
    ensures forall v :: v in Ranked(items, "", limit) ==> v.score == 1
  {
    ScoredEmptyQuery(items);
    RankedSound(items, "", limit);
    assert |Slices.SortBy(Scored(items, ""), RankBefore)| == |items| by {
      assert |multiset(Slices.SortBy(Scored(items, ""), RankBefore))| == |multiset(Scored(items, ""))|;
    }
  }

  /** One of the key's characters equals the one-character query, ignoring
      ASCII case, exactly when the candidate matches it. */
  lemma {:induction false} OneCharMatch(c: char, key: string)
    ensures Fuzzy.Score([c], key) >= 0
      <==> exists k :: 0 <= k < |key| && Fuzzy.ToLower(key[k]) == Fuzzy.ToLower(c)
    decreases |key|
  {
    Fuzzy.ScoreMissIff([c], key);
    if key != [] {
      OneCharMatch(c, key[1..]);
      Fuzzy.LowerTail(key);
      Fuzzy.ScoreMissIff([c], key[1..]);
      if exists k :: 0 <= k < |key[1..]| && Fuzzy.ToLower(key[1..][k]) == Fuzzy.ToLower(c) {
        var k :| 0 <= k < |key[1..]| && Fuzzy.ToLower(key[1..][k]) == Fuzzy.ToLower(c);
        assert key[k + 1] == key[1..][k];
      }
      if exists k :: 0 <= k < |key| && Fuzzy.ToLower(key[k]) == Fuzzy.ToLower(c) {
        var k :| 0 <= k < |key| && Fuzzy.ToLower(key[k]) == Fuzzy.ToLower(c);
        if k > 0 {
          assert key[1..][k - 1] == key[k];
        }
      }
    }
  }

  /** The query "a" against two repositories whose names end in "_a" and a
      session "util": the two repositories match, the session does not. */
  lemma FilterExampleScores(items: seq<Items.Item>)
    requires items == [Items.Item(Items.GitRepo, "ivuorinen_a", "/Code/ivuorinen/a"),
                       Items.Item(Items.GitRepo, "test_a", "/Code/test/a"),
                       Items.Item(Items.Session, "util", "")]
    ensures Fuzzy.Score("a", SearchKey(items[0])) >= 0 && Fuzzy.Score("a", SearchKey(items[1])) >= 0
    ensures Fuzzy.Score("a", SearchKey(items[2])) < 0
  {
    var k0, k1, k2 := SearchKey(items[0]), SearchKey(items[1]), SearchKey(items[2]);
    assert k0[10] == 'a';
    OneCharMatch('a', k0);
    assert k1[5] == 'a';
    OneCharMatch('a', k1);
    assert k2 == "util";
    OneCharMatch('a', k2);
  }

  lemma FilterExampleScored(items: seq<Items.Item>, q: string)
    requires |items| == 3
    requires Fuzzy.Score(q, SearchKey(items[0])) >= 0 && Fuzzy.Score(q, SearchKey(items[1])) >= 0
    requires Fuzzy.Score(q, SearchKey(items[2])) < 0
    ensures Scored(items, q) == [ViewItem(items[0], Fuzzy.Score(q, SearchKey(items[0]))),
                                   ViewItem(items[1], Fuzzy.Score(q, SearchKey(items[1])))]
  {
    var i1, i2 := items[..1], items[..2];
    ScoredLast(items, q);
    assert items[..|items| - 1] == i2;
    ScoredLast(i2, q);
    assert i2[..|i2| - 1] == i1;
    ScoredLast(i1, q);
    assert i1[..|i1| - 1] == [];
  }

  /** The last candidate adds its entry after the others when it matches. */
  lemma ScoredLast(items: seq<Items.Item>, q: string)
    requires items != []
    ensures var it := items[|items| - 1];
      var s := Fuzzy.Score(q, SearchKey(it));
      Scored(items, q) == Scored(items[..|items| - 1], q) + (if s >= 0 then [ViewItem(it, s)] else [])
  {
  }

  /** Two matches and a limit that does not cut: both are ranked, and
      nothing else is. */
  lemma RankedPair(items: seq<Items.Item>, q: string, limit: int, v0: ViewItem, v1: ViewItem)
    requires Scored(items, q) == [v0, v1]
    requires limit <= 0 || 2 <= limit
    ensures |Ranked(items, q, limit)| == 2
    ensures v0 in Ranked(items, q, limit) && v1 in Ranked(items, q, limit)
    ensures forall v :: v in Ranked(items, q, limit) ==> v == v0 || v == v1
  {
    RankedComplete(items, q, limit);
    var r := Ranked(items, q, limit);
    assert |multiset(r)| == 2;
    assert v0 in multiset(r) && v1 in multiset(r);
    forall v | v in r ensures v == v0 || v == v1 {
      assert v in multiset([v0, v1]);
    }
  }

  /** Cut to 10, the ranking keeps both repositories and drops the session. */
  lemma FilterExample(items: seq<Items.Item>)
    requires items == [Items.Item(Items.GitRepo, "ivuorinen_a", "/Code/ivuorinen/a"),
                       Items.Item(Items.GitRepo, "test_a", "/Code/test/a"),
                       Items.Item(Items.Session, "util", "")]
    ensures |Ranked(items, "a", 10)| == 2
    ensures ViewItem(items[0], Fuzzy.Score("a", SearchKey(items[0]))) in Ranked(items, "a", 10)
    ensures ViewItem(items[1], Fuzzy.Score("a", SearchKey(items[1]))) in Ranked(items, "a", 10)
    ensures forall v :: v in Ranked(items, "a", 10) ==> v.item == items[0] || v.item == items[1]
  {
    FilterExampleScores(items);
    FilterExampleScored(items, "a");
    RankedPair(items, "a", 10, ViewItem(items[0], Fuzzy.Score("a", SearchKey(items[0]))),
      ViewItem(items[1], Fuzzy.Score("a", SearchKey(items[1]))));
  }
}

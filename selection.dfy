/** The selector (main.go:388-543): the raw-mode loop of interactiveSelect
    over the state (query, idx, showPreview), where every handled key is
    followed by a render that clamps idx into the visible list, and the
    number-prompt fallback of promptOnce and of the Windows branch. Keys
    arrive already decoded into events; running out of keys is a read
    error. */
module Selection {
  import Items
  import Fuzzy
  import Ranking

  /** pageStep (main.go:29). */
  const PageStep := 5

  /** The list the loop shows and picks from is filterAndRank with limit 30. */
  const ViewLimit := 30

  /** A key event of the loop. `Char(r)` is any other rune, reaching the
      default branch of the switch. */
  datatype Key =
    | Char(r: int)
    | Backspace       // 127 or 8
    | ClearQuery      // 21, Ctrl-U
    | TogglePreview   // 9, Tab
    | Up              // ESC [ A, or 16 (Ctrl-P)
    | Down            // ESC [ B, or 14 (Ctrl-N)
    | Home            // ESC [ H, ESC [ 1 ~
    | End             // ESC [ F, ESC [ 4 ~
    | PageUp          // ESC [ 5 ~
    | PageDown        // ESC [ 6 ~
    | Ignored         // any other escape sequence
    | Enter           // 13
    | Cancel          // 3, Ctrl-C

  /** The switch on the rune just read (main.go:457-523), for runes other
      than ESC. */
  function DecodeRune(r: int): (k: Key)
    requires r != 27
    ensures k == Cancel <==> r == 3
    ensures k == Enter <==> r == 13
    ensures k == ClearQuery <==> r == 21
    ensures k == TogglePreview <==> r == 9
    ensures k == Backspace <==> r == 127 || r == 8
    ensures k == Down <==> r == 14
    ensures k == Up <==> r == 16
    ensures k.Char? <==> r !in {3, 13, 21, 9, 127, 8, 14, 16}
    ensures k.Char? ==> k.r == r
  {
    if r == 3 then Cancel
    else if r == 13 then Enter
    else if r == 21 then ClearQuery
    else if r == 9 then TogglePreview
    else if r == 127 || r == 8 then Backspace
    else if r == 14 then Down
    else if r == 16 then Up
    else Char(r)
  }

  /** The two bytes read after ESC (main.go:475-513). */
  function DecodeEscape(b1: char, b2: char): (k: Key)
    ensures k == Up <==> b1 == '[' && b2 == 'A'
    ensures k == Down <==> b1 == '[' && b2 == 'B'
    ensures k == Home <==> b1 == '[' && (b2 == 'H' || b2 == '1')
    ensures k == End <==> b1 == '[' && (b2 == 'F' || b2 == '4')
    ensures k == PageUp <==> b1 == '[' && b2 == '5'
    ensures k == PageDown <==> b1 == '[' && b2 == '6'
    ensures k == Ignored <==> b1 != '[' || b2 !in "ABH1F456"
  {
    if b1 != '[' then Ignored
    else if b2 == 'A' then Up
    else if b2 == 'B' then Down
    else if b2 == 'H' || b2 == '1' then Home
    else if b2 == 'F' || b2 == '4' then End
    else if b2 == '5' then PageUp
    else if b2 == '6' then PageDown
    else Ignored
  }

  datatype State = State(query: string, idx: int, showPreview: bool)

  datatype Outcome = Confirmed(item: Items.Item) | Cancelled | ReadFailed | InvalidSelection

  /** What one key does: the loop ends, or goes on from a new state. */
  datatype StepResult = Finish(outcome: Outcome) | Again(st: State)

  /** The candidates shown for a query. */
  function View(items: seq<Items.Item>, query: string): seq<Ranking.ViewItem> {
    Ranking.Ranked(items, query, ViewLimit)
  }

  /** The invariant render establishes: a valid index into a non-empty list,
      and 0 for an empty one. */
  predicate InRange(idx: int, n: int) {
    if n <= 0 then idx == 0 else 0 <= idx < n
  }

  /** The clamp at the top of render (main.go:421-427). */
  function Clamp(idx: int, n: nat): (r: int)
    ensures InRange(r, n)
    ensures InRange(idx, n) ==> r == idx
    ensures n > 0 && idx >= n ==> r == n - 1
    ensures idx < 0 ==> r == 0
  {
    var i := if idx >= n then n - 1 else idx;
    if i < 0 then 0 else i
  }

  function Render(items: seq<Items.Item>, st: State): State {
    st.(idx := Clamp(st.idx, |View(items, st.query)|))
  }

  /** Only the printable ASCII runes 32..126 go into the query. */
  predicate IsPrintable(c: char) {
    32 <= c as int <= 126
  }

  predicate Printable(q: string) {
    forall i :: 0 <= i < |q| ==> IsPrintable(q[i])
  }

  /** The state change of one key other than Enter and Cancel, before the
      render. */
  function Handle(items: seq<Items.Item>, st: State, k: Key): State {
    match k
    case Char(r) => if 32 <= r <= 126 then st.(query := st.query + [r as char]) else st
    case Backspace => if |st.query| > 0 then st.(query := st.query[..|st.query| - 1]) else st
    case ClearQuery => st.(query := "", idx := 0)
    case TogglePreview => st.(showPreview := !st.showPreview)
    case Up => st.(idx := st.idx - 1)
    case Down => st.(idx := st.idx + 1)
    case Home => st.(idx := 0)
    case End =>
      var v := View(items, st.query);
      if |v| > 0 then st.(idx := |v| - 1) else st
    case PageUp => st.(idx := st.idx - PageStep)
    case PageDown => st.(idx := st.idx + PageStep)
    case Ignored => st
    case Enter => st
    case Cancel => st
  }

  /** One turn of the loop from a rendered state. Enter on an empty list
      goes on without a render. */
  function Step(items: seq<Items.Item>, st: State, k: Key): (r: StepResult)
    requires InRange(st.idx, |View(items, st.query)|)
    ensures r.Again? ==> InRange(r.st.idx, |View(items, r.st.query)|)
  {
    match k
    case Cancel => Finish(Cancelled)
    case Enter =>
      var v := View(items, st.query);
      if |v| == 0 then Again(st) else Finish(Confirmed(v[st.idx].item))
    case _ => Again(Render(items, Handle(items, st, k)))
  }

  /** The loop from a rendered state over the keys still to come. */
  function RunFrom(items: seq<Items.Item>, st: State, keys: seq<Key>): Outcome
    requires InRange(st.idx, |View(items, st.query)|)
    decreases |keys|
  {
    if keys == [] then ReadFailed
    else match Step(items, st, keys[0])
      case Finish(o) => o
      case Again(st') => RunFrom(items, st', keys[1..])
  }

  function Initial(items: seq<Items.Item>): (st: State)
    ensures InRange(st.idx, |View(items, st.query)|)
    ensures st == State("", 0, false)
  {
    Render(items, State("", 0, false))
  }

  /** interactiveSelect as a value. */
  function Run(items: seq<Items.Item>, keys: seq<Key>): Outcome {
    RunFrom(items, Initial(items), keys)
  }

  /** The keys other than Enter and Ctrl-C: the rest of the switch of the
      loop (main.go:466-523), before the render. The switch and the render
      are methods of their own, each proved against Handle and Clamp, so
      that the loop's proof reasons about one call at a time rather than
      about every arm at once. */
  method HandleKey(items: seq<Items.Item>, query: string, idx: int, showPreview: bool, k: Key)
    returns (query': string, idx': int, showPreview': bool)
    ensures State(query', idx', showPreview') == Handle(items, State(query, idx, showPreview), k)
  {
    query', idx', showPreview' := query, idx, showPreview;
    match k {
      case ClearQuery =>
        query' := "";
        idx' := 0;
      case TogglePreview =>
        showPreview' := !showPreview;
      case Backspace =>
        if |query| > 0 {
          query' := query[..|query| - 1];
        }
      case Up =>
        idx' := idx - 1;
      case Down =>
        idx' := idx + 1;
      case Home =>
        idx' := 0;
      case End =>
        var cands := Ranking.FilterAndRank(items, query, ViewLimit);
        if |cands| > 0 {
          idx' := |cands| - 1;
        }
      case PageUp =>
        idx' := idx - PageStep;
      case PageDown =>
        idx' := idx + PageStep;
      case Ignored =>
      case Char(r) =>
        if 32 <= r <= 126 {
          query' := query + [r as char];
        }
      case Enter =>
      case Cancel =>
    }
  }

  /** render (main.go:418-427): recompute the candidates and clamp idx. */
  method RenderIdx(items: seq<Items.Item>, query: string, idx: int) returns (idx': int)
    ensures idx' == Clamp(idx, |View(items, query)|)
  {
    var cands := Ranking.FilterAndRank(items, query, ViewLimit);
    idx' := idx;
    if idx' >= |cands| {
      idx' := |cands| - 1;
    }
    if idx' < 0 {
      idx' := 0;
    }
  }

  /** One turn of RunFrom, unfolded. */
  lemma RunFromStep(items: seq<Items.Item>, st: State, keys: seq<Key>)
    requires InRange(st.idx, |View(items, st.query)|)
    requires keys != []
    ensures Step(items, st, keys[0]).Finish? ==> RunFrom(items, st, keys) == Step(items, st, keys[0]).outcome
    ensures Step(items, st, keys[0]).Again? ==> RunFrom(items, st, keys) == RunFrom(items, Step(items, st, keys[0]).st, keys[1..])
  {
  }

  /** The raw-mode loop of interactiveSelect (main.go:415-525). */
  method InteractiveSelect(items: seq<Items.Item>, keys: seq<Key>) returns (outcome: Outcome)
    ensures outcome == Run(items, keys)
  {
    var query := "";
    var showPreview := false;
    var idx := RenderIdx(items, query, 0);
    var i := 0;
    while i < |keys|
      invariant 0 <= i <= |keys|
      invariant InRange(idx, |View(items, query)|)
      invariant RunFrom(items, State(query, idx, showPreview), keys[i..]) == Run(items, keys)
    {
      var k := keys[i];
      ghost var st := State(query, idx, showPreview);
      assert keys[i..][0] == k && keys[i..][1..] == keys[i + 1..];
      RunFromStep(items, st, keys[i..]);
      if k == Cancel {
        return Cancelled;
      } else if k == Enter {
        var cands := Ranking.FilterAndRank(items, query, ViewLimit);
        if |cands| == 0 {
          i := i + 1;
          continue;
        }
        return Confirmed(cands[idx].item);
      }
      query, idx, showPreview := HandleKey(items, query, idx, showPreview, k);
      idx := RenderIdx(items, query, idx);
      i := i + 1;
    }
    return ReadFailed;
  }

  // ---------------- Properties of one key ----------------

  /** Enter confirms the highlighted candidate when there is one, and
      changes nothing otherwise. */
  lemma EnterConfirms(items: seq<Items.Item>, st: State)
    requires InRange(st.idx, |View(items, st.query)|)
    ensures var v := View(items, st.query);
      Step(items, st, Enter) == if |v| == 0 then Again(st) else Finish(Confirmed(v[st.idx].item))
    ensures var v := View(items, st.query);
      |v| > 0 ==> 0 <= st.idx < |v| && v[st.idx].item in items
  {
    Ranking.RankedSound(items, st.query, ViewLimit);
    var v := View(items, st.query);
    if |v| > 0 {
      assert v[st.idx] in v;
    }
  }

  /** Ctrl-U empties the query and moves to the first candidate. */
  lemma ClearQueryResets(items: seq<Items.Item>, st: State)
    requires InRange(st.idx, |View(items, st.query)|)
    ensures Step(items, st, ClearQuery) == Again(State("", 0, st.showPreview))
  {
  }

  /** Tab flips the preview and nothing else. */
  lemma ToggleOnlyPreview(items: seq<Items.Item>, st: State)
    requires InRange(st.idx, |View(items, st.query)|)
    ensures Step(items, st, TogglePreview) == Again(st.(showPreview := !st.showPreview))
  {
  }

  /** Backspace on an empty query changes nothing; otherwise it drops the
      last character. */
  lemma BackspaceDrops(items: seq<Items.Item>, st: State)
    requires InRange(st.idx, |View(items, st.query)|)
    ensures st.query == "" ==> Step(items, st, Backspace) == Again(st)
    ensures st.query != "" ==>
      var q := st.query[..|st.query| - 1];
      Step(items, st, Backspace) == Again(State(q, Clamp(st.idx, |View(items, q)|), st.showPreview))
  {
  }

  /** A rune goes into the query exactly when it is printable ASCII, so the
      query only ever holds printable characters. */
  lemma CharAppends(items: seq<Items.Item>, st: State, r: int)
    requires InRange(st.idx, |View(items, st.query)|)
    ensures (32 <= r <= 126) ==> Step(items, st, Char(r)).st.query == st.query + [r as char]
    ensures (32 <= r <= 126) ==>
      var q := st.query + [r as char];
      Step(items, st, Char(r)) == Again(State(q, Clamp(st.idx, |View(items, q)|), st.showPreview))
    ensures !(32 <= r <= 126) ==> Step(items, st, Char(r)) == Again(st)
  {
  }

  lemma StepPrintable(items: seq<Items.Item>, st: State, k: Key)
    requires InRange(st.idx, |View(items, st.query)|) && Printable(st.query)
    ensures Step(items, st, k).Again? ==> Printable(Step(items, st, k).st.query)
  {
  }

  /** Ctrl-C ends the loop at once. */
  lemma CancelStops(items: seq<Items.Item>, st: State, rest: seq<Key>)
    requires InRange(st.idx, |View(items, st.query)|)
    ensures RunFrom(items, st, [Cancel] + rest) == Cancelled
  {
  }

  /** Moving down stops at the last candidate. */
  lemma MoveDown(items: seq<Items.Item>, st: State)
    requires InRange(st.idx, |View(items, st.query)|)
    ensures var n := |View(items, st.query)|;
      Step(items, st, Down) == Again(st.(idx := if st.idx + 1 < n then st.idx + 1 else st.idx))
  {
    var n := |View(items, st.query)|;
    assert Handle(items, st, Down) == st.(idx := st.idx + 1);
    assert Step(items, st, Down) == Again(st.(idx := Clamp(st.idx + 1, n)));
  }

  /** Moving up stops at the first candidate. */
  lemma MoveUp(items: seq<Items.Item>, st: State)
    requires InRange(st.idx, |View(items, st.query)|)
    ensures Step(items, st, Up) == Again(st.(idx := if st.idx > 0 then st.idx - 1 else 0))
  {
    var n := |View(items, st.query)|;
    assert Handle(items, st, Up) == st.(idx := st.idx - 1);
    assert Step(items, st, Up) == Again(st.(idx := Clamp(st.idx - 1, n)));
  }

  /** Page down moves PageStep entries, stopping at the last one. */
  lemma MovePageDown(items: seq<Items.Item>, st: State)
    requires InRange(st.idx, |View(items, st.query)|)
    ensures var n := |View(items, st.query)|;
      Step(items, st, PageDown) == Again(st.(idx := if n == 0 then 0 else if st.idx + PageStep < n then st.idx + PageStep else n - 1))
  {
    var n := |View(items, st.query)|;
    assert Handle(items, st, PageDown) == st.(idx := st.idx + PageStep);
    assert Step(items, st, PageDown) == Again(st.(idx := Clamp(st.idx + PageStep, n)));
  }

  /** Page up moves PageStep entries, stopping at the first one. */
  lemma MovePageUp(items: seq<Items.Item>, st: State)
    requires InRange(st.idx, |View(items, st.query)|)
    ensures Step(items, st, PageUp) == Again(st.(idx := if st.idx >= PageStep then st.idx - PageStep else 0))
  {
    var n := |View(items, st.query)|;
    assert Handle(items, st, PageUp) == st.(idx := st.idx - PageStep);
    assert Step(items, st, PageUp) == Again(st.(idx := Clamp(st.idx - PageStep, n)));
  }

  /** Home goes to the first candidate. */
  lemma MoveHome(items: seq<Items.Item>, st: State)
    requires InRange(st.idx, |View(items, st.query)|)
    ensures Step(items, st, Home) == Again(st.(idx := 0))
  {
    var n := |View(items, st.query)|;
    assert Handle(items, st, Home) == st.(idx := 0);
    assert Step(items, st, Home) == Again(st.(idx := Clamp(0, n)));
  }

  /** End goes to the last candidate, and stays put on an empty list. */
  lemma MoveEnd(items: seq<Items.Item>, st: State)
    requires InRange(st.idx, |View(items, st.query)|)
    ensures var n := |View(items, st.query)|;
      Step(items, st, End) == Again(st.(idx := if n == 0 then 0 else n - 1))
  {
    var n := |View(items, st.query)|;
    var h := if n > 0 then st.(idx := n - 1) else st;
    assert Handle(items, st, End) == h;
    assert Step(items, st, End) == Again(h.(idx := Clamp(h.idx, n)));
  }

  // ---------------- Properties of the whole loop ----------------

  /** Whatever the loop confirms is one of the candidates, and the loop
      never reports an invalid selection. */
  lemma {:induction false} RunConfirmedSound(items: seq<Items.Item>, st: State, keys: seq<Key>)
    requires InRange(st.idx, |View(items, st.query)|)
    ensures RunFrom(items, st, keys).Confirmed? ==> RunFrom(items, st, keys).item in items
    ensures !RunFrom(items, st, keys).InvalidSelection?
    decreases |keys|
  {
    if keys != [] {
      match Step(items, st, keys[0])
      case Finish(o) =>
        if keys[0] == Enter {
          EnterConfirms(items, st);
        }
      case Again(st') =>
        RunConfirmedSound(items, st', keys[1..]);
    }
  }

  lemma RunSound(items: seq<Items.Item>, keys: seq<Key>)
    ensures Run(items, keys).Confirmed? ==> Run(items, keys).item in items
    ensures Run(items, keys) != InvalidSelection
  {
    RunConfirmedSound(items, Initial(items), keys);
  }

  /** With no candidates at all, nothing can be confirmed: the loop ends
      only by Ctrl-C or a read error. */
  lemma {:induction false} RunEmpty(st: State, keys: seq<Key>)
    requires InRange(st.idx, |View([], st.query)|)
    ensures RunFrom([], st, keys) == Cancelled || RunFrom([], st, keys) == ReadFailed
    decreases |keys|
  {
    Ranking.RankedLimit([], st.query, ViewLimit);
    if keys != [] {
      match Step([], st, keys[0])
      case Finish(o) =>
      case Again(st') =>
        RunEmpty(st', keys[1..]);
    }
  }

  /** The states the loop passes through, one per key read, until it ends. */
  function Trace(items: seq<Items.Item>, st: State, keys: seq<Key>): seq<State>
    requires InRange(st.idx, |View(items, st.query)|)
    decreases |keys|
  {
    if keys == [] then [st]
    else match Step(items, st, keys[0])
      case Finish(_) => [st]
      case Again(st') => [st] + Trace(items, st', keys[1..])
  }

  /** Every state the loop passes through has a printable query and an
      index inside the list shown. */
  lemma {:induction false} TracePrintable(items: seq<Items.Item>, st: State, keys: seq<Key>)
    requires InRange(st.idx, |View(items, st.query)|) && Printable(st.query)
    ensures forall s :: s in Trace(items, st, keys) ==> Printable(s.query) && InRange(s.idx, |View(items, s.query)|)
    decreases |keys|
  {
    if keys != [] {
      StepPrintable(items, st, keys[0]);
      match Step(items, st, keys[0])
      case Finish(_) =>
      case Again(st') =>
        TracePrintable(items, st', keys[1..]);
    }
  }

  lemma RunPrintable(items: seq<Items.Item>, keys: seq<Key>)
    ensures forall s :: s in Trace(items, Initial(items), keys) ==> Printable(s.query)
  {
    TracePrintable(items, Initial(items), keys);
  }

  // ---------------- The number prompt ----------------

  /** promptOnce and the Windows branch (main.go:389-404, 528-543): the
      candidates for the query, cut to `limit`, and the pick of entry
      number n (counting from 1). */
  function PromptPick(items: seq<Items.Item>, q: string, n: int, limit: int): Outcome {
    var cands := Ranking.Ranked(items, q, limit);
    if n <= 0 || n > |cands| then InvalidSelection else Confirmed(cands[n - 1].item)
  }

  function PromptOnce(items: seq<Items.Item>, q: string, n: int): Outcome {
    PromptPick(items, q, n, 30)
  }

  function WindowsSelect(items: seq<Items.Item>, q: string, n: int): Outcome {
    PromptPick(items, q, n, 20)
  }

  /** The pick succeeds exactly for 1 <= n <= the number of candidates
      shown, and then yields the n-th one, a candidate that matched. */
  lemma PromptPickIff(items: seq<Items.Item>, q: string, n: int, limit: int)
    ensures PromptPick(items, q, n, limit).Confirmed? <==> 1 <= n <= |Ranking.Ranked(items, q, limit)|
    ensures PromptPick(items, q, n, limit).Confirmed? ==>
      PromptPick(items, q, n, limit).item == Ranking.Ranked(items, q, limit)[n - 1].item
      && PromptPick(items, q, n, limit).item in items
      && Fuzzy.Score(q, Ranking.SearchKey(PromptPick(items, q, n, limit).item)) >= 0
    ensures !PromptPick(items, q, n, limit).Confirmed? ==> PromptPick(items, q, n, limit) == InvalidSelection
  {
    Ranking.RankedSound(items, q, limit);
    var c := Ranking.Ranked(items, q, limit);
    if 1 <= n <= |c| {
      assert c[n - 1] in c;
    }
  }

  /** The Windows branch shows at most 20 entries, so it rejects numbers
      above 20 that promptOnce might accept. */
  lemma WindowsLimit(items: seq<Items.Item>, q: string, n: int)
    requires n > 20
    ensures WindowsSelect(items, q, n) == InvalidSelection
  {
    Ranking.RankedLimit(items, q, 20);
  }
}

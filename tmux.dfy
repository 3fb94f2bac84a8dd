/** The tmux orchestration (main.go:204-240, 658-664). Every tmux command
    goes through the Shell interface; here the shell is an oracle `run`
    that says whether a command succeeds, and each operation returns its
    result together with the log of the commands it issued, in order. */
module Tmux {
  import Strings
  import Slices
  import Items

  /** A command line: the program name and its arguments. */
  type Command = seq<string>

  function HasSessionCmd(name: string): Command { ["tmux", "has-session", "-t", name] }
  function SwitchClientCmd(name: string): Command { ["tmux", "switch-client", "-t", name] }
  function AttachCmd(name: string): Command { ["tmux", "attach", "-t", name] }
  function NewSessionCmd(sess: string, dir: string): Command { ["tmux", "new-session", "-ds", sess, "-c", dir] }
  function ListSessionsCmd(): Command { ["tmux", "list-sessions", "-F", "#S"] }

  /** The result of an operation: whether it returned a nil error, and the
      commands it ran. */
  datatype Outcome = Outcome(ok: bool, log: seq<Command>)

  /** hasSession (main.go:221-223). */
  function HasSession(run: Command -> bool, name: string): Outcome {
    Outcome(run(HasSessionCmd(name)), [HasSessionCmd(name)])
  }

  /** The command switchToSession runs: switch-client inside tmux, attach
      outside it. */
  function SwitchCmd(name: string, inTmux: bool): Command {
    if inTmux then SwitchClientCmd(name) else AttachCmd(name)
  }

  /** switchToSession (main.go:225-230). */
  function SwitchToSession(run: Command -> bool, name: string, inTmux: bool): Outcome {
    Outcome(run(SwitchCmd(name, inTmux)), [SwitchCmd(name, inTmux)])
  }

  /** createOrSwitchForDir (main.go:232-240). */
  function CreateOrSwitchForDir(run: Command -> bool, sess: string, dir: string, inTmux: bool): Outcome {
    var h := HasSession(run, sess);
    if h.ok then
      var s := SwitchToSession(run, sess, inTmux);
      Outcome(s.ok, h.log + s.log)
    else if !run(NewSessionCmd(sess, dir)) then
      Outcome(false, h.log + [NewSessionCmd(sess, dir)])
    else
      var s := SwitchToSession(run, sess, inTmux);
      Outcome(s.ok, h.log + [NewSessionCmd(sess, dir)] + s.log)
  }

  /** On a hit the only other command is the switch, and its result is the
      result. */
  lemma CreateOrSwitchHit(run: Command -> bool, sess: string, dir: string, inTmux: bool)
    requires run(HasSessionCmd(sess))
    ensures CreateOrSwitchForDir(run, sess, dir, inTmux)
      == Outcome(run(SwitchCmd(sess, inTmux)), [HasSessionCmd(sess), SwitchCmd(sess, inTmux)])
  {
  }

  /** On a miss the session is created detached in `dir`; if that fails the
      error comes back and nothing is switched to. */
  lemma CreateOrSwitchMiss(run: Command -> bool, sess: string, dir: string, inTmux: bool)
    requires !run(HasSessionCmd(sess))
    ensures var r := CreateOrSwitchForDir(run, sess, dir, inTmux);
      if run(NewSessionCmd(sess, dir)) then
        r == Outcome(run(SwitchCmd(sess, inTmux)), [HasSessionCmd(sess), NewSessionCmd(sess, dir), SwitchCmd(sess, inTmux)])
      else
        r == Outcome(false, [HasSessionCmd(sess), NewSessionCmd(sess, dir)])
  {
  }

  /** Whatever the shell answers: has-session comes first, a session is
      created only when none exists, the switch happens exactly when the
      session exists or was just created, and success means the switch
      succeeded. */
  lemma CreateOrSwitchLog(run: Command -> bool, sess: string, dir: string, inTmux: bool)
    ensures var r := CreateOrSwitchForDir(run, sess, dir, inTmux);
      && 2 <= |r.log| <= 3
      && r.log[0] == HasSessionCmd(sess)
      && (NewSessionCmd(sess, dir) in r.log <==> !run(HasSessionCmd(sess)))
      && (SwitchCmd(sess, inTmux) in r.log <==> run(HasSessionCmd(sess)) || run(NewSessionCmd(sess, dir)))
      && (r.ok <==> SwitchCmd(sess, inTmux) in r.log && run(SwitchCmd(sess, inTmux)))
      && (forall c :: c in r.log ==> c[0] == "tmux" && c[|c| - 1] in {sess, dir})
  {
    assert HasSessionCmd(sess) != NewSessionCmd(sess, dir) && HasSessionCmd(sess) != SwitchCmd(sess, inTmux);
    assert NewSessionCmd(sess, dir) != SwitchCmd(sess, inTmux);
  }

  /** The fake shell of main_test.go:71-95: has-session fails for the
      session, every other command succeeds. Both the inside-tmux and the
      outside-tmux paths then create the session and switch to it. */
  lemma FakeShellScenario(run: Command -> bool)
    requires forall c :: run(c) <==> c != HasSessionCmd("ivuorinen_a")
    ensures CreateOrSwitchForDir(run, "ivuorinen_a", "/Code/ivuorinen/a", true)
      == Outcome(true, [HasSessionCmd("ivuorinen_a"), NewSessionCmd("ivuorinen_a", "/Code/ivuorinen/a"), SwitchClientCmd("ivuorinen_a")])
    ensures CreateOrSwitchForDir(run, "ivuorinen_a", "/Code/ivuorinen/a", false)
      == Outcome(true, [HasSessionCmd("ivuorinen_a"), NewSessionCmd("ivuorinen_a", "/Code/ivuorinen/a"), AttachCmd("ivuorinen_a")])
  {
    var sess, dir := "ivuorinen_a", "/Code/ivuorinen/a";
    assert NewSessionCmd(sess, dir) != HasSessionCmd(sess);
    assert SwitchClientCmd(sess) != HasSessionCmd(sess);
    assert AttachCmd(sess) != HasSessionCmd(sess);
  }

  /** The end of main (main.go:658-664): a session is switched to, a
      repository or bookmark gets its session created or switched to. */
  function Activate(run: Command -> bool, it: Items.Item, inTmux: bool): Outcome {
    if it.kind == Items.Session then SwitchToSession(run, it.name, inTmux)
    else CreateOrSwitchForDir(run, it.name, it.path, inTmux)
  }

  /** Activating a live session never creates one; activating a directory
      creates its session, if at all, in the directory's path. */
  lemma ActivateCreates(run: Command -> bool, it: Items.Item, inTmux: bool)
    ensures it.kind == Items.Session ==>
      Activate(run, it, inTmux).log == [SwitchCmd(it.name, inTmux)]
    ensures it.kind != Items.Session ==>
      forall c :: c in Activate(run, it, inTmux).log && c[1] == "new-session" ==> c == NewSessionCmd(it.name, it.path)
  {
    if it.kind != Items.Session {
      CreateOrSwitchLog(run, it.name, it.path, inTmux);
    }
  }

  // ---------------- listTmuxSessions ----------------

  /** What shell.Output gives for ListSessionsCmd(): an error, or the
      standard output. */
  datatype Output = Failed | Printed(text: string)

  /** The scanner loop: each line trimmed, empty ones dropped, in order. */
  function Kept(lines: seq<string>): seq<string>
    decreases |lines|
  {
    if lines == [] then []
    else
      var t := Strings.TrimSpace(lines[|lines| - 1]);
      Kept(lines[..|lines| - 1]) + (if t != "" then [t] else [])
  }

  /** listTmuxSessions (main.go:204-219) as a value. */
  function Sessions(output: Output): seq<string> {
    match output
    case Failed => []
    case Printed(text) => Slices.SortBy(Kept(Strings.Split(text, '\n')), Strings.Le)
  }

  /** listTmuxSessions, given what `tmux list-sessions -F #S` printed. */
  method ListTmuxSessions(output: Output) returns (res: seq<string>)
    ensures res == Sessions(output)
  {
    if output.Failed? {
      return [];
    }
    var lines := Strings.Split(output.text, '\n');
    res := [];
    var i := 0;
    while i < |lines|
      invariant 0 <= i <= |lines|
      invariant res == Kept(lines[..i])
    {
      var line := Strings.TrimSpace(lines[i]);
      assert lines[..i + 1][..i] == lines[..i];
      if line != "" {
        res := res + [line];
      }
      i := i + 1;
    }
    assert lines[..i] == lines;
    res := Slices.SortBy(res, Strings.Le);
  }

  /** The kept lines are exactly the non-empty trimmed lines. */
  lemma {:induction false} KeptExact(lines: seq<string>)
    ensures forall x :: x in Kept(lines) <==> exists i :: 0 <= i < |lines| && x == Strings.TrimSpace(lines[i]) && x != ""
    decreases |lines|
  {
    if lines != [] {
      var init := lines[..|lines| - 1];
      KeptExact(init);
      forall x | (exists i :: 0 <= i < |lines| && x == Strings.TrimSpace(lines[i]) && x != "")
        ensures x in Kept(lines)
      {
        var i :| 0 <= i < |lines| && x == Strings.TrimSpace(lines[i]) && x != "";
        if i < |init| {
          assert init[i] == lines[i];
        }
      }
      forall x | x in Kept(lines)
        ensures exists i :: 0 <= i < |lines| && x == Strings.TrimSpace(lines[i]) && x != ""
      {
        if x in Kept(init) {
          var i :| 0 <= i < |init| && x == Strings.TrimSpace(init[i]) && x != "";
          assert lines[i] == init[i];
        } else {
          assert x == Strings.TrimSpace(lines[|lines| - 1]);
        }
      }
    }
  }

  /** On an error the list is empty; otherwise it is sorted, and its names
      are exactly the non-empty trimmed lines of the output, each trimmed,
      non-empty and free of line breaks. */
  lemma SessionsExact(output: Output)
    ensures output.Failed? ==> Sessions(output) == []
    ensures Slices.SortedBy(Sessions(output), Strings.Le)
    ensures output.Printed? ==> multiset(Sessions(output)) == multiset(Kept(Strings.Split(output.text, '\n')))
    ensures output.Printed? ==> forall x :: x in Sessions(output) <==>
      exists i :: 0 <= i < |Strings.Split(output.text, '\n')|
        && x == Strings.TrimSpace(Strings.Split(output.text, '\n')[i]) && x != ""
    ensures forall x :: x in Sessions(output) ==> x != "" && Strings.TrimSpace(x) == x && '\n' !in x
  {
    if output.Printed? {
      var lines := Strings.Split(output.text, '\n');
      var k := Kept(lines);
      var r := Sessions(output);
      Strings.LeTotalPreorder();
      Slices.SortByIsSorted(k, Strings.Le);
      KeptExact(lines);
      forall x | x in r ensures x in k {
        assert x in multiset(r);
      }
      forall x | x in k ensures x in r {
        assert x in multiset(k);
      }
      forall x | x in r ensures x != "" && Strings.TrimSpace(x) == x && '\n' !in x {
        var i :| 0 <= i < |lines| && x == Strings.TrimSpace(lines[i]) && x != "";
        Strings.TrimSpaceIdempotent(lines[i]);
      }
    }
  }

  /** Two lines, then an empty one, each ended by a line break. */
  lemma SplitTwoLines(a: string, b: string)
    requires '\n' !in a && '\n' !in b
    ensures Strings.Split(a + "\n" + b + "\n\n", '\n') == [a, b, "", ""]
  {
    Strings.SplitNoSep("", '\n');
    Strings.SplitAppend("", "", '\n');
    assert "" + ['\n'] + "" == "\n";
    Strings.SplitAppend("", "\n", '\n');
    assert "" + ['\n'] + "\n" == "\n\n";
    assert Strings.Split("\n\n", '\n') == ["", "", ""];
    Strings.SplitAppend(b, "\n", '\n');
    assert b + ['\n'] + "\n" == b + "\n\n";
    Strings.SplitAppend(a, b + "\n\n", '\n');
    assert a + ['\n'] + (b + "\n\n") == a + "\n" + b + "\n\n";
  }

  lemma KeptExample()
    ensures Kept(["work", "  api ", "", ""]) == ["work", "api"]
  {
    var lines := ["work", "  api ", "", ""];
    assert Strings.TrimSpace("  api ") == "api";
    assert Strings.TrimSpace("") == "" && Strings.TrimSpace("work") == "work";
    assert lines[..3][..2] == lines[..2] && lines[..2][..1] == lines[..1] && lines[..1][..0] == [];
    assert Kept(lines[..1]) == ["work"];
    assert Kept(lines[..2]) == ["work", "api"];
  }

  /** Blank lines and surrounding blanks are dropped and the names come out
      sorted. */
  lemma SessionsExample(text: string)
    requires text == "work" + "\n" + "  api " + "\n\n"
    ensures Sessions(Printed(text)) == ["api", "work"]
  {
    SplitTwoLines("work", "  api ");
    KeptExample();
    assert Strings.Less("api", "work");
    SortTwo("work", "api");
  }

  lemma SortTwo(a: string, b: string)
    requires Strings.Less(b, a)
    ensures Slices.SortBy([a, b], Strings.Le) == [b, a]
  {
    Strings.LessAsymmetric(b, a);
    Strings.LessIrreflexive(a);
    assert [a, b][1..] == [b];
    assert Slices.SortBy([b], Strings.Le) == [b];
  }
}

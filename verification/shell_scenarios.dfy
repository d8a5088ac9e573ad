/**
 * Whole lines run through the shell model: the examples the shell's own
 * tests use, and the general rule for a line without a pipe.
 */
module ShellScenarios {
  import opened Results
  import opened GoStrings
  import opened GoStrconv
  import opened Shell

  /** A line without `|` is one stage, run outside pipeline mode. */
  lemma {:induction false} SingleStage(line: string, env: Env, host: Host)
    requires '|' !in line
    ensures var step := ExecCommand(line, None, false, env, host);
            RunStages(Split(line, "|"), None, IsChain(line), env, host) == step
  {
    SplitLiteral(line, '|', [line]);
    var step := ExecCommand(line, None, false, env, host);
    assert [line][1..] == [];
    if step.outcome.Done? {
      assert RunStages([], step.outcome.out, false, step.env, host) == step;
    }
  }

  /** Splitting a string that is known to be the join of separator-free parts. */
  lemma SplitLiteral(s: string, c: char, parts: seq<string>)
    requires |parts| > 0 && forall i :: 0 <= i < |parts| ==> c !in parts[i]
    requires Join(parts, [c]) == s
    ensures Split(s, [c]) == parts
  {
    SplitJoin(parts, c);
  }

  lemma EchoWord(word: string, input: Option<Buffer>, chain: bool, env: Env, host: Host)
    ensures Execute(Echo, [word], input, chain, env, host) == Step(Done(Some(word + "\n")), env)
  {
  }

  /** A stage whose tokens are `echo word` outputs the word and a newline, whatever its input. */
  lemma EchoStage(stage: string, word: string, input: Option<Buffer>, chain: bool, env: Env, host: Host)
    requires Tokenize(stage) == ["echo", word]
    ensures ExecCommand(stage, input, chain, env, host) == Step(Done(Some(word + "\n")), env)
  {
    LookupName(Echo);
    assert ["echo", word][1..] == [word];
    EchoWord(word, input, chain, env, host);
  }

  /** execCommand("echo hello"): the buffer "hello\n" and no error. */
  lemma EchoHello(line: string, env: Env, host: Host)
    requires line == "echo hello"
    ensures ExecCommand(line, None, false, env, host) == Step(Done(Some("hello\n")), env)
  {
    assert Join(["echo", "hello"], " ") == line;
    SplitLiteral(line, ' ', ["echo", "hello"]);
    EchoStage(line, "hello", None, false, env, host);
    assert "hello" + "\n" == "hello\n";
  }

  /** A line of two stages that both finish normally prints what the second one produced. */
  lemma TwoStageLine(line: string, s1: string, s2: string, o1: Option<Buffer>, o2: Option<Buffer>, env: Env, host: Host)
    requires Split(line, "|") == [s1, s2]
    requires ExecCommand(s1, None, true, env, host) == Step(Done(o1), env)
    requires ExecCommand(s2, o1, true, env, host) == Step(Done(o2), env)
    ensures ExecCommands(line, env, host) == (Printed(Flush(o2)), env)
  {
    SplitSingleCount(line, '|');
    assert IsChain(line);
    var stages := [s1, s2];
    assert stages[1..] == [s2];
    assert [s2][1..] == [];
    assert RunStages([], o2, true, env, host) == Step(Done(o2), env);
    assert RunStages([s2], o1, true, env, host) == Step(Done(o2), env);
    assert RunStages(stages, None, true, env, host) == Step(Done(o2), env);
  }

  lemma EchoAStage(stage: string, env: Env, host: Host)
    requires stage == "echo a "
    ensures ExecCommand(stage, None, true, env, host) == Step(Done(Some("a\n")), env)
  {
    assert Join(["echo", "a", ""], " ") == stage;
    SplitLiteral(stage, ' ', ["echo", "a", ""]);
    EchoStage(stage, "a", None, true, env, host);
    assert "a" + "\n" == "a\n";
  }

  lemma EchoBStage(stage: string, env: Env, host: Host)
    requires stage == " echo b"
    ensures ExecCommand(stage, Some("a\n"), true, env, host) == Step(Done(Some("b\n")), env)
  {
    assert Join(["", "echo", "b"], " ") == stage;
    SplitLiteral(stage, ' ', ["", "echo", "b"]);
    EchoStage(stage, "b", Some("a\n"), true, env, host);
    assert "b" + "\n" == "b\n";
  }

  /** In "echo a | echo b" the second echo ignores the first one's output: "b\n" is printed. */
  lemma EchoPipeline(line: string, env: Env, host: Host)
    requires line == "echo a | echo b"
    ensures ExecCommands(line, env, host) == (Printed("b\n"), env)
  {
    var s1, s2 := line[..7], line[8..];
    assert s1 == "echo a " && s2 == " echo b";
    assert Join([s1, s2], "|") == line;
    SplitLiteral(line, '|', [s1, s2]);
    EchoAStage(s1, env, host);
    EchoBStage(s2, env, host);
    TwoStageLine(line, s1, s2, Some("a\n"), Some("b\n"), env, host);
  }

  lemma EchoHelloStage(stage: string, env: Env, host: Host)
    requires stage == "echo hello "
    ensures ExecCommand(stage, None, true, env, host) == Step(Done(Some("hello\n")), env)
  {
    assert Join(["echo", "hello", ""], " ") == stage;
    SplitLiteral(stage, ' ', ["echo", "hello", ""]);
    EchoStage(stage, "hello", None, true, env, host);
    assert "hello" + "\n" == "hello\n";
  }

  lemma GrepStage(stage: string, input: Option<Buffer>, env: Env, host: Host)
    requires stage == " grep h"
    ensures ExecCommand(stage, input, true, env, host) == Step(Done(None), env)
  {
    assert Join(["", "grep", "h"], " ") == stage;
    SplitLiteral(stage, ' ', ["", "grep", "h"]);
    assert "grep" !in BuiltinNames;
  }

  /** "echo hello | grep h": `grep` is no built-in, so the line ends without error and prints nothing. */
  lemma EchoThenGrep(line: string, env: Env, host: Host)
    requires line == "echo hello | grep h"
    ensures ExecCommands(line, env, host) == (Printed(""), env)
  {
    var s1, s2 := line[..11], line[12..];
    assert s1 == "echo hello " && s2 == " grep h";
    assert Join([s1, s2], "|") == line;
    SplitLiteral(line, '|', [s1, s2]);
    EchoHelloStage(s1, env, host);
    GrepStage(s2, Some("hello\n"), env, host);
    TwoStageLine(line, s1, s2, Some("hello\n"), None, env, host);
  }

  /** A stage whose tokens are `kill word`, where the word is not a number, fails with that parse error. */
  lemma KillStage(stage: string, word: string, input: Option<Buffer>, chain: bool, env: Env, host: Host)
    requires Tokenize(stage) == ["kill", word] && Atoi(word).Err?
    ensures ExecCommand(stage, input, chain, env, host) == Step(Failed(BadPid(NumError(word))), env)
  {
    LookupName(Kill);
    assert ["kill", word][1..] == [word];
  }

  /** A line without `|` ends as its single stage does. */
  lemma OneStageLine(line: string, env: Env, host: Host)
    requires '|' !in line
    ensures var step := ExecCommand(line, None, false, env, host);
            step.outcome.Failed? ==> ExecCommands(line, env, host) == (Aborted(step.outcome.err), step.env)
  {
    SingleStage(line, env, host);
  }

  lemma KillAbcStage(line: string, env: Env, host: Host)
    requires line == "kill abc"
    ensures ExecCommand(line, None, false, env, host) == Step(Failed(BadPid(NumError("abc"))), env)
  {
    KillAbcTokens(line);
    AbcIsNoNumber();
    KillStage(line, "abc", None, false, env, host);
  }

  /** "kill abc" is the two tokens "kill" and "abc". */
  lemma KillAbcTokens(line: string)
    requires line == "kill abc"
    ensures Tokenize(line) == ["kill", "abc"]
  {
    assert Join(["kill", "abc"], " ") == line;
    SplitLiteral(line, ' ', ["kill", "abc"]);
  }

  /** "abc" is no numeral, so Atoi reports it. */
  lemma AbcIsNoNumber()
    ensures Atoi("abc") == Err(NumError("abc"))
  {
    assert !IsDigit("abc"[0]);
  }

  /** "kill abc": the pid does not parse, so the line fails with that error and no signal is sent. */
  lemma KillBadPid(line: string, env: Env, host: Host)
    requires line == "kill abc"
    ensures ExecCommands(line, env, host) == (Aborted(BadPid(NumError("abc"))), env)
  {
    assert '|' !in line;
    KillAbcStage(line, env, host);
    OneStageLine(line, env, host);
  }
}

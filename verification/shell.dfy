/**
 * The shell's dispatch-and-pipeline engine (develop/dev08/task.go).
 *
 * A line is split into stages on `|`; each stage is split on spaces into a
 * command name and its arguments; the name selects one of eight built-ins;
 * the stages run left to right, each receiving the previous stage's output
 * buffer, and the first error ends the line. The operating system is an
 * explicit `Env` value (working directory, and logs of the signals sent and
 * the children spawned) together with a `Host` whose functions stand for the
 * OS calls the model does not interpret: directory changes, the output
 * of children and the `/proc` listing, each of which depends on the
 * signals and spawns made so far, and whether a signal reaches the shell
 * itself.
 */
module Shell {
  import opened Results
  import opened GoStrings
  import opened GoStrconv
  import opened Sorting

  /** Captured standard output of a stage; characters stand for bytes. */
  type Buffer = string

  /** An error reported by the operating system (a `*PathError` and the like). */
  datatype OsError = OsError(code: int)

  /** The errors a stage can return. */
  datatype ShellError = BadPid(parse: NumError) | OsFailure(os: OsError)

  /** One entry of the `/proc` glob for executables: the per-process directory name, and what Readlink returned ("" on failure). */
  datatype ProcEntry = ProcEntry(dir: string, link: string)

  /** One line of `ps`. */
  datatype Proc = Proc(name: string, pid: int)

  /** An external process run to completion: program, arguments, the buffer fed to its stdin, and the directory it inherits. */
  datatype Spawn = Spawn(name: string, args: seq<string>, stdin: Option<Buffer>, dir: string)

  /** The part of the operating system the shell reads and changes. */
  datatype Env = Env(cwd: string, signalled: seq<int>, spawned: seq<Spawn>)

  /** Operating-system behaviour the model leaves uninterpreted. */
  datatype Host = Host(
    chdir: (string, string, seq<Spawn>) -> Result<string, OsError>,  // (directory, argument, children so far) to the new directory
    getwd: (string, seq<Spawn>) -> Result<string, OsError>,          // what os.Getwd reports in a directory, after these children
    run: (Spawn, seq<Spawn>) -> Buffer,                              // the captured stdout of a child, after the children before it
    procs: (seq<int>, seq<Spawn>) -> seq<ProcEntry>,                 // the `/proc/<pid>/exe` glob after these signals and spawns
    killsShell: int -> bool                                          // whether SIGKILL to this pid reaches the shell itself
  )

  /** The built-in commands. */
  datatype Command = Cd | Pwd | Echo | Ps | Kill | ExecCmd | Fork | ExitCmd

  /**
   * How a stage ends: with an optional buffer, with an error, by ending
   * the shell process (os.Exit, or a SIGKILL that reaches the shell), or by
   * an index-out-of-range panic.
   */
  datatype Outcome = Done(out: Option<Buffer>) | Failed(err: ShellError) | Exited | Panicked

  datatype Step = Step(outcome: Outcome, env: Env)

  /** How a whole line ends; `Printed` carries what was written to stdout. */
  datatype LineResult = Printed(text: string) | Aborted(err: ShellError) | ShellExited | Crashed

  const BuiltinNames: set<string> := {"cd", "pwd", "echo", "ps", "kill", "exec", "fork", "exit"}

  function Name(c: Command): string {
    match c
    case Cd => "cd"
    case Pwd => "pwd"
    case Echo => "echo"
    case Ps => "ps"
    case Kill => "kill"
    case ExecCmd => "exec"
    case Fork => "fork"
    case ExitCmd => "exit"
  }

  /** The `switch args[0]` of execCommand: a built-in for the eight names, nothing otherwise. */
  function Lookup(name: string): (r: Option<Command>)
    ensures r.Some? <==> name in BuiltinNames
    ensures r.Some? ==> Name(r.value) == name
  {
    if name == "cd" then Some(Cd)
    else if name == "pwd" then Some(Pwd)
    else if name == "echo" then Some(Echo)
    else if name == "ps" then Some(Ps)
    else if name == "kill" then Some(Kill)
    else if name == "exec" then Some(ExecCmd)
    else if name == "fork" then Some(Fork)
    else if name == "exit" then Some(ExitCmd)
    else None
  }

  /** Every built-in is found under its own name. */
  lemma LookupName(c: Command)
    ensures Lookup(Name(c)) == Some(c)
  {
  }

  // ---------------------------------------------------------------- tokens

  /**
   * The tokens of one stage: split on the space character only, with the
   * empty pieces dropped. No token is empty or holds a space, and the
   * tokens together hold every other character of the stage, in order
   * (so a tab stays inside its token).
   */
  function Tokenize(stage: string): (r: seq<string>)
    ensures forall i :: 0 <= i < |r| ==> |r[i]| > 0 && ' ' !in r[i]
    ensures Concat(r) == Without(stage, ' ')
  {
    var pieces := Split(stage, " ");
    SplitSingleLacks(stage, ' ');
    ConcatNonEmpty(pieces);
    ConcatSplitSingle(stage, ' ');
    NonEmptyKeeps(pieces, ' ');
    NonEmpty(pieces)
  }

  /**
   * Tokens are cut at every space: the tokens of `a`, a space, and `b` are
   * the tokens of `a` followed by those of `b`. With TokenizeWord this fixes
   * the tokens of every stage.
   */
  lemma TokenizeAtSpace(a: string, b: string)
    ensures Tokenize(a + " " + b) == Tokenize(a) + Tokenize(b)
  {
    assert a + " " + b == a + [' '] + b;
    SplitAround(a, ' ', b);
    NonEmptyAppend(Split(a, " "), Split(b, " "));
  }

  /** A non-empty stage without spaces is a single token. */
  lemma TokenizeWord(w: string)
    requires |w| > 0 && ' ' !in w
    ensures Tokenize(w) == [w]
  {
  }

  /** Tokens joined by single spaces tokenize back to themselves. */
  lemma TokenizeJoin(tokens: seq<string>)
    requires forall i :: 0 <= i < |tokens| ==> |tokens[i]| > 0 && ' ' !in tokens[i]
    ensures Tokenize(Join(tokens, " ")) == tokens
  {
    if |tokens| == 0 {
      assert Split("", " ") == [""];
    } else {
      SplitJoin(tokens, ' ');
      NonEmptyKeepsAll(tokens);
    }
  }

  lemma NonEmptyKeeps(parts: seq<string>, c: char)
    requires forall i :: 0 <= i < |parts| ==> c !in parts[i]
    ensures forall i :: 0 <= i < |NonEmpty(parts)| ==> c !in NonEmpty(parts)[i]
  {
    if |parts| > 0 {
      NonEmptyKeeps(parts[1..], c);
    }
  }

  /** A stage has no tokens exactly when it is made of spaces only. */
  lemma TokenizeEmpty(stage: string)
    ensures |Tokenize(stage)| == 0 <==> forall i :: 0 <= i < |stage| ==> stage[i] == ' '
  {
    var r := Tokenize(stage);
    if |r| == 0 {
      WithoutEmpty(stage, ' ');
    } else {
      assert |r[0]| > 0;
      ConcatNonEmptyParts(r);
      assert |Without(stage, ' ')| > 0;
      WithoutNonEmpty(stage, ' ');
    }
  }

  lemma WithoutEmpty<T>(s: seq<T>, c: T)
    requires |Without(s, c)| == 0
    ensures forall i :: 0 <= i < |s| ==> s[i] == c
  {
    if |s| > 0 {
      WithoutEmpty(s[1..], c);
      forall i | 1 <= i < |s|
        ensures s[i] == c
      {
        assert s[i] == s[1..][i - 1];
      }
    }
  }

  lemma WithoutNonEmpty<T>(s: seq<T>, c: T)
    requires |Without(s, c)| > 0
    ensures exists i :: 0 <= i < |s| && s[i] != c
  {
    if s[0] != c {
      assert s[0] != c;
    } else {
      WithoutNonEmpty(s[1..], c);
      var i :| 0 <= i < |s[1..]| && s[1..][i] != c;
      assert s[i + 1] != c;
    }
  }

  lemma ConcatNonEmptyParts<T>(parts: seq<seq<T>>)
    requires |parts| > 0 && |parts[0]| > 0
    ensures |Concat(parts)| > 0
  {
  }

  // ---------------------------------------------------------- the commands

  /** `cd`: a no-op inside a pipeline or without a path; otherwise it changes directory or fails. */
  function RunCd(args: seq<string>, chain: bool, env: Env, host: Host): (r: Step)
    ensures chain || |args| == 0 ==> r == Step(Done(None), env)
    ensures r.outcome.Done? ==> r.outcome.out.None?
    ensures r.outcome.Done? || r.outcome.Failed?
    ensures r.outcome.Failed? <==> !chain && |args| > 0 && host.chdir(env.cwd, args[0], env.spawned).Err?
    ensures r.outcome.Failed? ==> r.env == env
    ensures r.outcome.Done? && !chain && |args| > 0 ==> r.env == env.(cwd := host.chdir(env.cwd, args[0], env.spawned).value)
  {
    if !chain && |args| > 0 then
      match host.chdir(env.cwd, args[0], env.spawned)
      case Ok(dir) => Step(Done(None), env.(cwd := dir))
      case Err(e) => Step(Failed(OsFailure(e)), env)
    else
      Step(Done(None), env)
  }

  /** `echo`: its first argument (or nothing) followed by a newline. */
  function RunEcho(args: seq<string>): (r: Buffer)
    ensures |r| > 0 && r[|r| - 1] == '\n'
    ensures r[..|r| - 1] == (if |args| > 0 then args[0] else "")
  {
    if |args| > 0 then args[0] + "\n" else "\n"
  }

  /** `pwd`: the working directory followed by a newline, or the error of reading it. */
  function RunPwd(env: Env, host: Host): (r: Outcome)
    ensures r.Done? || r.Failed?
    ensures r.Done? <==> host.getwd(env.cwd, env.spawned).Ok?
    ensures r.Done? ==> r.out == Some(host.getwd(env.cwd, env.spawned).value + "\n")
  {
    match host.getwd(env.cwd, env.spawned)
    case Ok(dir) => Done(Some(dir + "\n"))
    case Err(e) => Failed(OsFailure(e))
  }

  /** The path without its trailing slashes. */
  function TrimTrailingSlashes(p: string): (r: string)
    ensures |r| <= |p| && r == p[..|r|]
    ensures |r| == 0 || r[|r| - 1] != '/'
    ensures forall i :: |r| <= i < |p| ==> p[i] == '/'
  {
    if |p| > 0 && p[|p| - 1] == '/' then TrimTrailingSlashes(p[..|p| - 1]) else p
  }

  /** The longest suffix of `p` without a slash. */
  function LastElement(p: string): (r: string)
    ensures |r| <= |p| && r == p[|p| - |r|..]
    ensures '/' !in r
    ensures |r| == |p| || p[|p| - |r| - 1] == '/'
  {
    if |p| == 0 || p[|p| - 1] == '/' then ""
    else
      var r := LastElement(p[..|p| - 1]) + [p[|p| - 1]];
      assert p[..|p| - 1][|p| - |r|..] == p[|p| - |r|..|p| - 1];
      r
  }

  /**
   * filepath.Base on Unix: "." for the empty path, "/" for a path of
   * slashes, and otherwise the last element once trailing slashes are gone.
   */
  function Base(path: string): (r: string)
    ensures |r| > 0
    ensures path == "" ==> r == "."
    ensures r == "/" || '/' !in r
  {
    if |path| == 0 then "."
    else
      var t := TrimTrailingSlashes(path);
      if |t| == 0 then "/" else LastElement(t)
  }

  /** The base of `dir/name` is `name`, whatever the directory. */
  lemma BaseOfJoin(dir: string, name: string)
    requires |name| > 0 && '/' !in name
    ensures Base(dir + "/" + name) == name
  {
    var p := dir + "/" + name;
    assert p[|p| - 1] == name[|name| - 1];
    assert TrimTrailingSlashes(p) == p;
    LastElementAfterSlash(dir, name);
  }

  lemma {:induction false} LastElementAfterSlash(dir: string, name: string)
    requires '/' !in name
    ensures LastElement(dir + "/" + name) == name
    decreases |name|
  {
    if |name| > 0 {
      var init := name[..|name| - 1];
      var c := name[|name| - 1];
      assert name == init + [c];
      assert dir + "/" + name == (dir + "/" + init) + [c];
      assert '/' !in init by {
        forall i | 0 <= i < |init| ensures init[i] != '/' {
          assert init[i] == name[i];
        }
      }
      LastElementAfterSlash(dir, init);
      LastElementSnoc(dir + "/" + init, c);
    } else {
      assert dir + "/" + name == dir + "/";
    }
  }

  /** A character other than a slash extends the last element. */
  lemma LastElementSnoc(q: string, c: char)
    requires c != '/'
    ensures LastElement(q + [c]) == LastElement(q) + [c]
  {
    assert (q + [c])[..|q|] == q;
  }

  /** A process-table entry is listed when its link was read and its directory name is a number. */
  predicate Listed(e: ProcEntry) {
    |e.link| > 0 && Atoi(e.dir).Ok?
  }

  function AsProc(e: ProcEntry): (p: Proc)
    requires Listed(e)
    ensures MinInt <= p.pid <= MaxInt
  {
    Proc(Base(e.link), Atoi(e.dir).value)
  }

  /** `p` is what `ps` makes of some listed entry of the table. */
  ghost predicate FromTable(table: seq<ProcEntry>, p: Proc) {
    exists i :: 0 <= i < |table| && Listed(table[i]) && AsProc(table[i]) == p
  }

  /** The processes `ps` finds in the table, in table order. */
  function ParseProcs(table: seq<ProcEntry>): (r: seq<Proc>)
    ensures |r| <= |table|
    ensures forall i :: 0 <= i < |table| && Listed(table[i]) ==> AsProc(table[i]) in r
    ensures forall j :: 0 <= j < |r| ==> FromTable(table, r[j])
    ensures forall j :: 0 <= j < |r| ==> MinInt <= r[j].pid <= MaxInt
  {
    if |table| == 0 then []
    else
      var rest := ParseProcs(table[1..]);
      var r := if Listed(table[0]) then [AsProc(table[0])] + rest else rest;
      ParseProcsOrigin(table, rest, r);
      ParseProcsComplete(table, rest, r);
      r
  }

  lemma ParseProcsComplete(table: seq<ProcEntry>, rest: seq<Proc>, r: seq<Proc>)
    requires |table| > 0
    requires forall i :: 0 <= i < |table[1..]| && Listed(table[1..][i]) ==> AsProc(table[1..][i]) in rest
    requires r == if Listed(table[0]) then [AsProc(table[0])] + rest else rest
    ensures forall i :: 0 <= i < |table| && Listed(table[i]) ==> AsProc(table[i]) in r
  {
    forall i | 0 <= i < |table| && Listed(table[i])
      ensures AsProc(table[i]) in r
    {
      if i > 0 {
        assert table[i] == table[1..][i - 1];
      }
    }
  }

  lemma ParseProcsOrigin(table: seq<ProcEntry>, rest: seq<Proc>, r: seq<Proc>)
    requires |table| > 0
    requires forall j :: 0 <= j < |rest| ==> FromTable(table[1..], rest[j])
    requires r == if Listed(table[0]) then [AsProc(table[0])] + rest else rest
    ensures forall j :: 0 <= j < |r| ==> FromTable(table, r[j])
  {
    forall j | 0 <= j < |r|
      ensures FromTable(table, r[j])
    {
      ParseProcsOriginAt(table, rest, r, j);
    }
  }

  lemma ParseProcsOriginAt(table: seq<ProcEntry>, rest: seq<Proc>, r: seq<Proc>, j: int)
    requires |table| > 0
    requires forall j :: 0 <= j < |rest| ==> FromTable(table[1..], rest[j])
    requires r == if Listed(table[0]) then [AsProc(table[0])] + rest else rest
    requires 0 <= j < |r|
    ensures FromTable(table, r[j])
  {
    if Listed(table[0]) && j == 0 {
      assert Listed(table[0]) && AsProc(table[0]) == r[0];
    } else {
      var k := if Listed(table[0]) then j - 1 else j;
      assert r[j] == rest[k];
      FromTableTail(table, rest[k]);
    }
  }

  lemma FromTableTail(table: seq<ProcEntry>, p: Proc)
    requires |table| > 0 && FromTable(table[1..], p)
    ensures FromTable(table, p)
  {
    var i :| 0 <= i < |table[1..]| && Listed(table[1..][i]) && AsProc(table[1..][i]) == p;
    assert table[i + 1] == table[1..][i];
  }

  /** What the `/proc/<pid>/exe` glob finds now: the host's table after the signals sent and children spawned so far. */
  function ProcTable(env: Env, host: Host): seq<ProcEntry> {
    host.procs(env.signalled, env.spawned)
  }

  function PidLess(a: Proc, b: Proc): bool {
    a.pid < b.pid
  }

  lemma PidOrder()
    ensures StrictWeakOrder(PidLess)
  {
  }

  /** The `ps` listing: the processes of the table, ordered by pid. */
  function PsListing(table: seq<ProcEntry>): (r: seq<Proc>)
    ensures multiset(r) == multiset(ParseProcs(table))
    ensures forall i, j :: 0 <= i < j < |r| ==> r[i].pid <= r[j].pid
  {
    PidOrder();
    Sort(ParseProcs(table), PidLess)
  }

  const PsHeader: string := "PID Name"

  /** One `ps` line: `%d %s\n`. */
  function FormatProc(p: Proc): (r: string)
    ensures |r| > 0 && r[|r| - 1] == '\n'
  {
    FormatInt(p.pid) + " " + p.name + "\n"
  }

  function FormatProcs(listing: seq<Proc>): string {
    if |listing| == 0 then "" else FormatProc(listing[0]) + FormatProcs(listing[1..])
  }

  /** `ps`: the header, with no newline after it, then one line per process in pid order. */
  function PsOutput(table: seq<ProcEntry>): (r: Buffer)
    ensures |r| >= |PsHeader| && r[..|PsHeader|] == PsHeader
  {
    PsHeader + FormatProcs(PsListing(table))
  }

  /** One `ps` line without its newline: the pid, a space, the name. */
  function PsRow(p: Proc): string {
    FormatInt(p.pid) + " " + p.name
  }

  /** The rows of a listing, one per process, in order. */
  function PsRows(listing: seq<Proc>): (r: seq<string>)
    ensures |r| == |listing|
    ensures forall i :: 0 <= i < |r| ==> r[i] == PsRow(listing[i])
  {
    if |listing| == 0 then [] else [PsRow(listing[0])] + PsRows(listing[1..])
  }

  /** The newline-ended lines of `rows`, concatenated. */
  function Lines(rows: seq<string>): string {
    if |rows| == 0 then "" else rows[0] + "\n" + Lines(rows[1..])
  }

  /**
   * After the header, `ps` writes one newline-ended row per listed process,
   * in the listing's (ascending pid) order, and nothing else.
   */
  lemma PsOutputLines(table: seq<ProcEntry>)
    ensures PsOutput(table) == PsHeader + Lines(PsRows(PsListing(table)))
  {
    FormatProcsLines(PsListing(table));
  }

  lemma {:induction false} FormatProcsLines(listing: seq<Proc>)
    ensures FormatProcs(listing) == Lines(PsRows(listing))
    decreases |listing|
  {
    if |listing| > 0 {
      FormatProcsLines(listing[1..]);
      assert PsRows(listing)[1..] == PsRows(listing[1..]);
    }
  }

  /**
   * Reading `ps` output back: when no process name holds a newline, the
   * text after the header splits on newlines into exactly the rows of the
   * listing, then the empty text after the last newline.
   */
  lemma PsOutputReadsBack(table: seq<ProcEntry>)
    requires forall i :: 0 <= i < |PsListing(table)| ==> '\n' !in PsListing(table)[i].name
    ensures Split(PsOutput(table)[|PsHeader|..], "\n") == PsRows(PsListing(table)) + [""]
  {
    var rows := PsRows(PsListing(table));
    PsOutputLines(table);
    assert PsOutput(table)[|PsHeader|..] == Lines(rows);
    RowsLackNewline(PsListing(table));
    LinesJoin(rows);
    SplitJoin(rows + [""], '\n');
  }

  lemma RowsLackNewline(listing: seq<Proc>)
    requires forall i :: 0 <= i < |listing| ==> '\n' !in listing[i].name
    ensures forall i :: 0 <= i < |PsRows(listing) + [""]| ==> '\n' !in (PsRows(listing) + [""])[i]
  {
    var rows := PsRows(listing) + [""];
    forall i | 0 <= i < |rows|
      ensures '\n' !in rows[i]
    {
      if i < |listing| {
        FormatIntHasNoNewline(listing[i].pid);
      }
    }
  }

  lemma FormatIntHasNoNewline(n: int)
    ensures '\n' !in FormatInt(n)
  {
  }

  /** Newline-ended rows are the rows joined by newlines, with an empty last piece. */
  lemma {:induction false} LinesJoin(rows: seq<string>)
    ensures Lines(rows) == Join(rows + [""], "\n")
    decreases |rows|
  {
    if |rows| > 0 {
      LinesJoin(rows[1..]);
      assert (rows + [""])[1..] == rows[1..] + [""];
    }
  }

  /** The pid column of a `ps` line reads back as that line's pid. */
  lemma PsLineParses(p: Proc)
    requires MinInt <= p.pid <= MaxInt
    ensures Split(FormatProc(p), " ")[0] == FormatInt(p.pid)
    ensures Atoi(Split(FormatProc(p), " ")[0]) == Ok(p.pid)
  {
    var digits := FormatInt(p.pid);
    var line := FormatProc(p);
    assert line == digits + (" " + p.name + "\n");
    assert ' ' !in digits by {
      FormatIntHasNoSpace(p.pid);
    }
    assert line[..|digits|] == digits;
    IndexSingleAt(line, ' ', |digits|);
    SplitAtFirst(line, " ", |digits|);
    AtoiFormatInt(p.pid);
  }

  lemma FormatIntHasNoSpace(n: int)
    ensures ' ' !in FormatInt(n)
  {
    var s := FormatInt(n);
    if n < 0 {
      assert s == "-" + FormatNat(-n);
    }
  }

  /**
   * `kill`: without an argument nothing happens; a non-numeric pid is an
   * error; otherwise SIGKILL is sent, which ends the shell when the pid
   * reaches the shell's own process.
   */
  function RunKill(args: seq<string>, env: Env, host: Host): (r: Step)
    ensures |args| == 0 ==> r == Step(Done(None), env)
    ensures r.outcome.Done? || r.outcome.Failed? || r.outcome.Exited?
    ensures r.outcome.Done? ==> r.outcome.out.None?
    ensures r.outcome.Failed? <==> |args| > 0 && Atoi(args[0]).Err?
    ensures r.outcome.Exited? <==> |args| > 0 && Atoi(args[0]).Ok? && host.killsShell(Atoi(args[0]).value)
    ensures |args| > 0 && Atoi(args[0]).Ok? ==> r.env == env.(signalled := env.signalled + [Atoi(args[0]).value])
    ensures !(|args| > 0 && Atoi(args[0]).Ok?) ==> r.env == env
  {
    if |args| > 0 then
      match Atoi(args[0])
      case Err(e) => Step(Failed(BadPid(e)), env)
      case Ok(pid) =>
        var signalled := env.(signalled := env.signalled + [pid]);
        if host.killsShell(pid) then Step(Exited, signalled) else Step(Done(None), signalled)
    else
      Step(Done(None), env)
  }

  /** The child an `exec` or `fork` stage runs; `args[0]` panics when there is no argument. */
  function Child(args: seq<string>, input: Option<Buffer>, env: Env): Spawn
    requires |args| > 0
  {
    Spawn(args[0], args[1..], input, env.cwd)
  }

  /** `fork`: runs the child and returns its captured output; the child's own failure is not reported. */
  function RunFork(args: seq<string>, input: Option<Buffer>, env: Env, host: Host): (r: Step)
    ensures r.outcome.Panicked? <==> |args| == 0
    ensures |args| > 0 ==> r.outcome.Done? && r.outcome.out.Some?
    ensures |args| > 0 ==> r.env == env.(spawned := env.spawned + [Spawn(args[0], args[1..], input, env.cwd)])
    ensures |args| > 0 ==> r.outcome.out.value == host.run(Spawn(args[0], args[1..], input, env.cwd), env.spawned)
  {
    if |args| == 0 then Step(Panicked, env)
    else
      var child := Child(args, input, env);
      Step(Done(Some(host.run(child, env.spawned))), env.(spawned := env.spawned + [child]))
  }

  /** `exec`: runs the child like `fork`, then ends the shell, discarding the output. */
  function RunExec(args: seq<string>, input: Option<Buffer>, env: Env): (r: Step)
    ensures r.outcome.Panicked? <==> |args| == 0
    ensures |args| > 0 ==> r.outcome.Exited?
    ensures |args| > 0 ==> r.env == env.(spawned := env.spawned + [Spawn(args[0], args[1..], input, env.cwd)])
  {
    if |args| == 0 then Step(Panicked, env)
    else Step(Exited, env.(spawned := env.spawned + [Child(args, input, env)]))
  }

  /** `exit`: ends the shell, except inside a pipeline, where it does nothing. */
  function RunExit(chain: bool): (r: Outcome)
    ensures r.Exited? <==> !chain
    ensures chain ==> r == Done(None)
  {
    if !chain then Exited else Done(None)
  }

  /**
   * One built-in's `exec` method. Only `cd` (outside a pipeline) changes
   * the directory, only `kill` sends signals, only `exec` and `fork` spawn,
   * and the logs of signals and spawns only grow. `ps` lists the processes
   * the host shows after the signals and spawns made so far.
   */
  function Execute(c: Command, args: seq<string>, input: Option<Buffer>, chain: bool, env: Env, host: Host): (r: Step)
    ensures r.env.cwd != env.cwd ==> c == Cd && !chain
    ensures r.env.signalled != env.signalled ==> c == Kill
    ensures r.env.spawned != env.spawned ==> c == ExecCmd || c == Fork
    ensures env.signalled <= r.env.signalled && env.spawned <= r.env.spawned
    ensures c == Ps ==> r == Step(Done(Some(PsOutput(ProcTable(env, host)))), env)
    ensures r.outcome.Exited? ==>
              || c == ExecCmd
              || (c == ExitCmd && !chain)
              || (c == Kill && |args| > 0 && Atoi(args[0]).Ok? && host.killsShell(Atoi(args[0]).value))
    ensures r.outcome.Failed? ==> c == Cd || c == Pwd || c == Kill
    ensures r.outcome.Panicked? ==> (c == ExecCmd || c == Fork) && |args| == 0
  {
    match c
    case Cd => RunCd(args, chain, env, host)
    case Pwd => Step(RunPwd(env, host), env)
    case Echo => Step(Done(Some(RunEcho(args))), env)
    case Ps => Step(Done(Some(PsOutput(ProcTable(env, host)))), env)
    case Kill => RunKill(args, env, host)
    case ExecCmd => RunExec(args, input, env)
    case Fork => RunFork(args, input, env, host)
    case ExitCmd => Step(RunExit(chain), env)
  }

  /**
   * A `kill` of a pid that reaches the shell ends it; otherwise a `ps` that
   * follows sees the table as it stands after that signal.
   */
  lemma PsSeesKill(pidArg: string, input: Option<Buffer>, chain: bool, env: Env, host: Host)
    requires Atoi(pidArg).Ok?
    ensures var killed := Execute(Kill, [pidArg], input, chain, env, host);
            && (killed.outcome.Exited? <==> host.killsShell(Atoi(pidArg).value))
            && (!killed.outcome.Exited? ==>
                  Execute(Ps, [], killed.outcome.out, chain, killed.env, host).outcome ==
                    Done(Some(PsOutput(host.procs(env.signalled + [Atoi(pidArg).value], env.spawned)))))
  {
  }

  /** A child inherits the directory a standalone `cd` moved to, and runs after the children before it. */
  lemma ForkAfterCd(dir: string, prog: string, input: Option<Buffer>, chain: bool, env: Env, host: Host)
    requires host.chdir(env.cwd, dir, env.spawned).Ok?
    ensures var moved := Execute(Cd, [dir], None, false, env, host);
            var child := Spawn(prog, [], input, host.chdir(env.cwd, dir, env.spawned).value);
            Execute(Fork, [prog], input, chain, moved.env, host) ==
              Step(Done(Some(host.run(child, env.spawned))), moved.env.(spawned := env.spawned + [child]))
  {
    assert [prog][1..] == [];
  }

  /** `echo` ignores its input buffer, the pipeline flag and every argument after the first. */
  lemma EchoIgnoresInput(args: seq<string>, in1: Option<Buffer>, in2: Option<Buffer>, ch1: bool, ch2: bool, env: Env, host: Host)
    requires |args| > 0
    ensures Execute(Echo, args, in1, ch1, env, host) == Execute(Echo, args[..1], in2, ch2, env, host)
    ensures Execute(Echo, args, in1, ch1, env, host) == Step(Done(Some(args[0] + "\n")), env)
  {
  }

  /** `pwd` changes nothing, so two `pwd`s in a row give the same answer. */
  lemma PwdIdempotent(args: seq<string>, input: Option<Buffer>, chain: bool, env: Env, host: Host)
    ensures var first := Execute(Pwd, args, input, chain, env, host);
            first.env == env && Execute(Pwd, [], None, false, first.env, host) == first
  {
  }

  /** Inside a pipeline `cd` and `exit` do nothing at all. */
  lemma PipelineSuppresses(args: seq<string>, input: Option<Buffer>, env: Env, host: Host)
    ensures Execute(Cd, args, input, true, env, host) == Step(Done(None), env)
    ensures Execute(ExitCmd, args, input, true, env, host) == Step(Done(None), env)
  {
  }

  // -------------------------------------------------------------- dispatch

  /** execCommand: tokenize one stage and run the built-in its first token names. */
  function ExecCommand(stage: string, prev: Option<Buffer>, chain: bool, env: Env, host: Host): (r: Step)
    ensures |Tokenize(stage)| == 0 ==> r == Step(Panicked, env)
    ensures |Tokenize(stage)| > 0 && Tokenize(stage)[0] !in BuiltinNames ==> r == Step(Done(None), env)
    ensures |Tokenize(stage)| > 0 && Tokenize(stage)[0] in BuiltinNames ==>
              r == Execute(Lookup(Tokenize(stage)[0]).value, Tokenize(stage)[1..], prev, chain, env, host)
  {
    var tokens := Tokenize(stage);
    if |tokens| == 0 then Step(Panicked, env)
    else
      match Lookup(tokens[0])
      case None => Step(Done(None), env)
      case Some(c) => Execute(c, tokens[1..], prev, chain, env, host)
  }

  /** Run the stages left to right, handing each one's buffer to the next, up to the first stage that does not finish normally. */
  function RunStages(stages: seq<string>, prev: Option<Buffer>, chain: bool, env: Env, host: Host): (r: Step)
    ensures env.signalled <= r.env.signalled && env.spawned <= r.env.spawned
    ensures r.env.cwd != env.cwd ==> !chain
    ensures |stages| == 0 ==> r == Step(Done(prev), env)
  {
    if |stages| == 0 then Step(Done(prev), env)
    else
      var first := ExecCommand(stages[0], prev, chain, env, host);
      if first.outcome.Done? then RunStages(stages[1..], first.outcome.out, chain, first.env, host)
      else first
  }

  /** The pipeline flag: true exactly when the line holds a `|`. */
  function IsChain(line: string): (r: bool)
    ensures r <==> '|' in line
  {
    SplitSingleCount(line, '|');
    |Split(line, "|")| > 1
  }

  /** What a finished pipeline prints: its last buffer, or nothing when that is absent or empty. */
  function Flush(last: Option<Buffer>): (r: string)
    ensures last.None? ==> r == ""
    ensures last.Some? ==> r == last.value
  {
    if last.None? || |last.value| == 0 then "" else last.value
  }

  /** execCommands: one input line, with the environment it leaves behind. */
  function ExecCommands(line: string, env: Env, host: Host): (r: (LineResult, Env))
    ensures env.signalled <= r.1.signalled && env.spawned <= r.1.spawned
    ensures r.1.cwd != env.cwd ==> '|' !in line
    ensures r.0.Printed? <==> RunStages(Split(line, "|"), None, IsChain(line), env, host).outcome.Done?
  {
    var stages := Split(line, "|");
    var step := RunStages(stages, None, IsChain(line), env, host);
    match step.outcome
    case Done(out) => (Printed(Flush(out)), step.env)
    case Failed(err) => (Aborted(err), step.env)
    case Exited => (ShellExited, step.env)
    case Panicked => (Crashed, step.env)
  }

  // ------------------------------------------------------- pipeline lemmas

  /**
   * Running two groups of stages in one go is running the first group and,
   * only if it finished normally, the second group on its last buffer.
   */
  lemma {:induction false} RunStagesAppend(a: seq<string>, b: seq<string>, prev: Option<Buffer>, chain: bool, env: Env, host: Host)
    ensures var ra := RunStages(a, prev, chain, env, host);
            RunStages(a + b, prev, chain, env, host) ==
              if ra.outcome.Done? then RunStages(b, ra.outcome.out, chain, ra.env, host) else ra
    decreases |a|
  {
    if |a| == 0 {
      assert a + b == b;
    } else {
      assert (a + b)[0] == a[0];
      assert (a + b)[1..] == a[1..] + b;
      var first := ExecCommand(a[0], prev, chain, env, host);
      if first.outcome.Done? {
        RunStagesAppend(a[1..], b, first.outcome.out, chain, first.env, host);
      }
    }
  }

  /**
   * The first stage that does not finish normally decides the whole run:
   * no later stage runs and its environment is the final one.
   */
  lemma StopsAtFirstFailure(stages: seq<string>, k: nat, prev: Option<Buffer>, chain: bool, env: Env, host: Host)
    requires k < |stages|
    requires var before := RunStages(stages[..k], prev, chain, env, host);
             before.outcome.Done? && !ExecCommand(stages[k], before.outcome.out, chain, before.env, host).outcome.Done?
    ensures var before := RunStages(stages[..k], prev, chain, env, host);
            RunStages(stages, prev, chain, env, host) == ExecCommand(stages[k], before.outcome.out, chain, before.env, host)
  {
    assert stages == stages[..k] + stages[k..];
    RunStagesAppend(stages[..k], stages[k..], prev, chain, env, host);
    var before := RunStages(stages[..k], prev, chain, env, host);
    assert stages[k..][0] == stages[k];
  }

  /** A line prints something only when every stage finished normally and the last buffer is not empty. */
  lemma PrintsOnlyOnSuccess(line: string, env: Env, host: Host)
    ensures var step := RunStages(Split(line, "|"), None, IsChain(line), env, host);
            (ExecCommands(line, env, host).0.Printed? <==> step.outcome.Done?) &&
            (ExecCommands(line, env, host).0 == Printed("") <==>
               step.outcome.Done? && (step.outcome.out.None? || step.outcome.out.value == ""))
  {
  }
}

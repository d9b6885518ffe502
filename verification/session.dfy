/** The shell's command table and dispatch (sftpshell.go), and the prompt
    loop of the sftp command that feeds it one line at a time and shows
    what each command answers (sftp.go). */
module Session {
  import opened Outcomes
  import opened Text
  import opened Paths
  import opened Store
  import opened Oracles
  import opened Shell
  import opened Mirror
  import Batch
  import Transfer
  import Listing
  import opened Browser
  import Completion

  // ---------------------------------------------------------------------
  // The command table
  // ---------------------------------------------------------------------

  /** The methods of the table, grouped by the code they share. */
  datatype Method =
    | LessM(side: Side)
    | LsM(side: Side)
    | BrowseM(side: Side)
    | CdM(side: Side)
    | ExitM
    | PwdM(side: Side)
    | TransferM(d: Direction)
    | RenameM
    | BatchM(c: Batch.BatchCmd)

  /** The keys of the `methods` table. */
  const Methods: set<string> :=
    {"less", "lless", "ls", "lls", "ll", "lll", "cd", "lcd", "exit", "logout",
     "pwd", "lpwd", "get", "put", "mkdir", "mkdirall", "lmkdir", "lmkdirall",
     "rm", "lrm", "rmdir", "lrmdir", "rename"}

  /** Looking a word up in the `methods` table. */
  function Lookup(w: string): Option<Method>
  {
    if w == "less" then Some(LessM(Remote))
    else if w == "lless" then Some(LessM(Local))
    else if w == "ls" then Some(LsM(Remote))
    else if w == "lls" then Some(LsM(Local))
    else if w == "ll" then Some(BrowseM(Remote))
    else if w == "lll" then Some(BrowseM(Local))
    else if w == "cd" then Some(CdM(Remote))
    else if w == "lcd" then Some(CdM(Local))
    else if w == "exit" || w == "logout" then Some(ExitM)
    else if w == "pwd" then Some(PwdM(Remote))
    else if w == "lpwd" then Some(PwdM(Local))
    else if w == "get" then Some(TransferM(Download))
    else if w == "put" then Some(TransferM(Upload))
    else if w == "rename" then Some(RenameM)
    else if w == "mkdir" then Some(BatchM(Batch.MkdirCmd))
    else if w == "rm" then Some(BatchM(Batch.RmCmd))
    else if w == "mkdirall" then Some(BatchM(Batch.MkdirAllCmd))
    else if w == "rmdir" then Some(BatchM(Batch.RmdirCmd))
    else if w == "lmkdir" then Some(BatchM(Batch.LmkdirCmd))
    else if w == "lrm" then Some(BatchM(Batch.LrmCmd))
    else if w == "lrmdir" then Some(BatchM(Batch.LrmdirCmd))
    else if w == "lmkdirall" then Some(BatchM(Batch.LmkdirAllCmd))
    else None
  }

  /** The key a method is filed under (exit is also filed as logout). */
  function Key(m: Method): string
  {
    match m
    case LessM(side) => if side == Remote then "less" else "lless"
    case LsM(side) => if side == Remote then "ls" else "lls"
    case BrowseM(side) => if side == Remote then "ll" else "lll"
    case CdM(side) => if side == Remote then "cd" else "lcd"
    case ExitM => "exit"
    case PwdM(side) => if side == Remote then "pwd" else "lpwd"
    case TransferM(d) => if d == Download then "get" else "put"
    case RenameM => "rename"
    case BatchM(c) => Batch.Name(c)
  }

  /** Lookup finds exactly the table's keys, every method under its key,
      and only logout under a second one. */
  lemma LookupSpec(w: string)
    ensures Lookup(w).Some? <==> w in Methods
    ensures Lookup(w).Some? ==> w == Key(Lookup(w).value) || (w == "logout" && Lookup(w) == Some(ExitM))
  {
    if Lookup(w).Some? && w != "logout" {
      LookupFiled(w);
    }
  }

  lemma LookupFiled(w: string)
    requires Lookup(w).Some? && w != "logout"
    ensures w == Key(Lookup(w).value)
  {
    if w == "less" || w == "lless" || w == "ls" || w == "lls" || w == "ll" || w == "lll" {
    } else if w == "cd" || w == "lcd" || w == "exit" || w == "pwd" || w == "lpwd" {
    } else if w == "get" || w == "put" || w == "rename" || w == "mkdir" || w == "rm" {
    } else if w == "mkdirall" || w == "rmdir" || w == "lmkdir" || w == "lrm" || w == "lrmdir" || w == "lmkdirall" {
    }
  }

  lemma LookupKey(m: Method)
    ensures Lookup(Key(m)) == Some(m)
    ensures Key(m) in Methods
  {
  }

  /** What a method does with the rest of the words.  exit and logout end
      the session, which the source signals with io.EOF. */
  function Execute(env: Env, sh: Shell, m: Method, args: seq<string>,
                   choices: seq<Res<Selected>>): Reply
    requires Valid(sh)
  {
    match m
    case LessM(side) => LessCmd(env, sh, side, args)
    case LsM(side) => Listing.LsCmd(env, sh, side, args)
    case BrowseM(side) => Browse(env, sh, side, choices)
    case CdM(side) => Cd(env, sh, side, args)
    case ExitM => Refuse(sh, EndOfSession)
    case PwdM(side) => Pwd(sh, side, args)
    case TransferM(d) => Transfer.TransferCmd(env, sh, d, args)
    case RenameM => RenameCmd(sh, args)
    case BatchM(c) => Batch.Run(env, sh, c, args)
  }

  /** dispatch: a blank line does nothing; otherwise the trimmed line is
      split into words, which must parse completely, and the lower-cased
      first word picks the method the other words are handed to.  A line
      that parses completely to no word at all indexes the empty word list,
      a runtime panic nobody recovers: the reply carries IndexOutOfRange and
      the prompt loop ends the process on it. */
  function Dispatch(env: Env, sh: Shell, line: string, choices: seq<Res<Selected>>): Reply
    requires Valid(sh)
  {
    var t := TrimSpace(line);
    if t == [] then Reply(sh, [], "", None)
    else match env.parse(t)
      case ParseError(e) => Refuse(sh, e)
      case Words(ws, complete) =>
        if !complete then Refuse(sh, Message("incomplete parsing error"))
        else if ws == [] then Refuse(sh, IndexOutOfRange)
        else match Lookup(Lower(ws[0]))
          case None => Refuse(sh, UnknownCommand(Lower(ws[0])))
          case Some(m) => Execute(env, sh, m, ws[1..], choices)
  }

  /** The words of a line dispatch hands on, when it gets that far. */
  predicate Reads(env: Env, line: string, ws: seq<string>)
  {
    TrimSpace(line) != [] && env.parse(TrimSpace(line)) == Words(ws, true) && ws != []
  }

  /** A line of white space only changes nothing and answers nothing. */
  lemma DispatchBlank(env: Env, sh: Shell, line: string, choices: seq<Res<Selected>>)
    requires Valid(sh) && AllSpace(line)
    ensures Dispatch(env, sh, line, choices) == Reply(sh, [], "", None)
  {
    TrimSpaceEmpty(line);
  }

  /** A word that is not a table key is refused as an unknown command and
      the shell is left as it was; a key runs its method on the other
      words, whatever the case of its letters. */
  lemma DispatchRoutes(env: Env, sh: Shell, line: string, ws: seq<string>, choices: seq<Res<Selected>>)
    requires Valid(sh) && Reads(env, line, ws)
    ensures Lower(ws[0]) !in Methods ==>
              Dispatch(env, sh, line, choices) == Refuse(sh, UnknownCommand(Lower(ws[0])))
    ensures Lower(ws[0]) in Methods ==>
              Lookup(Lower(ws[0])).Some?
              && Dispatch(env, sh, line, choices) == Execute(env, sh, Lookup(Lower(ws[0])).value, ws[1..], choices)
  {
    LookupSpec(Lower(ws[0]));
  }

  /** exit and logout, in any case, end the session and change nothing. */
  lemma DispatchExit(env: Env, sh: Shell, line: string, ws: seq<string>, choices: seq<Res<Selected>>)
    requires Valid(sh) && Reads(env, line, ws) && Lower(ws[0]) in {"exit", "logout"}
    ensures Dispatch(env, sh, line, choices) == Reply(sh, [], "", Some(EndOfSession))
  {
    LookupExit(Lower(ws[0]));
    LookupSpec(Lower(ws[0]));
    DispatchRoutes(env, sh, line, ws, choices);
  }

  /** A completion offered after a known command word starts with that
      word lower-cased and a space.  When the completed line is read back
      with that word first, dispatch lowers it once more and so runs the
      method the typed word names, or refuses "help" under its own name,
      whatever the other words are. */
  lemma CompletedWordDispatches(env: Env, sh: Shell, line: string, r: string,
                                sh': Shell, ws: seq<string>, choices: seq<Res<Selected>>)
    requires Valid(sh')
    requires env.parse(line).Words? && env.parse(line).words != []
    requires Lower(env.parse(line).words[0]) in Completion.Commands
    requires r in Completion.Completer(env, sh, line)
    requires Reads(env, r, ws) && ws[0] == Lower(env.parse(line).words[0])
    ensures HasPrefix(r, ws[0] + " ")
    ensures Lower(ws[0]) == ws[0]
    ensures ws[0] in Methods ==>
              Lookup(ws[0]).Some?
              && Dispatch(env, sh', r, choices) == Execute(env, sh', Lookup(ws[0]).value, ws[1..], choices)
    ensures ws[0] !in Methods ==>
              ws[0] == "help" && Dispatch(env, sh', r, choices) == Refuse(sh', UnknownCommand("help"))
  {
    Completion.CompleterCommand(env, sh, line, r);
    LowerIdempotent(env.parse(line).words[0]);
    CommandsAndMethods();
    DispatchRoutes(env, sh', r, ws, choices);
  }

  lemma LookupExit(w: string)
    requires w in {"exit", "logout"}
    ensures Lookup(w) == Some(ExitM)
  {
  }

  /** The words the line completer offers are the table keys and "help",
      which the table does not know. */
  lemma CommandsAndMethods()
    ensures forall c :: c in Completion.Commands <==> c in Methods || c == "help"
    ensures "help" !in Methods
  {
  }

  /** Completing "he" offers "help", which dispatch then refuses. */
  lemma HelpOffered()
    ensures "help" in Completion.WithPrefix(Completion.Commands, "he")
  {
    HelpListed();
    assert "help"[..2] == "he";
    Offers(Completion.Commands, "he", "help");
  }

  lemma HelpListed()
    ensures "help" in Completion.Commands
  {
    assert Completion.Commands[23] == "help";
  }

  /** A listed word that extends the prefix survives the filter. */
  lemma Offers(ps: seq<string>, pre: string, p: string)
    requires p in ps && HasPrefix(p, pre)
    ensures p in Completion.WithPrefix(ps, pre)
  {
    Completion.WithPrefixSpec(ps, pre);
  }

  lemma HelpRefused(env: Env, sh: Shell, line: string, ws: seq<string>, choices: seq<Res<Selected>>)
    requires Valid(sh) && Reads(env, line, ws) && Lower(ws[0]) == "help"
    ensures Dispatch(env, sh, line, choices) == Refuse(sh, UnknownCommand("help"))
  {
    CommandsAndMethods();
    DispatchRoutes(env, sh, line, ws, choices);
  }

  /** Every method keeps the session invariant, provided os.RemoveAll
      leaves a well-formed tree. */
  lemma ExecuteValid(env: Env, sh: Shell, m: Method, args: seq<string>, choices: seq<Res<Selected>>)
    requires Valid(sh) && RemoveAllKeepsTree(env)
    ensures Valid(Execute(env, sh, m, args, choices).shell)
  {
    match m
    case LessM(side) => LessCmdSpec(env, sh, side, args);
    case LsM(side) => Listing.LsCmdShape(env, sh, side, args);
    case BrowseM(side) => BrowseValid(env, sh, side, choices);
    case CdM(side) => CdValid(env, sh, side, args);
    case ExitM =>
    case PwdM(side) =>
    case TransferM(d) => Transfer.TransferValid(env, sh, d, args);
    case RenameM => RenameCmdValid(sh, args);
    case BatchM(c) => Batch.RunValid(env, sh, c, args);
  }

  lemma DispatchValid(env: Env, sh: Shell, line: string, choices: seq<Res<Selected>>)
    requires Valid(sh) && RemoveAllKeepsTree(env)
    ensures Valid(Dispatch(env, sh, line, choices).shell)
  {
    var t := TrimSpace(line);
    if t != [] && env.parse(t).Words? && env.parse(t).complete && env.parse(t).words != [] {
      var ws := env.parse(t).words;
      if Lookup(Lower(ws[0])).Some? {
        ExecuteValid(env, sh, Lookup(Lower(ws[0])).value, ws[1..], choices);
      }
    }
  }

  // ---------------------------------------------------------------------
  // The prompt loop
  // ---------------------------------------------------------------------

  /** One line the prompt reads, with the answers the table picker gives
      if the line starts a browser. */
  datatype Input = Input(line: string, choices: seq<Res<Selected>>)

  /** What the prompt loop shows: a log line written while a command ran,
      the output printed to the terminal, or a failed command's error
      ("===> " and the error, on the error stream). */
  datatype Shown = Logged(entry: LogEntry) | Printed(text: string) | Reported(err: Error) | Crashed

  /** Replies after which the loop reads no further line: the end of the
      session, and the panic of indexing an empty word list. */
  predicate Final(r: Reply)
  {
    r.err == Some(EndOfSession) || r.err == Some(IndexOutOfRange)
  }

  /** What the loop shows for its last reply: the log, and for the panic
      the crash of the process. */
  function Last(r: Reply): seq<Shown>
  {
    LogLines(r.log) + if r.err == Some(IndexOutOfRange) then [Crashed] else []
  }

  function LogLines(log: seq<LogEntry>): (r: seq<Shown>)
  {
    seq(|log|, i requires 0 <= i < |log| => Logged(log[i]))
  }

  /** What the loop shows for a reply other than the end of the session:
      the command's log lines, then its error, or its output followed by a
      line break when the output is not empty and does not end with one. */
  function React(r: Reply): seq<Shown>
  {
    LogLines(r.log) +
    match r.err
    case Some(e) => [Reported(e)]
    case None =>
      if r.out == [] then []
      else if HasSuffix(r.out, "\n") then [Printed(r.out)]
      else [Printed(r.out), Printed("\n")]
  }

  /** The text printed to the terminal, in order. */
  function Terminal(shown: seq<Shown>): string
  {
    if shown == [] then []
    else (if shown[0].Printed? then shown[0].text else []) + Terminal(shown[1..])
  }

  lemma {:induction false} TerminalAppend(a: seq<Shown>, b: seq<Shown>)
    ensures Terminal(a + b) == Terminal(a) + Terminal(b)
  {
    if a != [] {
      assert (a + b)[1..] == a[1..] + b;
      TerminalAppend(a[1..], b);
    } else {
      assert a + b == b;
    }
  }

  lemma {:induction false} TerminalLog(log: seq<LogEntry>)
    ensures Terminal(LogLines(log)) == []
  {
    if log != [] {
      assert LogLines(log)[1..] == LogLines(log[1..]);
      TerminalLog(log[1..]);
    }
  }

  /** A successful command's output reaches the terminal whole and ends a
      line; a failed one prints nothing and reports its error once. */
  lemma ReactSpec(r: Reply)
    ensures r.err.None? ==>
              && HasPrefix(Terminal(React(r)), r.out)
              && (Terminal(React(r)) == [] <==> r.out == [])
              && (r.out != [] ==> HasSuffix(Terminal(React(r)), "\n"))
              && |Terminal(React(r))| <= |r.out| + 1
    ensures r.err.None? && HasSuffix(r.out, "\n") ==> Terminal(React(r)) == r.out
    ensures r.err.None? && r.out != [] && !HasSuffix(r.out, "\n") ==> Terminal(React(r)) == r.out + "\n"
    ensures r.err.Some? ==> Terminal(React(r)) == [] && React(r)[|React(r)| - 1] == Reported(r.err.value)
  {
    ReactTerminal(r);
    if r.err.None? && r.out != [] && !HasSuffix(r.out, "\n") {
      var t := r.out + "\n";
      assert t[..|r.out|] == r.out;
      assert t[|t| - 1..] == "\n";
    }
  }

  /** The terminal text of a reply: nothing for an error, otherwise the
      output and the line break it may lack. */
  lemma ReactTerminal(r: Reply)
    ensures r.err.Some? || r.out == [] ==> Terminal(React(r)) == []
    ensures r.err.None? && HasSuffix(r.out, "\n") ==> Terminal(React(r)) == r.out
    ensures r.err.None? && r.out != [] && !HasSuffix(r.out, "\n") ==> Terminal(React(r)) == r.out + "\n"
  {
    var tail := React(r)[|r.log|..];
    assert React(r) == LogLines(r.log) + tail;
    TerminalAppend(LogLines(r.log), tail);
    TerminalLog(r.log);
    if r.err.None? && r.out != [] && !HasSuffix(r.out, "\n") {
      assert tail == [Printed(r.out)] + [Printed("\n")];
      TerminalAppend([Printed(r.out)], [Printed("\n")]);
    }
  }

  /** What the prompt loop does with one line. */
  type Step = (Shell, Input) --> Reply

  /** A step that can run on any session state and keeps the invariant. */
  ghost predicate KeepsValid(step: Step)
  {
    forall sh, i :: Valid(sh) ==> step.requires(sh, i) && Valid(step(sh, i).shell)
  }

  /** The prompt loop over the lines read, ending at the end of input, at
      the end of the session or at a panic: the final shell and everything
      shown. */
  function Loop(step: Step, sh: Shell, inputs: seq<Input>): (res: (Shell, seq<Shown>))
    requires Valid(sh) && KeepsValid(step)
    ensures Valid(res.0)
    decreases |inputs|
  {
    if inputs == [] then (sh, [])
    else
      var r := step(sh, inputs[0]);
      if Final(r) then (r.shell, Last(r))
      else
        var rest := Loop(step, r.shell, inputs[1..]);
        (rest.0, React(r) + rest.1)
  }

  /** Whether some line of the inputs ends the session or the process. */
  predicate EndsIn(step: Step, sh: Shell, inputs: seq<Input>)
    requires Valid(sh) && KeepsValid(step)
    decreases |inputs|
  {
    if inputs == [] then false
    else
      var r := step(sh, inputs[0]);
      Final(r) || EndsIn(step, r.shell, inputs[1..])
  }

  /** The session runs the lines one after the other: the loop over a + b
      is the loop over a, then the loop over b from the shell a left,
      unless a ended the session. */
  lemma {:induction false} LoopAppend(step: Step, sh: Shell, a: seq<Input>, b: seq<Input>)
    requires Valid(sh) && KeepsValid(step)
    requires !EndsIn(step, sh, a)
    ensures Loop(step, sh, a + b) ==
              (Loop(step, Loop(step, sh, a).0, b).0, Loop(step, sh, a).1 + Loop(step, Loop(step, sh, a).0, b).1)
    decreases |a|
  {
    if a == [] {
      assert a + b == b;
      assert [] + Loop(step, sh, b).1 == Loop(step, sh, b).1;
    } else {
      var r := step(sh, a[0]);
      assert (a + b)[0] == a[0];
      assert (a + b)[1..] == a[1..] + b;
      LoopAppend(step, r.shell, a[1..], b);
      var x := Loop(step, r.shell, a[1..]);
      var y := Loop(step, x.0, b);
      ShownAssoc(React(r), x.1, y.1);
    }
  }

  lemma ShownAssoc(a: seq<Shown>, b: seq<Shown>, c: seq<Shown>)
    ensures a + (b + c) == (a + b) + c
  {
  }

  /** The line that ends the session is the last one read: what follows it
      is never run. */
  lemma {:induction false} LoopStops(step: Step, sh: Shell, a: seq<Input>, b: seq<Input>)
    requires Valid(sh) && KeepsValid(step)
    requires EndsIn(step, sh, a)
    ensures Loop(step, sh, a + b) == Loop(step, sh, a)
    decreases |a|
  {
    var r := step(sh, a[0]);
    assert (a + b)[0] == a[0];
    assert (a + b)[1..] == a[1..] + b;
    if !Final(r) {
      LoopStops(step, r.shell, a[1..], b);
    }
  }

  /** The shell's step: dispatch the line. */
  function DispatchStep(env: Env): Step
  {
    (sh: Shell, i: Input) requires Valid(sh) => Dispatch(env, sh, i.line, i.choices)
  }

  lemma DispatchStepKeeps(env: Env)
    requires RemoveAllKeepsTree(env)
    ensures KeepsValid(DispatchStep(env))
  {
    forall sh, i | Valid(sh)
      ensures Valid(DispatchStep(env)(sh, i).shell)
    {
      DispatchValid(env, sh, i.line, i.choices);
    }
  }

  /** The sftp prompt: the loop of dispatch over the lines read. */
  function Session(env: Env, sh: Shell, inputs: seq<Input>): (res: (Shell, seq<Shown>))
    requires Valid(sh) && RemoveAllKeepsTree(env)
    ensures Valid(res.0)
  {
    DispatchStepKeeps(env);
    Loop(DispatchStep(env), sh, inputs)
  }

  /** exit and logout end the session at once: nothing after them is read
      and the shell stays as it was. */
  lemma ExitEnds(env: Env, sh: Shell, inputs: seq<Input>, ws: seq<string>)
    requires Valid(sh) && RemoveAllKeepsTree(env)
    requires inputs != [] && Reads(env, inputs[0].line, ws) && Lower(ws[0]) in {"exit", "logout"}
    ensures Session(env, sh, inputs) == (sh, [])
  {
    DispatchStepKeeps(env);
    DispatchExit(env, sh, inputs[0].line, ws, inputs[0].choices);
  }

  /** A line that parses completely to no word ends the process: nothing
      after it is read, nothing is printed, and the crash is the only thing
      shown. */
  lemma EmptyWordsCrash(env: Env, sh: Shell, inputs: seq<Input>)
    requires Valid(sh) && RemoveAllKeepsTree(env)
    requires inputs != [] && TrimSpace(inputs[0].line) != []
    requires env.parse(TrimSpace(inputs[0].line)) == Words([], true)
    ensures Dispatch(env, sh, inputs[0].line, inputs[0].choices) == Refuse(sh, IndexOutOfRange)
    ensures forall more :: Session(env, sh, inputs + more) == (sh, [Crashed])
  {
    DispatchStepKeeps(env);
    var step := DispatchStep(env);
    forall more
      ensures Session(env, sh, inputs + more) == (sh, [Crashed])
    {
      assert (inputs + more)[0] == inputs[0];
      LoopCrash(step, sh, inputs + more);
    }
  }

  /** A step that panics ends the loop with the crash. */
  lemma LoopCrash(step: Step, sh: Shell, inputs: seq<Input>)
    requires Valid(sh) && KeepsValid(step) && inputs != []
    requires step(sh, inputs[0]) == Reply(sh, [], "", Some(IndexOutOfRange))
    ensures Loop(step, sh, inputs) == (sh, [Crashed])
  {
    var r := step(sh, inputs[0]);
    assert Final(r);
    assert LogLines(r.log) == [];
    assert Last(r) == [Crashed];
  }
}

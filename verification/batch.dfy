/** The batch commands: mkdir, rm, mkdirall and rmdir on the remote side,
    lmkdir, lrm, lmkdirall and lrmdir on the local side.  Each resolves
    every argument against its working directory, applies one backend call
    to it, reports a failure on the error sink under the argument's own
    name and goes on with the next argument; the command itself succeeds. */
module Batch {
  import opened Outcomes
  import opened Paths
  import opened Store
  import opened Tree
  import opened Oracles
  import opened Shell

  datatype BatchCmd = MkdirCmd | RmCmd | MkdirAllCmd | RmdirCmd | LmkdirCmd | LrmCmd | LrmdirCmd | LmkdirAllCmd

  function Name(c: BatchCmd): string
  {
    match c
    case MkdirCmd => "mkdir"
    case RmCmd => "rm"
    case MkdirAllCmd => "mkdirall"
    case RmdirCmd => "rmdir"
    case LmkdirCmd => "lmkdir"
    case LrmCmd => "lrm"
    case LrmdirCmd => "lrmdir"
    case LmkdirAllCmd => "lmkdirall"
  }

  function SideOf(c: BatchCmd): Side
  {
    if c in {MkdirCmd, RmCmd, MkdirAllCmd, RmdirCmd} then Remote else Local
  }

  /** The commands that only ever add directories. */
  predicate Grows(c: BatchCmd)
  {
    c in {MkdirCmd, MkdirAllCmd, LmkdirCmd, LmkdirAllCmd}
  }

  /** The commands that only ever remove entries (lrmdir's os.RemoveAll is
      not part of this model, so it is in neither group). */
  predicate Shrinks(c: BatchCmd)
  {
    c in {RmCmd, LrmCmd, RmdirCmd}
  }

  function Lift(s: Store, r: Res<Store>): Outcome
  {
    match r
    case Ok(s') => Outcome(s', [], None)
    case Fail(e) => Outcome(s, [], Some(e))
  }

  /** The backend call one argument gets: Mkdir, Remove, MkdirAll, the
      recursive rmdir of the tree engine, or os.RemoveAll. */
  function Apply(env: Env, c: BatchCmd, s: Store, path: string): Outcome
    requires c == RmdirCmd ==> path != [] && AllSimple(s)
  {
    match c
    case MkdirCmd => Lift(s, Mkdir(s, path))
    case LmkdirCmd => Lift(s, Mkdir(s, path))
    case RmCmd => Lift(s, Remove(s, path))
    case LrmCmd => Lift(s, Remove(s, path))
    case MkdirAllCmd => Lift(s, MkdirAll(s, path))
    case LmkdirAllCmd => Lift(s, MkdirAll(s, path))
    case RmdirCmd => RmTree(s, path)
    case LrmdirCmd => Outcome(env.removeAll(s, path).0, [], env.removeAll(s, path).1)
  }

  lemma ApplySimple(env: Env, c: BatchCmd, s: Store, path: string)
    requires c == RmdirCmd && path != [] && AllSimple(s)
    ensures AllSimple(Apply(env, c, s, path).store)
  {
    RmTreeFrame(s, path);
  }

  /** The line a failed argument gets: "%s: %s" with the argument as typed. */
  function Report(name: string, o: Outcome): seq<LogEntry>
  {
    if o.err.Some? then [Failed(name, o.err.value)] else []
  }

  /** One argument: resolve it against the working directory and apply the
      backend call. */
  function Step(env: Env, c: BatchCmd, s: Store, wd: string, name: string): (o: Outcome)
    requires Rooted(wd) && (c == RmdirCmd ==> AllSimple(s))
    ensures c == RmdirCmd ==> AllSimple(o.store)
  {
    JoinRooted(wd, name);
    var o := Apply(env, c, s, Join(wd, name));
    assert c == RmdirCmd ==> AllSimple(o.store) by {
      if c == RmdirCmd {
        ApplySimple(env, c, s, Join(wd, name));
      }
    }
    o
  }

  /** The loop over the arguments, in order, each on the tree the previous
      ones left. */
  function RunArgs(env: Env, c: BatchCmd, s: Store, wd: string, args: seq<string>): (r: Outcome)
    requires Rooted(wd) && (c == RmdirCmd ==> AllSimple(s))
    ensures r.err.None?
    decreases |args|
  {
    if args == [] then Outcome(s, [], None)
    else
      var o := Step(env, c, s, wd, args[0]);
      var rest := RunArgs(env, c, o.store, wd, args[1..]);
      Outcome(rest.store, o.log + Report(args[0], o) + rest.log, None)
  }

  /** The batch command: at least one argument, then every argument in turn. */
  function Run(env: Env, sh: Shell, c: BatchCmd, args: seq<string>): Reply
    requires Valid(sh)
  {
    if args == [] then Refuse(sh, Message(Name(c) + " needs at least one argument"))
    else
      var r := RunArgs(env, c, Fs(sh, SideOf(c)), WD(sh, SideOf(c)), args);
      Reply(WithFs(sh, SideOf(c), r.store), r.log, "", None)
  }

  /** Without arguments a batch command fails and touches nothing; with
      arguments it succeeds, prints nothing and changes nothing but the tree
      of its own side. */
  lemma RunShape(env: Env, sh: Shell, c: BatchCmd, args: seq<string>)
    requires Valid(sh)
    ensures var r := Run(env, sh, c, args);
            && (args == [] ==> r.shell == sh && r.log == [] && r.err.Some?)
            && (args != [] ==> r.err.None? && r.out == [] && r.shell == WithFs(sh, SideOf(c), Fs(r.shell, SideOf(c))))
  {
  }

  // ---------------------------------------------------------------------
  // Every argument is attempted, in order
  // ---------------------------------------------------------------------

  /** The subjects of the "%s: %s" lines of a log, in order. */
  function FailedSubjects(log: seq<LogEntry>): seq<string>
  {
    if log == [] then []
    else (if log[0].Failed? then [log[0].subject] else []) + FailedSubjects(log[1..])
  }

  lemma {:induction false} FailedSubjectsAppend(a: seq<LogEntry>, b: seq<LogEntry>)
    ensures FailedSubjects(a + b) == FailedSubjects(a) + FailedSubjects(b)
  {
    if a == [] {
      assert a + b == b;
    } else {
      assert (a + b)[1..] == a[1..] + b;
      FailedSubjectsAppend(a[1..], b);
    }
  }

  lemma RmLinesNotFailed(log: seq<LogEntry>)
    requires RmLines(log)
    ensures FailedSubjects(log) == []
  {
    if log != [] {
      RmLinesNotFailed(log[1..]);
    }
  }

  /** The extra lines one argument writes are never "%s: %s" lines. */
  lemma ApplyLines(env: Env, c: BatchCmd, s: Store, path: string)
    requires c == RmdirCmd ==> path != [] && AllSimple(s)
    ensures FailedSubjects(Apply(env, c, s, path).log) == []
  {
    if c == RmdirCmd {
      RmTreeLog(s, path);
      RmLinesNotFailed(RmTree(s, path).log);
    }
  }

  /** Running one more argument continues the run of the earlier ones. */
  lemma {:induction false} RunArgsSnoc(env: Env, c: BatchCmd, s: Store, wd: string, args: seq<string>, x: string)
    requires Rooted(wd) && (c == RmdirCmd ==> AllSimple(s))
    ensures c == RmdirCmd ==> AllSimple(RunArgs(env, c, s, wd, args).store)
    ensures var p := RunArgs(env, c, s, wd, args);
            var o := Step(env, c, p.store, wd, x);
            && RunArgs(env, c, s, wd, args + [x]).store == o.store
            && RunArgs(env, c, s, wd, args + [x]).log == p.log + (o.log + Report(x, o))
    decreases |args|
  {
    if args == [] {
      var o := Step(env, c, s, wd, x);
      assert [x][1..] == [];
      assert args + [x] == [x];
      assert RunArgs(env, c, o.store, wd, []).log == [];
      assert RunArgs(env, c, s, wd, [x]).log == o.log + Report(x, o) + [];
    } else {
      var o := Step(env, c, s, wd, args[0]);
      var rest := RunArgs(env, c, o.store, wd, args[1..]);
      RunArgsSnoc(env, c, o.store, wd, args[1..], x);
      var o2 := Step(env, c, rest.store, wd, x);
      var full := RunArgs(env, c, o.store, wd, args[1..] + [x]);
      var ax := args + [x];
      SnocTail(args, x);
      RunArgsCons(env, c, s, wd, ax);
      LogAssoc(o.log + Report(args[0], o), rest.log, o2.log + Report(x, o2));
    }
  }

  lemma RunArgsCons(env: Env, c: BatchCmd, s: Store, wd: string, args: seq<string>)
    requires Rooted(wd) && (c == RmdirCmd ==> AllSimple(s)) && args != []
    ensures var o := Step(env, c, s, wd, args[0]);
            var rest := RunArgs(env, c, o.store, wd, args[1..]);
            && RunArgs(env, c, s, wd, args).store == rest.store
            && RunArgs(env, c, s, wd, args).log == o.log + Report(args[0], o) + rest.log
  {
  }

  lemma SnocTail(a: seq<string>, x: string)
    requires a != []
    ensures (a + [x])[0] == a[0] && (a + [x])[1..] == a[1..] + [x]
  {
  }

  lemma LogAssoc(a: seq<LogEntry>, b: seq<LogEntry>, c: seq<LogEntry>)
    ensures a + (b + c) == (a + b) + c
  {
  }

  /** The tree the i-th argument is applied to: what the first i left. */
  function Before(env: Env, c: BatchCmd, s: Store, wd: string, args: seq<string>, i: nat): Store
    requires Rooted(wd) && (c == RmdirCmd ==> AllSimple(s)) && i <= |args|
  {
    RunArgs(env, c, s, wd, args[..i]).store
  }

  /** The arguments whose backend call fails on the tree the earlier
      arguments left, in order. */
  function Failing(env: Env, c: BatchCmd, s: Store, wd: string, args: seq<string>): seq<string>
    requires Rooted(wd) && (c == RmdirCmd ==> AllSimple(s))
    decreases |args|
  {
    if args == [] then []
    else
      var n := |args| - 1;
      RunArgsSnoc(env, c, s, wd, args[..n], args[n]);
      assert args[..n][..n] == args[..n];
      var o := Step(env, c, Before(env, c, s, wd, args, n), wd, args[n]);
      Failing(env, c, s, wd, args[..n]) + (if o.err.Some? then [args[n]] else [])
  }

  /** A batch command writes exactly one "%s: %s" line per argument that
      fails, naming the arguments that fail in the order they were given. */
  lemma {:induction false} RunArgsReports(env: Env, c: BatchCmd, s: Store, wd: string, args: seq<string>)
    requires Rooted(wd) && (c == RmdirCmd ==> AllSimple(s))
    ensures FailedSubjects(RunArgs(env, c, s, wd, args).log) == Failing(env, c, s, wd, args)
    decreases |args|
  {
    if args != [] {
      var n := |args| - 1;
      var pre := args[..n];
      assert args == pre + [args[n]];
      RunArgsSnoc(env, c, s, wd, pre, args[n]);
      assert pre[..n] == pre;
      RunArgsReports(env, c, s, wd, pre);
      var p := RunArgs(env, c, s, wd, pre);
      var o := Step(env, c, p.store, wd, args[n]);
      JoinRooted(wd, args[n]);
      ApplyLines(env, c, p.store, Join(wd, args[n]));
      ReportsStep(p.log, o, args[n]);
    }
  }

  lemma ReportsStep(plog: seq<LogEntry>, o: Outcome, x: string)
    requires FailedSubjects(o.log) == []
    ensures FailedSubjects(plog + (o.log + Report(x, o))) == FailedSubjects(plog) + (if o.err.Some? then [x] else [])
  {
    FailedSubjectsAppend(plog, o.log + Report(x, o));
    FailedSubjectsAppend(o.log, Report(x, o));
  }

  // ---------------------------------------------------------------------
  // What a batch command leaves behind
  // ---------------------------------------------------------------------

  /** The effect one argument asks for: the entry exists (mkdir, mkdirall)
      or is gone (rm, rmdir). */
  predicate Achieved(c: BatchCmd, s: Store, path: string)
  {
    (Grows(c) ==> KeyOf(path) in s.nodes) && (Shrinks(c) ==> KeyOf(path) !in s.nodes)
  }

  /** Growing commands never remove a key and shrinking ones never add one. */
  predicate Monotone(c: BatchCmd, a: Store, b: Store)
  {
    (Grows(c) ==> a.nodes.Keys <= b.nodes.Keys) && (Shrinks(c) ==> b.nodes.Keys <= a.nodes.Keys)
  }

  lemma ApplyMonotone(env: Env, c: BatchCmd, s: Store, path: string)
    requires c == RmdirCmd ==> path != [] && AllSimple(s)
    ensures Monotone(c, s, Apply(env, c, s, path).store)
    ensures Apply(env, c, s, path).err.None? ==> Achieved(c, Apply(env, c, s, path).store, path)
  {
    if c == RmdirCmd {
      RmTreeFrame(s, path);
      RmTreeRemoved(s, path);
    } else if c == MkdirAllCmd || c == LmkdirAllCmd {
      if MkdirAll(s, path).Ok? {
        MkdirAllKeeps(s, KeyOf(path));
      }
    }
  }

  /** MkdirAll only adds keys. */
  lemma {:induction false} MkdirAllKeeps(s: Store, k: Key)
    requires MkdirAllKey(s, k).Ok?
    ensures s.nodes.Keys <= MkdirAllKey(s, k).value.nodes.Keys
    decreases |k|
  {
    if k !in s.nodes && k != [] {
      MkdirAllKeeps(s, Parent(k));
    }
  }

  lemma {:induction false} RunArgsMonotone(env: Env, c: BatchCmd, s: Store, wd: string, args: seq<string>)
    requires Rooted(wd) && (c == RmdirCmd ==> AllSimple(s))
    ensures Monotone(c, s, RunArgs(env, c, s, wd, args).store)
    decreases |args|
  {
    if args != [] {
      var path := Join(wd, args[0]);
      JoinRooted(wd, args[0]);
      var o := Step(env, c, s, wd, args[0]);
      ApplyMonotone(env, c, s, path);
      RunArgsMonotone(env, c, o.store, wd, args[1..]);
    }
  }

  /** After mkdir, mkdirall, rm or rmdir every argument either has had its
      effect (its entry exists, or is gone) or was reported as failed. */
  lemma {:induction false} RunArgsCovers(env: Env, c: BatchCmd, s: Store, wd: string, args: seq<string>)
    requires Rooted(wd) && (c == RmdirCmd ==> AllSimple(s))
    ensures var r := RunArgs(env, c, s, wd, args);
            forall i :: 0 <= i < |args| ==>
              Achieved(c, r.store, Join(wd, args[i])) || args[i] in FailedSubjects(r.log)
    decreases |args|
  {
    if args != [] {
      var r := RunArgs(env, c, s, wd, args);
      var path := Join(wd, args[0]);
      JoinRooted(wd, args[0]);
      var o := Step(env, c, s, wd, args[0]);
      var rest := RunArgs(env, c, o.store, wd, args[1..]);
      RunArgsCovers(env, c, o.store, wd, args[1..]);
      ApplyMonotone(env, c, s, path);
      RunArgsMonotone(env, c, o.store, wd, args[1..]);
      CoversHead(c, o, rest.store, rest.log, path, args[0]);
      SubjectsGrow(o.log + Report(args[0], o), rest.log);
      forall i | 0 <= i < |args|
        ensures Achieved(c, r.store, Join(wd, args[i])) || args[i] in FailedSubjects(r.log)
      {
        if i > 0 {
          assert args[i] == args[1..][i - 1];
        }
      }
    }
  }

  lemma CoversHead(c: BatchCmd, o: Outcome, after: Store, later: seq<LogEntry>, path: string, name: string)
    requires Monotone(c, o.store, after)
    requires o.err.None? ==> Achieved(c, o.store, path)
    ensures Achieved(c, after, path) || name in FailedSubjects(o.log + Report(name, o) + later)
  {
    FailedSubjectsAppend(o.log + Report(name, o), later);
    FailedSubjectsAppend(o.log, Report(name, o));
  }

  lemma SubjectsGrow(a: seq<LogEntry>, b: seq<LogEntry>)
    ensures forall x :: x in FailedSubjects(b) ==> x in FailedSubjects(a + b)
  {
    FailedSubjectsAppend(a, b);
  }


  // ---------------------------------------------------------------------
  // The session invariant
  // ---------------------------------------------------------------------

  lemma ApplyWF(env: Env, c: BatchCmd, s: Store, path: string)
    requires WF(s) && Rooted(path) && (c == LrmdirCmd ==> RemoveAllKeepsTree(env))
    ensures WF(Apply(env, c, s, path).store)
  {
    match c
    case MkdirCmd => if Mkdir(s, path).Ok? { MkdirWF(s, path); }
    case LmkdirCmd => if Mkdir(s, path).Ok? { MkdirWF(s, path); }
    case RmCmd => if Remove(s, path).Ok? { RemoveWF(s, path); }
    case LrmCmd => if Remove(s, path).Ok? { RemoveWF(s, path); }
    case MkdirAllCmd => KeySimple(path); MkdirAllSpec(s, KeyOf(path));
    case LmkdirAllCmd => KeySimple(path); MkdirAllSpec(s, KeyOf(path));
    case RmdirCmd => RmTreeWF(s, path);
    case LrmdirCmd =>
  }

  lemma {:induction false} RunArgsWF(env: Env, c: BatchCmd, s: Store, wd: string, args: seq<string>)
    requires Rooted(wd) && WF(s) && (c == LrmdirCmd ==> RemoveAllKeepsTree(env))
    ensures WF(RunArgs(env, c, s, wd, args).store)
    decreases |args|
  {
    if args != [] {
      var path := Join(wd, args[0]);
      JoinRooted(wd, args[0]);
      ApplyWF(env, c, s, path);
      RunArgsWF(env, c, Apply(env, c, s, path).store, wd, args[1..]);
    }
  }

  lemma RunValid(env: Env, sh: Shell, c: BatchCmd, args: seq<string>)
    requires Valid(sh) && (c == LrmdirCmd ==> RemoveAllKeepsTree(env))
    ensures Valid(Run(env, sh, c, args).shell)
  {
    if args != [] {
      RunArgsWF(env, c, Fs(sh, SideOf(c)), WD(sh, SideOf(c)), args);
    }
  }
}

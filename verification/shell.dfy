/** The state of the shell and the commands that only look at it or move a
    working directory: cd / lcd, pwd / lpwd, rename and less / lless. */
module Shell {
  import opened Outcomes
  import opened Text
  import opened Paths
  import opened Store
  import opened Oracles

  /** The local side is the machine the shell runs on; the remote side is
      the server behind the sftp client. */
  datatype Side = Local | Remote

  /** shellstate: both working directories, the remote directory the
      session started in, and the two file trees. */
  datatype Shell = Shell(localWD: string, remoteWD: string, initRemoteWD: string, local: Store, remote: Store)

  /** What a command leaves behind: the new state, the lines it wrote to
      the info and error sinks, its output and its error. */
  datatype Reply = Reply(shell: Shell, log: seq<LogEntry>, out: string, err: Option<Error>)

  function WD(sh: Shell, side: Side): string
  {
    match side
    case Local => sh.localWD
    case Remote => sh.remoteWD
  }

  function Fs(sh: Shell, side: Side): Store
  {
    match side
    case Local => sh.local
    case Remote => sh.remote
  }

  function WithWD(sh: Shell, side: Side, wd: string): Shell
  {
    match side
    case Local => sh.(localWD := wd)
    case Remote => sh.(remoteWD := wd)
  }

  function WithFs(sh: Shell, side: Side, s: Store): Shell
  {
    match side
    case Local => sh.(local := s)
    case Remote => sh.(remote := s)
  }

  /** A failed command: nothing changes and nothing is logged. */
  function Refuse(sh: Shell, e: Error): Reply
  {
    Reply(sh, [], "", Some(e))
  }

  /** The invariant of a session: the working directories are absolute
      (os.Getwd and the server's Getwd return absolute paths, and cd only
      joins onto them) and both trees are well formed. */
  ghost predicate Valid(sh: Shell)
  {
    && Rooted(sh.localWD) && Rooted(sh.remoteWD) && Rooted(sh.initRemoteWD)
    && WF(sh.local) && WF(sh.remote)
  }

  // ---------------------------------------------------------------------
  // cd and lcd
  // ---------------------------------------------------------------------

  /** The directory cd / lcd heads for, before it is joined onto the working
      directory: the argument, or else the initial remote directory (cd) or
      the home directory (lcd). */
  function CdTarget(env: Env, sh: Shell, side: Side, args: seq<string>): Res<string>
    requires |args| <= 1
  {
    if |args| == 1 then Ok(args[0])
    else match side
      case Remote => Ok(sh.initRemoteWD)
      case Local => env.home
  }

  /** What cd needs of the directory it enters: it can be stat'ed, is a
      directory, and can be opened. */
  predicate Enterable(s: Store, d: string)
  {
    && Fault(StatOp, KeyOf(d)) !in s.faults
    && KeyOf(d) in s.nodes && s.nodes[KeyOf(d)] == Dir
    && Fault(OpenOp, KeyOf(d)) !in s.faults
  }

  /** Enter directory d (already joined) if stat, the directory check and
      open all succeed. */
  function ChangeDir(sh: Shell, side: Side, d: string): Reply
  {
    match Stat(Fs(sh, side), d)
    case Fail(e) => Refuse(sh, e)
    case Ok(n) =>
      if n != Dir then Refuse(sh, Message("not a directory"))
      else match Open(Fs(sh, side), d)
        case Fail(e) => Refuse(sh, e)
        case Ok(_) => Reply(WithWD(sh, side, d), [], "", None)
  }

  /** cd (remote) and lcd (local). */
  function Cd(env: Env, sh: Shell, side: Side, args: seq<string>): Reply
  {
    if |args| > 1 then
      Refuse(sh, Message(if side == Remote then "cd takes only one argument" else "lcd takes only one argument"))
    else match CdTarget(env, sh, side, args)
      case Fail(e) => Refuse(sh, e)
      case Ok(t) => ChangeDir(sh, side, Join(WD(sh, side), t))
  }

  /** cd commits the new working directory exactly when it can enter it,
      and then changes nothing else; on any failure the shell is left as it
      was.  cd never logs and never prints. */
  lemma CdSpec(env: Env, sh: Shell, side: Side, args: seq<string>)
    ensures var r := Cd(env, sh, side, args);
            && (r.err.None? <==>
                  |args| <= 1 && CdTarget(env, sh, side, args).Ok?
                  && Enterable(Fs(sh, side), Join(WD(sh, side), CdTarget(env, sh, side, args).value)))
            && (r.err.None? ==> r.shell == WithWD(sh, side, Join(WD(sh, side), CdTarget(env, sh, side, args).value)))
            && (r.err.Some? ==> r.shell == sh)
            && r.log == [] && r.out == []
  {
  }

  /** cd keeps the session invariant: the new directory is absolute. */
  lemma CdValid(env: Env, sh: Shell, side: Side, args: seq<string>)
    requires Valid(sh)
    ensures Valid(Cd(env, sh, side, args).shell)
  {
    if |args| <= 1 && CdTarget(env, sh, side, args).Ok? {
      JoinRooted(WD(sh, side), CdTarget(env, sh, side, args).value);
    }
  }

  /** cd into a child and then cd .. comes back: the second cd succeeds
      unless stat or open of the first directory is refused, and the
      working directory it sets names the directory the first cd left. */
  lemma CdChildAndBack(env: Env, sh: Shell, side: Side, n: string)
    requires Valid(sh) && Element(n) && n != ".."
    requires Cd(env, sh, side, [n]).err.None?
    requires Fault(StatOp, KeyOf(WD(sh, side))) !in Fs(sh, side).faults
    requires Fault(OpenOp, KeyOf(WD(sh, side))) !in Fs(sh, side).faults
    ensures var back := Cd(env, Cd(env, sh, side, [n]).shell, side, [".."]);
            && back.err.None?
            && Parse(WD(back.shell, side)) == Parse(WD(sh, side))
            && back.shell == WithWD(sh, side, WD(back.shell, side))
  {
    var wd := WD(sh, side);
    var child := Join(wd, n);
    CdSpec(env, sh, side, [n]);
    JoinChild(wd, n);
    assert KeyOf(child) == KeyOf(wd) + [n];
    assert Parent(KeyOf(child)) == KeyOf(wd);
    var sh1 := Cd(env, sh, side, [n]).shell;
    assert WD(sh1, side) == child && Fs(sh1, side) == Fs(sh, side);
    JoinChildParent(wd, n);
    CdSpec(env, sh1, side, [".."]);
  }

  // ---------------------------------------------------------------------
  // pwd and lpwd
  // ---------------------------------------------------------------------

  /** pwd (remote) and lpwd (local) print the working directory. */
  function Pwd(sh: Shell, side: Side, args: seq<string>): Reply
  {
    if |args| != 0 then
      Refuse(sh, Message(if side == Remote then "pwd takes no argument" else "lpwd takes no argument"))
    else Reply(sh, [], WD(sh, side), None)
  }

  /** After a successful cd, pwd prints the directory cd joined; pwd itself
      changes nothing. */
  lemma CdThenPwd(env: Env, sh: Shell, side: Side, args: seq<string>)
    requires Cd(env, sh, side, args).err.None?
    ensures var r := Pwd(Cd(env, sh, side, args).shell, side, []);
            && r.err.None? && r.shell == Cd(env, sh, side, args).shell
            && r.out == Join(WD(sh, side), CdTarget(env, sh, side, args).value)
  {
    CdSpec(env, sh, side, args);
  }

  // ---------------------------------------------------------------------
  // rename
  // ---------------------------------------------------------------------

  /** rename: exactly two names, both resolved against the remote working
      directory, handed to the server's rename. */
  function RenameCmd(sh: Shell, args: seq<string>): Reply
  {
    if |args| != 2 then Refuse(sh, Message("rename takes two arguments"))
    else match Rename(sh.remote, Join(sh.remoteWD, args[0]), Join(sh.remoteWD, args[1]))
      case Fail(e) => Refuse(sh, e)
      case Ok(s) => Reply(sh.(remote := s), [], "", None)
  }

  /** rename fails unless it gets exactly two names and the server accepts
      the move; a successful rename carries the subtree at the first name
      over to the second and touches nothing outside the two subtrees. */
  lemma RenameCmdSpec(sh: Shell, args: seq<string>)
    requires Valid(sh)
    ensures var r := RenameCmd(sh, args);
            && (r.err.None? <==> |args| == 2 && Rename(sh.remote, Join(sh.remoteWD, args[0]), Join(sh.remoteWD, args[1])).Ok?)
            && (r.err.Some? ==> r.shell == sh)
            && (r.err.None? ==> r.shell == sh.(remote := r.shell.remote))
            && r.log == [] && r.out == []
    ensures var r := RenameCmd(sh, args);
            r.err.None? ==>
              var fk := KeyOf(Join(sh.remoteWD, args[0]));
              var tk := KeyOf(Join(sh.remoteWD, args[1]));
              && fk !in r.shell.remote.nodes
              && (forall d :: tk + d in r.shell.remote.nodes <==> fk + d in sh.remote.nodes)
              && (forall k :: !IsPrefix(fk, k) && !IsPrefix(tk, k) ==>
                    (k in r.shell.remote.nodes <==> k in sh.remote.nodes))
  {
    if |args| == 2 && Rename(sh.remote, Join(sh.remoteWD, args[0]), Join(sh.remoteWD, args[1])).Ok? {
      RenameMoves(sh.remote, Join(sh.remoteWD, args[0]), Join(sh.remoteWD, args[1]));
    }
  }

  lemma RenameCmdValid(sh: Shell, args: seq<string>)
    requires Valid(sh)
    ensures Valid(RenameCmd(sh, args).shell)
  {
    if |args| == 2 && Rename(sh.remote, Join(sh.remoteWD, args[0]), Join(sh.remoteWD, args[1])).Ok? {
      JoinRooted(sh.remoteWD, args[1]);
      RenameWF(sh.remote, Join(sh.remoteWD, args[0]), Join(sh.remoteWD, args[1]));
    }
  }

  // ---------------------------------------------------------------------
  // less and lless
  // ---------------------------------------------------------------------

  /** less (remote) and lless (local): open one file and page it. */
  function LessCmd(env: Env, sh: Shell, side: Side, args: seq<string>): Reply
  {
    if |args| != 1 then Refuse(sh, Message("less takes one argument"))
    else
      var p := Join(WD(sh, side), args[0]);
      match Open(Fs(sh, side), p)
      case Fail(e) => Refuse(sh, e)
      case Ok(n) => Reply(sh, [], "", env.show(p, n))
  }

  /** Paging never changes the shell; it fails unless it gets one name that
      opens and the pager accepts it. */
  lemma LessCmdSpec(env: Env, sh: Shell, side: Side, args: seq<string>)
    ensures var r := LessCmd(env, sh, side, args);
            && r.shell == sh && r.log == [] && r.out == []
            && (r.err.None? <==>
                  && |args| == 1
                  && Open(Fs(sh, side), Join(WD(sh, side), args[0])).Ok?
                  && env.show(Join(WD(sh, side), args[0]), Open(Fs(sh, side), Join(WD(sh, side), args[0])).value).None?)
  {
  }
}

/** The interactive browsers ll (remote) and lll (local): list the working
    directory in a table, let the user pick a row, enter the directory or
    page the file picked, and start again until the user leaves. */
module Browser {
  import opened Outcomes
  import opened Paths
  import opened Store
  import opened Oracles
  import opened Shell

  /** The row the table picker returns: its name ("" when the user leaves)
      and whether the table showed it as a directory. */
  datatype Selected = Selected(name: string, isDir: bool)

  /** One round of the browser on the picker's answer.  ".." and
      directories are entered with cd / lcd, anything else is paged with
      less / lless. */
  function Visit(env: Env, sh: Shell, side: Side, sel: Selected): Reply
  {
    if sel.name == ".." then Cd(env, sh, side, [".."])
    else if sel.isDir then Cd(env, sh, side, [sel.name])
    else LessCmd(env, sh, side, [sel.name])
  }

  /** ll / lll.  The picker's answers come in order in `choices`; running
      out of answers is the user leaving.  A listing failure ends the
      browser (ll wraps it), and so does the first failed round, keeping the
      directories entered before it. */
  function Browse(env: Env, sh: Shell, side: Side, choices: seq<Res<Selected>>): Reply
    decreases |choices|
  {
    match ReadDir(Fs(sh, side), WD(sh, side))
    case Fail(e) => Reply(sh, [], "", Some(if side == Remote then ListingFailed(e) else e))
    case Ok(_) =>
      if choices == [] then Reply(sh, [], "", None)
      else match choices[0]
        case Fail(e) => Reply(sh, [], "", Some(e))
        case Ok(sel) =>
          if sel.name == [] then Reply(sh, [], "", None)
          else
            var r := Visit(env, sh, side, sel);
            if r.err.Some? then Reply(r.shell, [], "", r.err)
            else Browse(env, r.shell, side, choices[1..])
  }

  /** A round either enters a directory cd could enter, or leaves the
      shell alone; it never logs or prints. */
  lemma VisitShape(env: Env, sh: Shell, side: Side, sel: Selected)
    ensures var r := Visit(env, sh, side, sel);
            && r.log == [] && r.out == []
            && (r.shell == sh || (r.shell == WithWD(sh, side, WD(r.shell, side)) && Enterable(Fs(sh, side), WD(r.shell, side))))
  {
    if sel.name == ".." || sel.isDir {
      CdSpec(env, sh, side, [sel.name]);
    } else {
      LessCmdSpec(env, sh, side, [sel.name]);
    }
  }

  /** The browser only moves the working directory of its side, and where
      it ends up is where it started or a directory cd could enter.  It
      never logs and never prints. */
  lemma {:induction false} BrowseShape(env: Env, sh: Shell, side: Side, choices: seq<Res<Selected>>)
    ensures var r := Browse(env, sh, side, choices);
            && r.log == [] && r.out == []
            && r.shell == WithWD(sh, side, WD(r.shell, side))
            && (WD(r.shell, side) == WD(sh, side) || Enterable(Fs(sh, side), WD(r.shell, side)))
    decreases |choices|
  {
    if ReadDir(Fs(sh, side), WD(sh, side)).Ok? && choices != [] && choices[0].Ok? && choices[0].value.name != [] {
      var r := Visit(env, sh, side, choices[0].value);
      VisitShape(env, sh, side, choices[0].value);
      if r.err.None? {
        BrowseShape(env, r.shell, side, choices[1..]);
        MovedWD(sh, r.shell, side);
      }
    }
  }

  /** Moving the working directory of one side twice is moving it once. */
  lemma MovedWD(sh: Shell, mid: Shell, side: Side)
    requires mid == sh || mid == WithWD(sh, side, WD(mid, side))
    ensures forall d :: WithWD(mid, side, d) == WithWD(sh, side, d)
    ensures Fs(mid, side) == Fs(sh, side)
  {
  }

  /** The browser keeps the session invariant. */
  lemma {:induction false} BrowseValid(env: Env, sh: Shell, side: Side, choices: seq<Res<Selected>>)
    requires Valid(sh)
    ensures Valid(Browse(env, sh, side, choices).shell)
    decreases |choices|
  {
    if ReadDir(Fs(sh, side), WD(sh, side)).Ok? && choices != [] && choices[0].Ok? && choices[0].value.name != [] {
      var sel := choices[0].value;
      var r := Visit(env, sh, side, sel);
      if sel.name == ".." || sel.isDir {
        CdValid(env, sh, side, [sel.name]);
      } else {
        LessCmdSpec(env, sh, side, [sel.name]);
      }
      if r.err.None? {
        BrowseValid(env, r.shell, side, choices[1..]);
      }
    }
  }
}

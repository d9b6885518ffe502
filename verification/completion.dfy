/** Tab completion: the shell's completeFiles, the four argument completers
    (cd, lcd, less, lless) and their table (sftpshell.go), and the line
    completer the sftp command installs (sftp.go). */
module Completion {
  import opened Outcomes
  import opened Text
  import opened Paths
  import opened Store
  import opened Oracles
  import opened Shell

  // ---------------------------------------------------------------------
  // completeFiles
  // ---------------------------------------------------------------------

  /** What one listed entry offers.  A directory is offered with a trailing
      separator; with onlyDirs nothing else is offered, and with onlyFiles
      only regular files, by their bare name. */
  function Proposal(e: Entry, onlyDirs: bool, onlyFiles: bool): Option<string>
  {
    if onlyDirs then (if e.node == Dir then Some(e.name + "/") else None)
    else if onlyFiles then (if e.node.File? then Some(e.name) else None)
    else if e.node == Dir then Some(e.name + "/")
    else Some(e.name)
  }

  /** The proposals of a listing, in listing order. */
  function Offered(es: seq<Entry>, onlyDirs: bool, onlyFiles: bool): seq<string>
  {
    if es == [] then []
    else
      (match Proposal(es[0], onlyDirs, onlyFiles)
       case Some(p) => [p]
       case None => [])
      + Offered(es[1..], onlyDirs, onlyFiles)
  }

  /** The strings of ps that start with pre, in their order. */
  function WithPrefix(ps: seq<string>, pre: string): seq<string>
  {
    if ps == [] then []
    else (if HasPrefix(ps[0], pre) then [ps[0]] else []) + WithPrefix(ps[1..], pre)
  }

  /** Each string passed through f, in order. */
  function Map(f: string -> string, ps: seq<string>): (r: seq<string>)
  {
    seq(|ps|, i requires 0 <= i < |ps| => f(ps[i]))
  }

  lemma MapHas(f: string -> string, ps: seq<string>, q: string)
    ensures q in Map(f, ps) <==> exists p :: p in ps && q == f(p)
  {
    if q in Map(f, ps) {
      var i :| 0 <= i < |ps| && Map(f, ps)[i] == q;
      assert ps[i] in ps;
    }
    if exists p :: p in ps && q == f(p) {
      var p :| p in ps && q == f(p);
      var i :| 0 <= i < |ps| && ps[i] == p;
      assert Map(f, ps)[i] == q;
    }
  }

  /** The proposals of a listing that extend the candidate.  An empty
      candidate filters nothing. */
  function Kept(cand: string, es: seq<Entry>, onlyDirs: bool, onlyFiles: bool): seq<string>
  {
    var props := Offered(es, onlyDirs, onlyFiles);
    if cand != [] then WithPrefix(props, cand) else props
  }

  /** completeFiles: the proposals that extend the candidate, each quoted
      for the command line. */
  function CompleteFiles(quote: string -> string, cand: string, es: seq<Entry>,
                         onlyDirs: bool, onlyFiles: bool): seq<string>
  {
    Map(quote, Kept(cand, es, onlyDirs, onlyFiles))
  }

  /** A proposal is the entry's name, with a separator exactly for a
      directory; it exists for directories only under onlyDirs and for
      regular files only under onlyFiles. */
  lemma ProposalSpec(e: Entry, onlyDirs: bool, onlyFiles: bool)
    ensures Proposal(e, onlyDirs, onlyFiles).Some? <==>
              (onlyDirs ==> e.node == Dir) && (!onlyDirs && onlyFiles ==> e.node.File?)
    ensures Proposal(e, onlyDirs, onlyFiles).Some? ==>
              (Proposal(e, onlyDirs, onlyFiles).value == e.name + "/" <==> e.node == Dir)
              && (e.node != Dir ==> Proposal(e, onlyDirs, onlyFiles).value == e.name)
  {
    assert |e.name + "/"| != |e.name|;
  }

  lemma {:induction false} OfferedSpec(es: seq<Entry>, onlyDirs: bool, onlyFiles: bool)
    ensures forall p :: p in Offered(es, onlyDirs, onlyFiles) <==>
              exists e :: e in es && Proposal(e, onlyDirs, onlyFiles) == Some(p)
  {
    if es != [] {
      OfferedSpec(es[1..], onlyDirs, onlyFiles);
      forall p | exists e :: e in es && Proposal(e, onlyDirs, onlyFiles) == Some(p)
        ensures p in Offered(es, onlyDirs, onlyFiles)
      {
        var e :| e in es && Proposal(e, onlyDirs, onlyFiles) == Some(p);
        if e != es[0] {
          assert e in es[1..];
        }
      }
    }
  }

  lemma {:induction false} WithPrefixSpec(ps: seq<string>, pre: string)
    ensures forall p :: p in WithPrefix(ps, pre) <==> p in ps && HasPrefix(p, pre)
  {
    if ps != [] {
      WithPrefixSpec(ps[1..], pre);
      assert ps == [ps[0]] + ps[1..];
    }
  }

  /** The proposals kept are those of the listed entries that extend the
      candidate. */
  lemma KeptSpec(cand: string, es: seq<Entry>, onlyDirs: bool, onlyFiles: bool)
    ensures forall p :: p in Kept(cand, es, onlyDirs, onlyFiles) <==>
              HasPrefix(p, cand) && exists e :: e in es && Proposal(e, onlyDirs, onlyFiles) == Some(p)
  {
    OfferedSpec(es, onlyDirs, onlyFiles);
    WithPrefixSpec(Offered(es, onlyDirs, onlyFiles), cand);
  }

  /** completeFiles offers the quoted proposal of every listed entry that
      qualifies and starts with the candidate, and nothing else. */
  lemma CompleteFilesSpec(quote: string -> string, cand: string, es: seq<Entry>,
                          onlyDirs: bool, onlyFiles: bool, q: string)
    ensures q in CompleteFiles(quote, cand, es, onlyDirs, onlyFiles) <==>
              exists e :: e in es && Proposal(e, onlyDirs, onlyFiles).Some?
                       && HasPrefix(Proposal(e, onlyDirs, onlyFiles).value, cand)
                       && q == quote(Proposal(e, onlyDirs, onlyFiles).value)
  {
    var kept := Kept(cand, es, onlyDirs, onlyFiles);
    KeptSpec(cand, es, onlyDirs, onlyFiles);
    MapHas(quote, kept, q);
    if q in CompleteFiles(quote, cand, es, onlyDirs, onlyFiles) {
      var p :| p in kept && q == quote(p);
      var e :| e in es && Proposal(e, onlyDirs, onlyFiles) == Some(p);
    }
    if exists e :: e in es && Proposal(e, onlyDirs, onlyFiles).Some?
                 && HasPrefix(Proposal(e, onlyDirs, onlyFiles).value, cand)
                 && q == quote(Proposal(e, onlyDirs, onlyFiles).value) {
      var e :| e in es && Proposal(e, onlyDirs, onlyFiles).Some?
               && HasPrefix(Proposal(e, onlyDirs, onlyFiles).value, cand)
               && q == quote(Proposal(e, onlyDirs, onlyFiles).value);
      assert Proposal(e, onlyDirs, onlyFiles).value in kept;
    }
  }

  // ---------------------------------------------------------------------
  // The argument completers
  // ---------------------------------------------------------------------

  /** The argument being completed: the only one, or the empty string. */
  function Input(args: seq<string>): string
  {
    if |args| == 1 then args[0] else []
  }

  /** completeCd / completeLcd (onlyDirs) and completeLess / completeLless:
      nothing for more than one argument or an unreadable directory;
      otherwise the proposals inside the directory `candidate` chose, each
      put behind its display prefix. */
  function CompleteIn(quote: string -> string, s: Store, wd: string, args: seq<string>,
                      onlyDirs: bool): seq<string>
  {
    if |args| > 1 then []
    else
      var c := Candidate(wd, Input(args));
      match ReadDir(s, c.dirname)
      case Fail(_) => []
      case Ok(es) => JoinedOnto(c.relDirname, CompleteFiles(quote, c.cand, es, onlyDirs, false))
  }

  /** Each proposal joined onto the display prefix, in order. */
  function JoinedOnto(d: string, ps: seq<string>): seq<string>
  {
    seq(|ps|, i requires 0 <= i < |ps| => Join(d, ps[i]))
  }

  lemma JoinedOntoHas(d: string, ps: seq<string>, q: string)
    ensures q in JoinedOnto(d, ps) <==> exists p :: p in ps && q == Join(d, p)
  {
    if q in JoinedOnto(d, ps) {
      var i :| 0 <= i < |ps| && JoinedOnto(d, ps)[i] == q;
      assert ps[i] in ps;
    }
    if exists p :: p in ps && q == Join(d, p) {
      var p :| p in ps && q == Join(d, p);
      var i :| 0 <= i < |ps| && ps[i] == p;
      assert JoinedOnto(d, ps)[i] == q;
    }
  }

  /** Quoting left unchanged the proposal the completion q was made from:
      the entry's name holds no character the quoting escapes. */
  ghost predicate PlainFor(quote: string -> string, s: Store, wd: string, args: seq<string>,
                           onlyDirs: bool, q: string)
  {
    var c := Candidate(wd, Input(args));
    forall e :: e in Listing(s.nodes, KeyOf(c.dirname)) && Proposal(e, onlyDirs, false).Some?
                && q == Join(c.relDirname, quote(Proposal(e, onlyDirs, false).value)) ==>
                  quote(Proposal(e, onlyDirs, false).value) == Proposal(e, onlyDirs, false).value
  }

  /** A proposal that extends a candidate without separator: the bare name
      extends it too. */
  lemma NameExtends(n: string, p: string, cand: string)
    requires Sep !in cand && (p == n || p == n + "/") && HasPrefix(p, cand)
    ensures HasPrefix(n, cand)
  {
    if p != n {
      assert p[|n|] == Sep;
      assert Sep in p;
      assert p[..|p|] == p;
      assert |cand| <= |n|;
      assert p[..|cand|] == n[..|cand|];
    }
  }

  /** What the argument completers offer from a readable directory: the
      quoted proposals of its qualifying entries that extend the candidate,
      each behind the display prefix. */
  lemma CompleteInHas(quote: string -> string, s: Store, wd: string, args: seq<string>,
                      onlyDirs: bool, q: string)
    ensures var c := Candidate(wd, Input(args));
            q in CompleteIn(quote, s, wd, args, onlyDirs) <==>
              && |args| <= 1 && ReadDir(s, c.dirname).Ok?
              && exists e :: e in ReadDir(s, c.dirname).value && Proposal(e, onlyDirs, false).Some?
                       && HasPrefix(Proposal(e, onlyDirs, false).value, c.cand)
                       && q == Join(c.relDirname, quote(Proposal(e, onlyDirs, false).value))
  {
    var c := Candidate(wd, Input(args));
    if |args| <= 1 && ReadDir(s, c.dirname).Ok? {
      var es := ReadDir(s, c.dirname).value;
      var props := CompleteFiles(quote, c.cand, es, onlyDirs, false);
      JoinedOntoHas(c.relDirname, props, q);
      if q in CompleteIn(quote, s, wd, args, onlyDirs) {
        var p :| p in props && q == Join(c.relDirname, p);
        CompleteFilesSpec(quote, c.cand, es, onlyDirs, false, p);
      }
      if exists e :: e in es && Proposal(e, onlyDirs, false).Some?
                   && HasPrefix(Proposal(e, onlyDirs, false).value, c.cand)
                   && q == Join(c.relDirname, quote(Proposal(e, onlyDirs, false).value)) {
        var e :| e in es && Proposal(e, onlyDirs, false).Some?
                 && HasPrefix(Proposal(e, onlyDirs, false).value, c.cand)
                 && q == Join(c.relDirname, quote(Proposal(e, onlyDirs, false).value));
        var p := quote(Proposal(e, onlyDirs, false).value);
        CompleteFilesSpec(quote, c.cand, es, onlyDirs, false, p);
      }
    }
  }

  /** The proposal of a listed entry, put behind the display prefix and
      joined back onto the working directory, names that entry. */
  lemma EntryLands(s: Store, wd: string, input: string, e: Entry, onlyDirs: bool)
    requires Rooted(wd) && WF(s)
    requires e in Listing(s.nodes, KeyOf(Candidate(wd, input).dirname))
    requires Proposal(e, onlyDirs, false).Some?
    requires HasPrefix(Proposal(e, onlyDirs, false).value, Candidate(wd, input).cand)
    ensures var c := Candidate(wd, input);
            var k := KeyOf(Join(wd, Join(c.relDirname, Proposal(e, onlyDirs, false).value)));
            && k == KeyOf(c.dirname) + [e.name] && k in s.nodes && s.nodes[k] == e.node
            && (onlyDirs ==> e.node == Dir) && HasPrefix(e.name, c.cand)
  {
    var c := Candidate(wd, input);
    var p := Proposal(e, onlyDirs, false).value;
    ProposalSpec(e, onlyDirs, false);
    EntryIsChild(s, KeyOf(c.dirname), e);
    CompletionLands(wd, input, p, e.name);
    NameExtends(e.name, p, c.cand);
  }

  /** Every completion, joined back onto the working directory, names an
      existing child of the directory listed, whose name extends the
      candidate; under onlyDirs that child is a directory. */
  lemma CompleteInSound(quote: string -> string, s: Store, wd: string, args: seq<string>,
                        onlyDirs: bool, q: string)
    requires Rooted(wd) && WF(s) && PlainFor(quote, s, wd, args, onlyDirs, q)
    requires q in CompleteIn(quote, s, wd, args, onlyDirs)
    ensures |args| <= 1
    ensures var c := Candidate(wd, Input(args));
            var k := KeyOf(Join(wd, q));
            && k != [] && k[..|k| - 1] == KeyOf(c.dirname) && HasPrefix(k[|k| - 1], c.cand)
            && k in s.nodes && (onlyDirs ==> s.nodes[k] == Dir)
  {
    var c := Candidate(wd, Input(args));
    CompleteInHas(quote, s, wd, args, onlyDirs, q);
    var e :| e in ReadDir(s, c.dirname).value && Proposal(e, onlyDirs, false).Some?
             && HasPrefix(Proposal(e, onlyDirs, false).value, c.cand)
             && q == Join(c.relDirname, quote(Proposal(e, onlyDirs, false).value));
    EntryLands(s, wd, Input(args), e, onlyDirs);
    var k := KeyOf(Join(wd, q));
    assert k[..|k| - 1] == KeyOf(c.dirname);
  }

  /** A listed entry of a well-formed tree is a child with a plain name. */
  lemma EntryIsChild(s: Store, k: Key, e: Entry)
    requires WF(s) && e in Listing(s.nodes, k)
    ensures k + [e.name] in s.nodes && s.nodes[k + [e.name]] == e.node
    ensures Element(e.name) && e.name != ".."
  {
    ListingHas(s.nodes, k);
    assert Simple(k + [e.name]);
    assert (k + [e.name])[|k|] == e.name;
  }

  /** Conversely, every child of the directory listed that qualifies and
      whose proposal extends the candidate is offered. */
  lemma CompleteInComplete(quote: string -> string, s: Store, wd: string, args: seq<string>,
                           onlyDirs: bool, n: string)
    requires |args| <= 1
    requires ReadDir(s, Candidate(wd, Input(args)).dirname).Ok?
    requires KeyOf(Candidate(wd, Input(args)).dirname) + [n] in s.nodes
    requires onlyDirs ==> s.nodes[KeyOf(Candidate(wd, Input(args)).dirname) + [n]] == Dir
    requires HasPrefix(Marked(n, s.nodes[KeyOf(Candidate(wd, Input(args)).dirname) + [n]]),
                       Candidate(wd, Input(args)).cand)
    ensures Join(Candidate(wd, Input(args)).relDirname,
                 quote(Marked(n, s.nodes[KeyOf(Candidate(wd, Input(args)).dirname) + [n]])))
            in CompleteIn(quote, s, wd, args, onlyDirs)
  {
    var c := Candidate(wd, Input(args));
    var k := KeyOf(c.dirname);
    var e := Entry(n, s.nodes[k + [n]]);
    ListingEntry(s.nodes, k, n);
    assert Proposal(e, onlyDirs, false) == Some(Marked(n, e.node));
    CompleteInHas(quote, s, wd, args, onlyDirs, Join(c.relDirname, quote(Marked(n, e.node))));
  }

  /** How an entry is offered when nothing is filtered out. */
  function Marked(n: string, node: Node): string
  {
    if node == Dir then n + "/" else n
  }

  // ---------------------------------------------------------------------
  // The completer table
  // ---------------------------------------------------------------------

  /** The `completes` table: which side each completer lists, and whether it
      offers directories only. */
  const Completers: map<string, (Side, bool)> :=
    map["cd" := (Remote, true), "lcd" := (Local, true),
        "less" := (Remote, false), "lless" := (Local, false)]

  /** complete: the command's completer, or nothing for a command that has
      none. */
  function Complete(env: Env, sh: Shell, cmd: string, args: seq<string>): seq<string>
  {
    if cmd in Completers then
      var (side, onlyDirs) := Completers[cmd];
      CompleteIn(env.quote, Fs(sh, side), WD(sh, side), args, onlyDirs)
    else []
  }

  /** Every completion cd / lcd offers names a directory of its side, and
      cd to it succeeds, landing there, unless stat or open of it is
      refused by the backend. */
  lemma CdCompletionEnters(env: Env, sh: Shell, side: Side, args: seq<string>, q: string)
    requires Valid(sh) && PlainFor(env.quote, Fs(sh, side), WD(sh, side), args, true, q)
    requires q in Complete(env, sh, if side == Remote then "cd" else "lcd", args)
    ensures var d := Join(WD(sh, side), q);
            && KeyOf(d) in Fs(sh, side).nodes && Fs(sh, side).nodes[KeyOf(d)] == Dir
            && (Fault(StatOp, KeyOf(d)) !in Fs(sh, side).faults && Fault(OpenOp, KeyOf(d)) !in Fs(sh, side).faults
                ==> Cd(env, sh, side, [q]) == Reply(WithWD(sh, side, d), [], "", None))
  {
    var cmd := if side == Remote then "cd" else "lcd";
    assert Completers[cmd] == (side, true);
    CompleteInSound(env.quote, Fs(sh, side), WD(sh, side), args, true, q);
    CdSpec(env, sh, side, [q]);
  }

  /** Every completion less / lless offers names an existing entry of its
      side. */
  lemma LessCompletionExists(env: Env, sh: Shell, side: Side, args: seq<string>, q: string)
    requires Valid(sh) && PlainFor(env.quote, Fs(sh, side), WD(sh, side), args, false, q)
    requires q in Complete(env, sh, if side == Remote then "less" else "lless", args)
    ensures KeyOf(Join(WD(sh, side), q)) in Fs(sh, side).nodes
  {
    var cmd := if side == Remote then "less" else "lless";
    assert Completers[cmd] == (side, false);
    CompleteInSound(env.quote, Fs(sh, side), WD(sh, side), args, false, q);
  }

  // ---------------------------------------------------------------------
  // The line completer
  // ---------------------------------------------------------------------

  /** The command words the line completer knows, "help" among them. */
  const Commands: seq<string> :=
    ["ls", "lls", "ll", "lll", "get", "put", "cd", "lcd", "less", "lless",
     "mkdir", "lmkdir", "mkdirall", "lmkdirall", "pwd", "lpwd", "rename",
     "rm", "lrm", "rmdir", "lrmdir", "exit", "logout", "help"]

  /** The completer of the sftp prompt: every command for an empty line;
      for a known command the completions of its argument, behind the
      command and a space; for one unknown word the commands it starts;
      nothing otherwise. */
  function Completer(env: Env, sh: Shell, line: string): seq<string>
  {
    match env.parse(line)
    case ParseError(_) => []
    case Words(args, _) =>
      if args == [] then Commands
      else
        var cmd := Lower(args[0]);
        if cmd in Commands then
          Prefixed(cmd + " ", Complete(env, sh, cmd, args[1..]))
        else if |args| == 1 then WithPrefix(Commands, cmd)
        else []
  }

  /** Each string behind pre, in order. */
  function Prefixed(pre: string, ps: seq<string>): seq<string>
  {
    seq(|ps|, i requires 0 <= i < |ps| => pre + ps[i])
  }

  lemma PrefixedHas(pre: string, ps: seq<string>, r: string)
    ensures r in Prefixed(pre, ps) <==> HasPrefix(r, pre) && r[|pre|..] in ps
  {
    if r in Prefixed(pre, ps) {
      var i :| 0 <= i < |ps| && Prefixed(pre, ps)[i] == r;
      assert r[..|pre|] == pre;
      assert r[|pre|..] == ps[i];
    }
    if HasPrefix(r, pre) && r[|pre|..] in ps {
      var i :| 0 <= i < |ps| && ps[i] == r[|pre|..];
      assert r == r[..|pre|] + r[|pre|..];
      assert Prefixed(pre, ps)[i] == r;
    }
  }

  /** For a known command word, the completer offers exactly the command's
      argument completions, each behind the lower-cased command and a space. */
  lemma CompleterCommand(env: Env, sh: Shell, line: string, r: string)
    requires env.parse(line).Words? && env.parse(line).words != []
    requires Lower(env.parse(line).words[0]) in Commands
    ensures var args := env.parse(line).words;
            var cmd := Lower(args[0]);
            r in Completer(env, sh, line) <==>
              HasPrefix(r, cmd + " ") && r[|cmd| + 1..] in Complete(env, sh, cmd, args[1..])
  {
    var args := env.parse(line).words;
    var cmd := Lower(args[0]);
    assert Completer(env, sh, line) == Prefixed(cmd + " ", Complete(env, sh, cmd, args[1..]));
    PrefixedHas(cmd + " ", Complete(env, sh, cmd, args[1..]), r);
  }

  /** One word that is not a command is completed to the commands it
      starts; more words after an unknown one get nothing. */
  lemma CompleterWord(env: Env, sh: Shell, line: string, r: string)
    requires env.parse(line).Words? && env.parse(line).words != []
    requires Lower(env.parse(line).words[0]) !in Commands
    ensures |env.parse(line).words| == 1 ==>
              (r in Completer(env, sh, line) <==> r in Commands && HasPrefix(r, Lower(env.parse(line).words[0])))
    ensures |env.parse(line).words| > 1 ==> Completer(env, sh, line) == []
  {
    WithPrefixSpec(Commands, Lower(env.parse(line).words[0]));
  }

  /** A command word without a completer, such as "rm", is never
      completed, not even to the longer commands it starts ("rmdir"). */
  lemma CompleterNoCompleter(env: Env, sh: Shell, line: string)
    requires env.parse(line).Words? && env.parse(line).words != []
    requires Lower(env.parse(line).words[0]) in Commands
    requires Lower(env.parse(line).words[0]) !in Completers
    ensures Completer(env, sh, line) == []
  {
  }
}

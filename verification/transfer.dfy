/** get and put: classify the named entries of the source side, then copy
    the directories and afterwards the regular files into the working
    directory of the other side.  Entries that cannot be stat'ed and entries
    that are neither are reported and skipped. */
module Transfer {
  import opened Outcomes
  import opened Paths
  import opened Store
  import opened Tree
  import opened Mirror
  import opened Oracles
  import opened Shell

  /** The arguments sorted out: the paths of the directories and of the
      regular files, in argument order, and the lines for the others. */
  datatype Classes = Classes(dirs: seq<string>, files: seq<string>, log: seq<LogEntry>)

  function Classify(stat: StatFn, wd: string, args: seq<string>): Classes
  {
    if args == [] then Classes([], [], [])
    else
      var path := Join(wd, args[0]);
      var rest := Classify(stat, wd, args[1..]);
      match stat(path)
      case Fail(e) => rest.(log := [Failed(args[0], e)] + rest.log)
      case Ok(n) =>
        match n
        case Dir => rest.(dirs := [path] + rest.dirs)
        case File(_) => rest.(files := [path] + rest.files)
        case Other => rest.(log := [NotRegular(args[0])] + rest.log)
  }

  /** Every argument lands in exactly one place: the directories and the
      regular files are kept as absolute paths, every other argument gets
      one error line. */
  lemma ClassifySpec(stat: StatFn, wd: string, args: seq<string>)
    requires Rooted(wd)
    ensures var c := Classify(stat, wd, args);
            && |c.dirs| + |c.files| + |c.log| == |args|
            && (forall i :: 0 <= i < |c.log| ==> c.log[i].IsError())
            && (forall j :: 0 <= j < |c.dirs| ==> Rooted(c.dirs[j]) && stat(c.dirs[j]) == Ok(Dir))
            && (forall j :: 0 <= j < |c.files| ==> Rooted(c.files[j]) && stat(c.files[j]).Ok? && stat(c.files[j]).value.File?)
            && (forall i :: 0 <= i < |args| && stat(Join(wd, args[i])) == Ok(Dir) ==> Join(wd, args[i]) in c.dirs)
            && (forall i :: 0 <= i < |args| && stat(Join(wd, args[i])).Ok? && stat(Join(wd, args[i])).value.File? ==>
                  Join(wd, args[i]) in c.files)
  {
    ClassifyCount(stat, wd, args);
    ClassifyKept(stat, wd, args);
    ClassifyDirsComplete(stat, wd, args);
    ClassifyFilesComplete(stat, wd, args);
  }

  lemma {:induction false} ClassifyCount(stat: StatFn, wd: string, args: seq<string>)
    ensures var c := Classify(stat, wd, args);
            && |c.dirs| + |c.files| + |c.log| == |args|
            && (forall i :: 0 <= i < |c.log| ==> c.log[i].IsError())
    decreases |args|
  {
    if args != [] {
      ClassifyCount(stat, wd, args[1..]);
      ClassifyStep(stat, wd, args);
      var c := Classify(stat, wd, args);
      var r := Classify(stat, wd, args[1..]);
      if c.log != r.log {
        forall i | 0 < i < |c.log|
          ensures c.log[i].IsError()
        {
          assert c.log[i] == r.log[i - 1];
        }
      }
    }
  }

  /** One argument adds one item to exactly one of the three lists. */
  lemma ClassifyStep(stat: StatFn, wd: string, args: seq<string>)
    requires args != []
    ensures var c := Classify(stat, wd, args);
            var r := Classify(stat, wd, args[1..]);
            && |c.dirs| + |c.files| + |c.log| == |r.dirs| + |r.files| + |r.log| + 1
            && (c.log == r.log || (c.log == [c.log[0]] + r.log && c.log[0].IsError()))
  {
  }

  lemma ClassifyKept(stat: StatFn, wd: string, args: seq<string>)
    requires Rooted(wd)
    ensures var c := Classify(stat, wd, args);
            && (forall j :: 0 <= j < |c.dirs| ==> Rooted(c.dirs[j]) && stat(c.dirs[j]) == Ok(Dir))
            && (forall j :: 0 <= j < |c.files| ==> Rooted(c.files[j]) && stat(c.files[j]).Ok? && stat(c.files[j]).value.File?)
  {
    ClassifyDirsKept(stat, wd, args);
    ClassifyFilesKept(stat, wd, args);
  }

  /** Absolute paths that stat as directories. */
  predicate AllDirs(stat: StatFn, ds: seq<string>)
  {
    forall j :: 0 <= j < |ds| ==> Rooted(ds[j]) && stat(ds[j]) == Ok(Dir)
  }

  /** Absolute paths that stat as regular files. */
  predicate AllFiles(stat: StatFn, fs: seq<string>)
  {
    forall j :: 0 <= j < |fs| ==> Rooted(fs[j]) && stat(fs[j]).Ok? && stat(fs[j]).value.File?
  }

  lemma {:induction false} ClassifyDirsKept(stat: StatFn, wd: string, args: seq<string>)
    requires Rooted(wd)
    ensures AllDirs(stat, Classify(stat, wd, args).dirs)
    decreases |args|
  {
    if args != [] {
      ClassifyDirsKept(stat, wd, args[1..]);
      var path := Join(wd, args[0]);
      JoinRooted(wd, args[0]);
      var rest := Classify(stat, wd, args[1..]).dirs;
      if stat(path) == Ok(Dir) {
        assert Classify(stat, wd, args).dirs == [path] + rest;
        DirsCons(stat, path, rest);
      } else {
        assert Classify(stat, wd, args).dirs == rest;
      }
    }
  }

  lemma DirsCons(stat: StatFn, path: string, rest: seq<string>)
    requires Rooted(path) && stat(path) == Ok(Dir) && AllDirs(stat, rest)
    ensures AllDirs(stat, [path] + rest)
  {
    forall j | 0 < j < |[path] + rest|
      ensures ([path] + rest)[j] == rest[j - 1]
    {
    }
  }

  lemma {:induction false} ClassifyFilesKept(stat: StatFn, wd: string, args: seq<string>)
    requires Rooted(wd)
    ensures AllFiles(stat, Classify(stat, wd, args).files)
    decreases |args|
  {
    if args != [] {
      ClassifyFilesKept(stat, wd, args[1..]);
      var path := Join(wd, args[0]);
      JoinRooted(wd, args[0]);
      var rest := Classify(stat, wd, args[1..]).files;
      if stat(path).Ok? && stat(path).value.File? {
        assert Classify(stat, wd, args).files == [path] + rest;
        FilesCons(stat, path, rest);
      } else {
        assert Classify(stat, wd, args).files == rest;
      }
    }
  }

  lemma FilesCons(stat: StatFn, path: string, rest: seq<string>)
    requires Rooted(path) && stat(path).Ok? && stat(path).value.File? && AllFiles(stat, rest)
    ensures AllFiles(stat, [path] + rest)
  {
    forall j | 0 < j < |[path] + rest|
      ensures ([path] + rest)[j] == rest[j - 1]
    {
    }
  }

  lemma {:induction false} ClassifyDirsComplete(stat: StatFn, wd: string, args: seq<string>)
    ensures forall i :: 0 <= i < |args| && stat(Join(wd, args[i])) == Ok(Dir) ==>
              Join(wd, args[i]) in Classify(stat, wd, args).dirs
    decreases |args|
  {
    if args != [] {
      ClassifyDirsComplete(stat, wd, args[1..]);
      forall i | 0 <= i < |args| && stat(Join(wd, args[i])) == Ok(Dir)
        ensures Join(wd, args[i]) in Classify(stat, wd, args).dirs
      {
        if i > 0 {
          assert args[i] == args[1..][i - 1];
        }
      }
    }
  }

  lemma {:induction false} ClassifyFilesComplete(stat: StatFn, wd: string, args: seq<string>)
    ensures forall i :: 0 <= i < |args| && stat(Join(wd, args[i])).Ok? && stat(Join(wd, args[i])).value.File? ==>
              Join(wd, args[i]) in Classify(stat, wd, args).files
    decreases |args|
  {
    if args != [] {
      ClassifyFilesComplete(stat, wd, args[1..]);
      forall i | 0 <= i < |args| && stat(Join(wd, args[i])).Ok? && stat(Join(wd, args[i])).value.File?
        ensures Join(wd, args[i]) in Classify(stat, wd, args).files
      {
        if i > 0 {
          assert args[i] == args[1..][i - 1];
        }
      }
    }
  }

  /** Non-empty paths, as every absolute path is. */
  predicate AllNamed(paths: seq<string>)
  {
    forall i :: 0 <= i < |paths| ==> paths[i] != []
  }

  /** Copy one path, as a directory tree or as a file. */
  function CopyOne(d: Direction, src: Store, dst: Store, dstDir: string, p: string, asDir: bool): Outcome
    requires AllSimple(src) && p != []
  {
    if asDir then CopyTree(d, src, dst, dstDir, p) else CopyFile(d, src, dst, dstDir, p)
  }

  /** Copy every path in turn into dstDir, reporting each failure under the
      full path. */
  function CopyAll(d: Direction, src: Store, dst: Store, dstDir: string, paths: seq<string>, asDirs: bool): Outcome
    requires AllSimple(src) && AllNamed(paths)
    decreases |paths|
  {
    if paths == [] then Outcome(dst, [], None)
    else
      var o := CopyOne(d, src, dst, dstDir, paths[0], asDirs);
      var line := if o.err.Some? then [Failure(d, paths[0], o.err.value)] else [];
      var rest := CopyAll(d, src, o.store, dstDir, paths[1..], asDirs);
      Outcome(rest.store, o.log + line + rest.log, None)
  }

  lemma CopyOneDirected(d: Direction, src: Store, dst: Store, dstDir: string, p: string, asDir: bool)
    requires AllSimple(src) && p != []
    ensures Directed(d, CopyOne(d, src, dst, dstDir, p, asDir).log)
  {
    if asDir {
      CopyTreeDirected(d, src, dst, dstDir, p);
    }
  }

  lemma CopyOneFrame(d: Direction, src: Store, dst: Store, dstDir: string, p: string, asDir: bool)
    requires AllSimple(src) && p != [] && Rooted(dstDir)
    ensures ChangedOnlyUnder(dst, CopyOne(d, src, dst, dstDir, p, asDir).store, KeyOf(Target(dstDir, p)))
  {
    if asDir {
      CopyTreeFrame(d, src, dst, dstDir, p);
    } else {
      CopyFileFrame(d, src, dst, dstDir, p);
    }
  }

  lemma CopyOneWF(d: Direction, src: Store, dst: Store, dstDir: string, p: string, asDir: bool)
    requires AllSimple(src) && p != [] && Rooted(dstDir) && WF(dst)
    ensures WF(CopyOne(d, src, dst, dstDir, p, asDir).store)
  {
    if asDir {
      CopyTreeWF(d, src, dst, dstDir, p);
    } else {
      CopyFileWF(d, src, dst, dstDir, p);
    }
  }

  function Source(d: Direction): Side
  {
    match d
    case Download => Remote
    case Upload => Local
  }

  function Dest(d: Direction): Side
  {
    match d
    case Download => Local
    case Upload => Remote
  }

  /** The fuzzy picker get / put fall back on without arguments. */
  function Pick(env: Env, d: Direction, s: Store, wd: string): Res<seq<string>>
  {
    match d
    case Download => env.fuzzyRemote(s, wd)
    case Upload => env.fuzzyLocal(s, wd)
  }

  /** get (Download) and put (Upload). */
  function TransferCmd(env: Env, sh: Shell, d: Direction, args: seq<string>): Reply
    requires Valid(sh)
  {
    if args == [] then
      match Pick(env, d, Fs(sh, Source(d)), WD(sh, Source(d)))
      case Fail(e) => Refuse(sh, e)
      case Ok(names) => if names == [] then Reply(sh, [], "", None) else Copy(sh, d, names)
    else Copy(sh, d, args)
  }

  /** Directories first, then regular files. */
  function Copy(sh: Shell, d: Direction, names: seq<string>): Reply
    requires Valid(sh)
  {
    var src := Fs(sh, Source(d));
    var c := Classify(StatOf(src), WD(sh, Source(d)), names);
    ClassifySpec(StatOf(src), WD(sh, Source(d)), names);
    var r1 := CopyAll(d, src, Fs(sh, Dest(d)), WD(sh, Dest(d)), c.dirs, true);
    var r2 := CopyAll(d, src, r1.store, WD(sh, Dest(d)), c.files, false);
    Reply(WithFs(sh, Dest(d), r2.store), c.log + r1.log + r2.log, "", None)
  }

  /** get / put only fail when the picker does; they never print and never
      touch the source side or either working directory. */
  lemma TransferShape(env: Env, sh: Shell, d: Direction, args: seq<string>)
    requires Valid(sh)
    ensures var r := TransferCmd(env, sh, d, args);
            && r.out == []
            && (r.err.Some? <==> args == [] && Pick(env, d, Fs(sh, Source(d)), WD(sh, Source(d))).Fail?)
            && (r.err.Some? ==> r.shell == sh && r.log == [])
            && r.shell == WithFs(sh, Dest(d), Fs(r.shell, Dest(d)))
  {
  }

  /** Every line the copies write (done or failed) belongs to the
      transfer's direction. */
  lemma {:induction false} CopyAllDirected(d: Direction, src: Store, dst: Store, dstDir: string, paths: seq<string>, asDirs: bool)
    requires AllSimple(src) && AllNamed(paths)
    ensures Directed(d, CopyAll(d, src, dst, dstDir, paths, asDirs).log)
    decreases |paths|
  {
    if paths != [] {
      var o := CopyOne(d, src, dst, dstDir, paths[0], asDirs);
      CopyOneDirected(d, src, dst, dstDir, paths[0], asDirs);
      var line := if o.err.Some? then [Failure(d, paths[0], o.err.value)] else [];
      assert Directed(d, line);
      CopyAllDirected(d, src, o.store, dstDir, paths[1..], asDirs);
      DirectedAppend(d, o.log, line);
      DirectedAppend(d, o.log + line, CopyAll(d, src, o.store, dstDir, paths[1..], asDirs).log);
    }
  }

  lemma PrefixThenDirected(d: Direction, a: seq<LogEntry>, b: seq<LogEntry>, c: seq<LogEntry>)
    requires Directed(d, b) && Directed(d, c)
    ensures |a| <= |a + b + c| && (a + b + c)[..|a|] == a && Directed(d, (a + b + c)[|a|..])
  {
    assert (a + b + c)[..|a|] == a;
    assert (a + b + c)[|a|..] == b + c;
    DirectedAppend(d, b, c);
  }

  /** The log of get / put: one error line per argument that is neither a
      directory nor a regular file, then only lines of the transfer's own
      direction. */
  lemma TransferLog(sh: Shell, d: Direction, names: seq<string>)
    requires Valid(sh)
    ensures var c := Classify(StatOf(Fs(sh, Source(d))), WD(sh, Source(d)), names);
            var log := Copy(sh, d, names).log;
            && |c.log| <= |log| && log[..|c.log|] == c.log
            && (forall i :: 0 <= i < |c.log| ==> log[i].IsError())
            && Directed(d, log[|c.log|..])
  {
    var src := Fs(sh, Source(d));
    var c := Classify(StatOf(src), WD(sh, Source(d)), names);
    ClassifyCount(StatOf(src), WD(sh, Source(d)), names);
    ClassifySpec(StatOf(src), WD(sh, Source(d)), names);
    var r1 := CopyAll(d, src, Fs(sh, Dest(d)), WD(sh, Dest(d)), c.dirs, true);
    var r2 := CopyAll(d, src, r1.store, WD(sh, Dest(d)), c.files, false);
    CopyAllDirected(d, src, Fs(sh, Dest(d)), WD(sh, Dest(d)), c.dirs, true);
    CopyAllDirected(d, src, r1.store, WD(sh, Dest(d)), c.files, false);
    PrefixThenDirected(d, c.log, r1.log, r2.log);
  }


  // ---------------------------------------------------------------------
  // Where get and put write
  // ---------------------------------------------------------------------

  /** key is at or below none of the keys in ks. */
  predicate Outside(ks: set<Key>, key: Key)
  {
    forall k :: k in ks ==> !IsPrefix(k, key)
  }

  /** b differs from a only at or below the keys in ks. */
  ghost predicate ChangedOnlyUnderAll(a: Store, b: Store, ks: set<Key>)
  {
    a.faults == b.faults && forall key :: Outside(ks, key) ==> SameAt(a, b, key)
  }

  /** The keys the copies of paths land on in dstDir. */
  function Targets(dstDir: string, paths: seq<string>): set<Key>
  {
    set i | 0 <= i < |paths| :: KeyOf(Target(dstDir, paths[i]))
  }

  lemma {:induction false} CopyAllFrame(d: Direction, src: Store, dst: Store, dstDir: string, paths: seq<string>, asDirs: bool)
    requires AllSimple(src) && AllNamed(paths) && Rooted(dstDir)
    ensures ChangedOnlyUnderAll(dst, CopyAll(d, src, dst, dstDir, paths, asDirs).store, Targets(dstDir, paths))
    decreases |paths|
  {
    if paths != [] {
      var o := CopyOne(d, src, dst, dstDir, paths[0], asDirs);
      CopyOneFrame(d, src, dst, dstDir, paths[0], asDirs);
      var rest := CopyAll(d, src, o.store, dstDir, paths[1..], asDirs);
      CopyAllFrame(d, src, o.store, dstDir, paths[1..], asDirs);
      CopyAllStep(dst, o.store, rest.store, dstDir, paths);
    }
  }

  lemma CopyAllStep(a: Store, b: Store, c: Store, dstDir: string, paths: seq<string>)
    requires paths != []
    requires ChangedOnlyUnder(a, b, KeyOf(Target(dstDir, paths[0])))
    requires ChangedOnlyUnderAll(b, c, Targets(dstDir, paths[1..]))
    ensures ChangedOnlyUnderAll(a, c, Targets(dstDir, paths))
  {
    var ts := Targets(dstDir, paths);
    assert KeyOf(Target(dstDir, paths[0])) in ts;
    assert Targets(dstDir, paths[1..]) <= ts by {
      forall k | k in Targets(dstDir, paths[1..])
        ensures k in ts
      {
        var i :| 0 <= i < |paths[1..]| && k == KeyOf(Target(dstDir, paths[1..][i]));
        assert paths[1..][i] == paths[i + 1];
      }
    }
    forall key | Outside(ts, key)
      ensures SameAt(a, c, key)
    {
      assert SameAt(a, b, key);
      assert SameAt(b, c, key);
    }
  }

  /** get and put write only inside the copies of the classified
      directories and files, in the working directory of the other side. */
  lemma TransferFrame(env: Env, sh: Shell, d: Direction, names: seq<string>)
    requires Valid(sh)
    ensures var c := Classify(StatOf(Fs(sh, Source(d))), WD(sh, Source(d)), names);
            ChangedOnlyUnderAll(Fs(sh, Dest(d)), Fs(Copy(sh, d, names).shell, Dest(d)),
                                Targets(WD(sh, Dest(d)), c.dirs) + Targets(WD(sh, Dest(d)), c.files))
  {
    var src := Fs(sh, Source(d));
    var dst := Fs(sh, Dest(d));
    var wd := WD(sh, Dest(d));
    var c := Classify(StatOf(src), WD(sh, Source(d)), names);
    ClassifySpec(StatOf(src), WD(sh, Source(d)), names);
    var r1 := CopyAll(d, src, dst, wd, c.dirs, true);
    var r2 := CopyAll(d, src, r1.store, wd, c.files, false);
    CopyAllFrame(d, src, dst, wd, c.dirs, true);
    CopyAllFrame(d, src, r1.store, wd, c.files, false);
    var all := Targets(wd, c.dirs) + Targets(wd, c.files);
    forall key | Outside(all, key)
      ensures SameAt(dst, r2.store, key)
    {
      assert Outside(Targets(wd, c.dirs), key);
      assert Outside(Targets(wd, c.files), key);
      assert SameAt(dst, r1.store, key);
    }
  }

  /** get / put of one directory that nothing stands in the way of copies
      the whole tree: every directory and regular file below it turns up,
      with the same bytes, below the new directory in the other side's
      working directory, and no error line is logged. */
  lemma TransferDirMirrors(sh: Shell, d: Direction, name: string)
    requires Valid(sh)
    requires var src := Fs(sh, Source(d));
             var p := Join(WD(sh, Source(d)), name);
             && Stat(src, p) == Ok(Dir)
             && Clear(src, KeyOf(p), Fs(sh, Dest(d)), KeyOf(Target(WD(sh, Dest(d)), p)))
    ensures var p := Join(WD(sh, Source(d)), name);
            var r := Copy(sh, d, [name]);
            && r.err.None? && Fs(r.shell, Source(d)) == Fs(sh, Source(d))
            && NoErrors(r.log)
            && Mirrors(Fs(sh, Source(d)), KeyOf(p), Fs(r.shell, Dest(d)), KeyOf(Target(WD(sh, Dest(d)), p)))
  {
    var p := Join(WD(sh, Source(d)), name);
    CopySingleDir(sh, d, name);
    CopyTreeLands(d, Fs(sh, Source(d)), Fs(sh, Dest(d)), WD(sh, Dest(d)), p);
    CopyTreeClean(d, Fs(sh, Source(d)), Fs(sh, Dest(d)), WD(sh, Dest(d)), p);
    assert CopyTree(d, Fs(sh, Source(d)), Fs(sh, Dest(d)), WD(sh, Dest(d)), p).log + [] == CopyTree(d, Fs(sh, Source(d)), Fs(sh, Dest(d)), WD(sh, Dest(d)), p).log;
  }

  /** get / put of one directory is one tree copy into the other side. */
  lemma CopySingleDir(sh: Shell, d: Direction, name: string)
    requires Valid(sh) && Stat(Fs(sh, Source(d)), Join(WD(sh, Source(d)), name)) == Ok(Dir)
    ensures Join(WD(sh, Source(d)), name) != []
    ensures var t := CopyTree(d, Fs(sh, Source(d)), Fs(sh, Dest(d)), WD(sh, Dest(d)), Join(WD(sh, Source(d)), name));
            var line := if t.err.Some? then [Failure(d, Join(WD(sh, Source(d)), name), t.err.value)] else [];
            Copy(sh, d, [name]) == Reply(WithFs(sh, Dest(d), t.store), t.log + line, "", None)
  {
    var src, dst := Fs(sh, Source(d)), Fs(sh, Dest(d));
    var p := Join(WD(sh, Source(d)), name);
    JoinRooted(WD(sh, Source(d)), name);
    ClassifyOneDir(StatOf(src), WD(sh, Source(d)), name);
    CopyOnlyDirs(sh, d, [name], [p]);
    CopyAllOne(d, src, dst, WD(sh, Dest(d)), p, true);
  }

  /** With directories only among the arguments, the file pass adds nothing. */
  lemma CopyOnlyDirs(sh: Shell, d: Direction, names: seq<string>, dirs: seq<string>)
    requires Valid(sh) && AllNamed(dirs)
    requires Classify(StatOf(Fs(sh, Source(d))), WD(sh, Source(d)), names) == Classes(dirs, [], [])
    ensures var r1 := CopyAll(d, Fs(sh, Source(d)), Fs(sh, Dest(d)), WD(sh, Dest(d)), dirs, true);
            Copy(sh, d, names) == Reply(WithFs(sh, Dest(d), r1.store), r1.log, "", None)
  {
    var r1 := CopyAll(d, Fs(sh, Source(d)), Fs(sh, Dest(d)), WD(sh, Dest(d)), dirs, true);
    assert [] + r1.log + [] == r1.log;
  }

  lemma ClassifyOneDir(stat: StatFn, wd: string, name: string)
    requires stat(Join(wd, name)) == Ok(Dir)
    ensures Classify(stat, wd, [name]) == Classes([Join(wd, name)], [], [])
  {
    assert [name][1..] == [];
  }

  /** Copying a single path is copying it, plus a line when that fails. */
  lemma CopyAllOne(d: Direction, src: Store, dst: Store, dstDir: string, p: string, asDirs: bool)
    requires AllSimple(src) && p != []
    ensures var o := CopyOne(d, src, dst, dstDir, p, asDirs);
            var line := if o.err.Some? then [Failure(d, p, o.err.value)] else [];
            CopyAll(d, src, dst, dstDir, [p], asDirs) == Outcome(o.store, o.log + line, None)
  {
    var o := CopyOne(d, src, dst, dstDir, p, asDirs);
    var line := if o.err.Some? then [Failure(d, p, o.err.value)] else [];
    assert [p][1..] == [];
    assert o.log + line + [] == o.log + line;
  }

  // ---------------------------------------------------------------------
  // The session invariant
  // ---------------------------------------------------------------------

  lemma {:induction false} CopyAllWF(d: Direction, src: Store, dst: Store, dstDir: string, paths: seq<string>, asDirs: bool)
    requires AllSimple(src) && AllNamed(paths) && Rooted(dstDir) && WF(dst)
    ensures WF(CopyAll(d, src, dst, dstDir, paths, asDirs).store)
    decreases |paths|
  {
    if paths != [] {
      var o := CopyOne(d, src, dst, dstDir, paths[0], asDirs);
      CopyOneWF(d, src, dst, dstDir, paths[0], asDirs);
      CopyAllWF(d, src, o.store, dstDir, paths[1..], asDirs);
    }
  }

  lemma TransferValid(env: Env, sh: Shell, d: Direction, args: seq<string>)
    requires Valid(sh)
    ensures Valid(TransferCmd(env, sh, d, args).shell)
  {
    var names := if args == [] then Pick(env, d, Fs(sh, Source(d)), WD(sh, Source(d))) else Ok(args);
    if names.Ok? && names.value != [] {
      var src := Fs(sh, Source(d));
      var c := Classify(StatOf(src), WD(sh, Source(d)), names.value);
      ClassifySpec(StatOf(src), WD(sh, Source(d)), names.value);
      var r1 := CopyAll(d, src, Fs(sh, Dest(d)), WD(sh, Dest(d)), c.dirs, true);
      CopyAllWF(d, src, Fs(sh, Dest(d)), WD(sh, Dest(d)), c.dirs, true);
      CopyAllWF(d, src, r1.store, WD(sh, Dest(d)), c.files, false);
    }
  }
}

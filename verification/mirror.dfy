/** The copies behind `get` and `put`: a file is copied into a directory of
    the other backend under its base name, and a directory is recreated
    there with its regular files and subdirectories copied one by one.
    Download (remote to local) and upload (local to remote) run the same
    steps and differ only in the words they log. */
module Mirror {
  import opened Outcomes
  import opened Paths
  import opened Store
  import opened Tree

  datatype Direction = Download | Upload

  /** The info line for a finished copy. */
  function Done(d: Direction, p: string): LogEntry
  {
    match d
    case Download => Downloaded(p)
    case Upload => Uploaded(p)
  }

  /** The error line for a copy that failed. */
  function Failure(d: Direction, p: string, e: Error): LogEntry
  {
    match d
    case Download => DownloadFailed(p, e)
    case Upload => UploadFailed(p, e)
  }

  /** Where a copy of `p` lands inside `dir`. */
  function Target(dir: string, p: string): string
  {
    Join(dir, Base(p))
  }

  /** getfile / putfile: open the source, create the target (truncating a
      file already there), copy the bytes, and log the copy. */
  function CopyFile(d: Direction, src: Store, dst: Store, dstDir: string, file: string): Outcome
  {
    var target := Target(dstDir, file);
    match Open(src, file)
    case Fail(e) => Outcome(dst, [], Some(e))
    case Ok(node) =>
      match Create(dst, target)
      case Fail(e) => Outcome(dst, [], Some(e))
      case Ok(d1) =>
        match Content(node, file)
        case Fail(e) => Outcome(d1, [], Some(e))
        case Ok(data) =>
          match Write(d1, target, data)
          case Fail(e) => Outcome(d1, [], Some(e))
          case Ok(d2) => Outcome(d2, [Done(d, file)], None)
  }

  /** getdir / putdir: list the source directory, make the target directory
      (one that exists already is fine), copy every entry, and log the
      directory.  Once the listing and the directory are there the copy
      reports success, whatever happened to the entries. */
  function CopyTree(d: Direction, src: Store, dst: Store, dstDir: string, srcDir: string): (r: Outcome)
    requires srcDir != [] && AllSimple(src)
    decreases |Under(src, KeyOf(srcDir))|, 1, 0
  {
    match ReadDir(src, srcDir)
    case Fail(e) => Outcome(dst, [], Some(e))
    case Ok(files) =>
      var newDir := Target(dstDir, srcDir);
      var made := Mkdir(dst, newDir);
      if made.Fail? && !made.err.Exist? then Outcome(dst, [], Some(made.err))
      else
        var d1 := if made.Ok? then made.value else dst;
        ListingChildNames(src, KeyOf(srcDir));
        var r := CopyEntries(d, src, d1, newDir, srcDir, files);
        Outcome(r.store, r.log + [Done(d, srcDir)], None)
  }

  /** One entry of a listed directory: subdirectories recurse, regular files
      are copied, anything else is skipped; a failure is logged and the walk
      goes on. */
  function CopyEntry(d: Direction, src: Store, dst: Store, newDir: string, fname: string, node: Node): (r: Outcome)
    requires fname != [] && AllSimple(src)
    ensures r.err.None?
    decreases |Under(src, KeyOf(fname))|, 2, 0
  {
    if node == Dir then
      var c := CopyTree(d, src, dst, newDir, fname);
      if c.err.Some? then Outcome(c.store, c.log + [Failure(d, fname, c.err.value)], None) else c
    else if node.File? then
      var c := CopyFile(d, src, dst, newDir, fname);
      if c.err.Some? then Outcome(c.store, c.log + [Failure(d, fname, c.err.value)], None) else c
    else Outcome(dst, [], None)
  }

  function CopyEntries(d: Direction, src: Store, dst: Store, newDir: string, srcDir: string, es: seq<Entry>): (r: Outcome)
    requires srcDir != [] && AllSimple(src) && ChildNames(es) && KeyOf(srcDir) in src.nodes
    ensures r.err.None?
    decreases |Under(src, KeyOf(srcDir))|, 0, |es|
  {
    if es == [] then Outcome(dst, [], None)
    else
      var fname := Join(srcDir, es[0].name);
      JoinChild(srcDir, es[0].name);
      UnderChild(src, KeyOf(srcDir), es[0].name);
      var step := CopyEntry(d, src, dst, newDir, fname, es[0].node);
      var rest := CopyEntries(d, src, step.store, newDir, srcDir, es[1..]);
      Outcome(rest.store, step.log + rest.log, None)
  }

  // ---------------------------------------------------------------------
  // Copying one file
  // ---------------------------------------------------------------------

  /** What a file copy needs: the source opens as a regular file, and the
      target can be created (its directory exists, it is not a directory)
      and written. */
  predicate CopyAllowed(src: Store, dst: Store, file: string, tk: Key)
  {
    && Fault(OpenOp, KeyOf(file)) !in src.faults
    && KeyOf(file) in src.nodes && src.nodes[KeyOf(file)].File?
    && Fault(CreateOp, tk) !in dst.faults && Fault(WriteOp, tk) !in dst.faults
    && tk != [] && !(tk in dst.nodes && dst.nodes[tk] == Dir)
    && Parent(tk) in dst.nodes && dst.nodes[Parent(tk)] == Dir
  }

  /** A file copy succeeds exactly when it is allowed to. */
  lemma CopyFileOk(d: Direction, src: Store, dst: Store, dstDir: string, file: string)
    ensures CopyFile(d, src, dst, dstDir, file).err.None? <==> CopyAllowed(src, dst, file, KeyOf(Target(dstDir, file)))
  {
    var tk := KeyOf(Target(dstDir, file));
    if CopyAllowed(src, dst, file, tk) {
      var d1 := dst.(nodes := dst.nodes[tk := File([])]);
      assert Create(dst, Target(dstDir, file)) == Ok(d1);
      assert tk in d1.nodes && d1.nodes[tk].File?;
    }
  }

  /** A successful copy puts the source's bytes at the target, writes one
      info line and changes nothing else; a failed one writes no line and at
      most leaves an empty file at the target. */
  lemma CopyFileResult(d: Direction, src: Store, dst: Store, dstDir: string, file: string)
    ensures var r := CopyFile(d, src, dst, dstDir, file);
            var tk := KeyOf(Target(dstDir, file));
            && (r.err.None? ==> KeyOf(file) in src.nodes && r.store == dst.(nodes := dst.nodes[tk := src.nodes[KeyOf(file)]]))
            && (r.err.None? ==> r.log == [Done(d, file)])
            && (r.err.Some? ==> r.log == [])
            && (r.err.Some? ==> r.store == dst || r.store == dst.(nodes := dst.nodes[tk := File([])]))
  {
    var target := Target(dstDir, file);
    var tk := KeyOf(target);
    var o := Open(src, file);
    if o.Ok? {
      var c := Create(dst, target);
      if c.Ok? {
        var d1 := dst.(nodes := dst.nodes[tk := File([])]);
        assert c.value == d1;
        var data := Content(o.value, file);
        if data.Ok? {
          var w := Write(d1, target, data.value);
          if w.Ok? {
            assert o.value == File(data.value);
            OverwriteTwice(dst.nodes, tk, File([]), File(data.value));
          }
        }
      }
    }
  }

  lemma OverwriteTwice<K, V>(m: map<K, V>, k: K, a: V, b: V)
    ensures m[k := a][k := b] == m[k := b]
  {
  }

  /** Reading the copy back gives what was read from the source. */
  lemma CopyFileReadBack(d: Direction, src: Store, dst: Store, dstDir: string, file: string)
    requires CopyFile(d, src, dst, dstDir, file).err.None?
    requires Fault(OpenOp, KeyOf(Target(dstDir, file))) !in dst.faults
    ensures Open(CopyFile(d, src, dst, dstDir, file).store, Target(dstDir, file)) == Open(src, file)
  {
    CopyFileResult(d, src, dst, dstDir, file);
  }

  // ---------------------------------------------------------------------
  // Copying a directory
  // ---------------------------------------------------------------------

  /** A directory copy fails only when the source cannot be listed or the
      target directory cannot be made for a reason other than that it is
      already there; a failure leaves the destination alone and logs nothing,
      and a success ends its log with the line for the directory itself. */
  lemma CopyTreeOk(d: Direction, src: Store, dst: Store, dstDir: string, srcDir: string)
    requires srcDir != [] && AllSimple(src)
    ensures var r := CopyTree(d, src, dst, dstDir, srcDir);
            var made := Mkdir(dst, Target(dstDir, srcDir));
            && (r.err.None? <==> ReadDir(src, srcDir).Ok? && (made.Ok? || made.err.Exist?))
            && (r.err.Some? ==> r.store == dst && r.log == [])
            && (r.err.None? ==> r.log != [] && r.log[|r.log| - 1] == Done(d, srcDir))
  {
  }

  /** A line logged while copying in direction d. */
  predicate InDirection(d: Direction, e: LogEntry)
  {
    match d
    case Download => e.Downloaded? || e.DownloadFailed?
    case Upload => e.Uploaded? || e.UploadFailed?
  }

  predicate Directed(d: Direction, log: seq<LogEntry>)
  {
    forall i :: 0 <= i < |log| ==> InDirection(d, log[i])
  }

  /** Downloads log only download lines and uploads only upload lines. */
  lemma {:induction false} CopyTreeDirected(d: Direction, src: Store, dst: Store, dstDir: string, srcDir: string)
    requires srcDir != [] && AllSimple(src)
    ensures Directed(d, CopyTree(d, src, dst, dstDir, srcDir).log)
    decreases |Under(src, KeyOf(srcDir))|, 1, 0
  {
    match ReadDir(src, srcDir)
    case Fail(_) =>
    case Ok(files) =>
      var newDir := Target(dstDir, srcDir);
      var made := Mkdir(dst, newDir);
      if !(made.Fail? && !made.err.Exist?) {
        var d1 := if made.Ok? then made.value else dst;
        ListingChildNames(src, KeyOf(srcDir));
        var r := CopyEntries(d, src, d1, newDir, srcDir, files);
        CopyEntriesDirected(d, src, d1, newDir, srcDir, files);
        DirectedAppend(d, r.log, [Done(d, srcDir)]);
      }
  }

  lemma DirectedAppend(d: Direction, a: seq<LogEntry>, b: seq<LogEntry>)
    requires Directed(d, a) && Directed(d, b)
    ensures Directed(d, a + b)
  {
    forall i | 0 <= i < |a + b|
      ensures InDirection(d, (a + b)[i])
    {
      if i >= |a| {
        assert (a + b)[i] == b[i - |a|];
      }
    }
  }

  lemma {:induction false} CopyEntryDirected(d: Direction, src: Store, dst: Store, newDir: string, fname: string, node: Node)
    requires fname != [] && AllSimple(src)
    ensures Directed(d, CopyEntry(d, src, dst, newDir, fname, node).log)
    decreases |Under(src, KeyOf(fname))|, 2, 0
  {
    if node == Dir {
      var c := CopyTree(d, src, dst, newDir, fname);
      CopyTreeDirected(d, src, dst, newDir, fname);
      if c.err.Some? {
        DirectedAppend(d, c.log, [Failure(d, fname, c.err.value)]);
      }
    } else if node.File? {
      var c := CopyFile(d, src, dst, newDir, fname);
      CopyFileResult(d, src, dst, newDir, fname);
      if c.err.Some? {
        DirectedAppend(d, c.log, [Failure(d, fname, c.err.value)]);
      }
    }
  }

  lemma {:induction false} CopyEntriesDirected(d: Direction, src: Store, dst: Store, newDir: string, srcDir: string, es: seq<Entry>)
    requires srcDir != [] && AllSimple(src) && ChildNames(es) && KeyOf(srcDir) in src.nodes
    ensures Directed(d, CopyEntries(d, src, dst, newDir, srcDir, es).log)
    decreases |Under(src, KeyOf(srcDir))|, 0, |es|
  {
    if es != [] {
      var fname := Join(srcDir, es[0].name);
      JoinChild(srcDir, es[0].name);
      UnderChild(src, KeyOf(srcDir), es[0].name);
      var step := CopyEntry(d, src, dst, newDir, fname, es[0].node);
      CopyEntryDirected(d, src, dst, newDir, fname, es[0].node);
      CopyEntriesDirected(d, src, step.store, newDir, srcDir, es[1..]);
      DirectedAppend(d, step.log, CopyEntries(d, src, step.store, newDir, srcDir, es[1..]).log);
    }
  }

  // ---------------------------------------------------------------------
  // Where a copy writes
  // ---------------------------------------------------------------------

  /** Key `key` is present in both stores with the same node, or in neither. */
  predicate SameAt(a: Store, b: Store, key: Key)
  {
    (key in a.nodes <==> key in b.nodes) && (key in a.nodes ==> a.nodes[key] == b.nodes[key])
  }

  /** b differs from a only at k and below it. */
  ghost predicate ChangedOnlyUnder(a: Store, b: Store, k: Key)
  {
    a.faults == b.faults && forall key :: !IsPrefix(k, key) ==> SameAt(a, b, key)
  }

  /** b differs from a only below the entries es of the directory dk. */
  ghost predicate ChangedOnlyEntries(a: Store, b: Store, dk: Key, es: seq<Entry>)
  {
    a.faults == b.faults && forall key :: !BelowEntry(dk, es, key) ==> SameAt(a, b, key)
  }

  /** Directories and regular files are copied; other entries are skipped. */
  predicate Copyable(n: Node)
  {
    n == Dir || n.File?
  }

  /** The entries of a listing a directory copy copies, in listing order. */
  function Copied(es: seq<Entry>): (r: seq<Entry>)
    ensures |r| <= |es|
    ensures forall i :: 0 <= i < |r| ==> Copyable(r[i].node) && r[i] in es
    ensures forall i :: 0 <= i < |es| && Copyable(es[i].node) ==> es[i] in r
  {
    if es == [] then []
    else
      var rest := Copied(es[1..]);
      assert forall e :: e in rest ==> e in es[1..];
      if Copyable(es[0].node) then [es[0]] + rest else rest
  }

  lemma ChangedTrans(a: Store, b: Store, c: Store, k: Key)
    requires ChangedOnlyUnder(a, b, k) && ChangedOnlyUnder(b, c, k)
    ensures ChangedOnlyUnder(a, c, k)
  {
    forall key | !IsPrefix(k, key)
      ensures SameAt(a, c, key)
    {
      assert SameAt(a, b, key) && SameAt(b, c, key);
    }
  }

  lemma EntriesWithin(a: Store, b: Store, dk: Key, es: seq<Entry>)
    requires ChangedOnlyEntries(a, b, dk, es)
    ensures ChangedOnlyUnder(a, b, dk)
  {
    forall key | !IsPrefix(dk, key)
      ensures SameAt(a, b, key)
    {
      assert !BelowEntry(dk, es, key);
    }
  }

  lemma MkdirFrame(s: Store, p: string)
    requires Mkdir(s, p).Ok?
    ensures ChangedOnlyUnder(s, Mkdir(s, p).value, KeyOf(p))
  {
    var k := KeyOf(p);
    forall key | !IsPrefix(k, key)
      ensures SameAt(s, Mkdir(s, p).value, key)
    {
      assert key != k;
    }
  }

  lemma CopyFileFrame(d: Direction, src: Store, dst: Store, dstDir: string, file: string)
    ensures ChangedOnlyUnder(dst, CopyFile(d, src, dst, dstDir, file).store, KeyOf(Target(dstDir, file)))
  {
    var tk := KeyOf(Target(dstDir, file));
    CopyFileResult(d, src, dst, dstDir, file);
    forall key | !IsPrefix(tk, key)
      ensures SameAt(dst, CopyFile(d, src, dst, dstDir, file).store, key)
    {
      assert key != tk;
    }
  }

  /** The names a step's own subtree and the rest's subtrees cover. */
  lemma CopiedNames(es: seq<Entry>, key: Key, dk: Key)
    requires es != []
    ensures BelowEntry(dk, Copied(es[1..]), key) ==> BelowEntry(dk, Copied(es), key)
    ensures Copyable(es[0].node) && IsPrefix(dk + [es[0].name], key) ==> BelowEntry(dk, Copied(es), key)
  {
    var rest := Copied(es[1..]);
    if Copyable(es[0].node) {
      assert Copied(es) == [es[0]] + rest;
      assert Names(Copied(es)) == [es[0].name] + Names(rest);
      BelowFirstEntry(dk, Copied(es), key);
    }
  }

  lemma CopyEntriesStep(a: Store, b: Store, c: Store, dk: Key, es: seq<Entry>)
    requires es != []
    requires Copyable(es[0].node) ==> ChangedOnlyUnder(a, b, dk + [es[0].name])
    requires !Copyable(es[0].node) ==> a == b
    requires ChangedOnlyEntries(b, c, dk, Copied(es[1..]))
    ensures ChangedOnlyEntries(a, c, dk, Copied(es))
  {
    forall key | !BelowEntry(dk, Copied(es), key)
      ensures SameAt(a, c, key)
    {
      CopiedNames(es, key, dk);
      assert SameAt(b, c, key);
      assert SameAt(a, b, key);
    }
  }

  /** A directory copy writes only inside the directory it makes. */
  lemma {:induction false} CopyTreeFrame(d: Direction, src: Store, dst: Store, dstDir: string, srcDir: string)
    requires srcDir != [] && AllSimple(src) && Rooted(dstDir)
    ensures ChangedOnlyUnder(dst, CopyTree(d, src, dst, dstDir, srcDir).store, KeyOf(Target(dstDir, srcDir)))
    decreases |Under(src, KeyOf(srcDir))|, 1, 0
  {
    var newDir := Target(dstDir, srcDir);
    var nk := KeyOf(newDir);
    match ReadDir(src, srcDir)
    case Fail(_) =>
    case Ok(files) =>
      var made := Mkdir(dst, newDir);
      if !(made.Fail? && !made.err.Exist?) {
        var d1 := if made.Ok? then made.value else dst;
        if made.Ok? {
          MkdirFrame(dst, newDir);
        }
        assert ChangedOnlyUnder(dst, d1, nk);
        ListingChildNames(src, KeyOf(srcDir));
        JoinRooted(dstDir, Base(srcDir));
        var r := CopyEntries(d, src, d1, newDir, srcDir, files);
        CopyEntriesFrame(d, src, d1, newDir, srcDir, files);
        EntriesWithin(d1, r.store, nk, Copied(files));
        ChangedTrans(dst, d1, r.store, nk);
      }
  }

  /** Copying an entry writes only inside its copy, and a skipped entry
      writes nothing. */
  lemma {:induction false} CopyEntryFrame(d: Direction, src: Store, dst: Store, newDir: string, fname: string, node: Node)
    requires fname != [] && AllSimple(src) && Rooted(newDir)
    ensures Copyable(node) ==> ChangedOnlyUnder(dst, CopyEntry(d, src, dst, newDir, fname, node).store, KeyOf(Target(newDir, fname)))
    ensures !Copyable(node) ==> CopyEntry(d, src, dst, newDir, fname, node).store == dst
    decreases |Under(src, KeyOf(fname))|, 2, 0
  {
    if node == Dir {
      CopyTreeFrame(d, src, dst, newDir, fname);
    } else if node.File? {
      CopyFileFrame(d, src, dst, newDir, fname);
    }
  }

  /** Copying the entries of a listing writes only below the copies of its
      directories and regular files. */
  lemma {:induction false} CopyEntriesFrame(d: Direction, src: Store, dst: Store, newDir: string, srcDir: string, es: seq<Entry>)
    requires srcDir != [] && AllSimple(src) && ChildNames(es) && KeyOf(srcDir) in src.nodes && Rooted(newDir)
    ensures ChangedOnlyEntries(dst, CopyEntries(d, src, dst, newDir, srcDir, es).store, KeyOf(newDir), Copied(es))
    decreases |Under(src, KeyOf(srcDir))|, 0, |es|
  {
    if es != [] {
      var name := es[0].name;
      var fname := Join(srcDir, name);
      EntryKeys(srcDir, newDir, name);
      UnderChild(src, KeyOf(srcDir), name);
      CopyEntriesUnfold(d, src, dst, newDir, srcDir, es);
      var step := CopyEntry(d, src, dst, newDir, fname, es[0].node);
      CopyEntryFrame(d, src, dst, newDir, fname, es[0].node);
      var rest := CopyEntries(d, src, step.store, newDir, srcDir, es[1..]);
      CopyEntriesFrame(d, src, step.store, newDir, srcDir, es[1..]);
      CopyEntriesStep(dst, step.store, rest.store, KeyOf(newDir), es);
    }
  }

  // ---------------------------------------------------------------------
  // Copies keep the destination a tree
  // ---------------------------------------------------------------------

  lemma CopyFileWF(d: Direction, src: Store, dst: Store, dstDir: string, file: string)
    requires WF(dst) && Rooted(dstDir)
    ensures WF(CopyFile(d, src, dst, dstDir, file).store)
  {
    var target := Target(dstDir, file);
    JoinRooted(dstDir, Base(file));
    if Open(src, file).Ok? && Create(dst, target).Ok? {
      var d1 := Create(dst, target).value;
      CreateWF(dst, target);
      var data := Content(Open(src, file).value, file);
      if data.Ok? && Write(d1, target, data.value).Ok? {
        WriteWF(d1, target, data.value);
      }
    }
  }

  lemma {:induction false} CopyTreeWF(d: Direction, src: Store, dst: Store, dstDir: string, srcDir: string)
    requires srcDir != [] && AllSimple(src) && WF(dst) && Rooted(dstDir)
    ensures WF(CopyTree(d, src, dst, dstDir, srcDir).store)
    decreases |Under(src, KeyOf(srcDir))|, 1, 0
  {
    match ReadDir(src, srcDir)
    case Fail(_) =>
    case Ok(files) =>
      var newDir := Target(dstDir, srcDir);
      var made := Mkdir(dst, newDir);
      JoinRooted(dstDir, Base(srcDir));
      if !(made.Fail? && !made.err.Exist?) {
        var d1 := if made.Ok? then made.value else dst;
        if made.Ok? {
          MkdirWF(dst, newDir);
        }
        ListingChildNames(src, KeyOf(srcDir));
        CopyEntriesWF(d, src, d1, newDir, srcDir, files);
      }
  }

  lemma {:induction false} CopyEntryWF(d: Direction, src: Store, dst: Store, newDir: string, fname: string, node: Node)
    requires fname != [] && AllSimple(src) && WF(dst) && Rooted(newDir)
    ensures WF(CopyEntry(d, src, dst, newDir, fname, node).store)
    decreases |Under(src, KeyOf(fname))|, 2, 0
  {
    if node == Dir {
      CopyTreeWF(d, src, dst, newDir, fname);
    } else if node.File? {
      CopyFileWF(d, src, dst, newDir, fname);
    }
  }

  lemma {:induction false} CopyEntriesWF(d: Direction, src: Store, dst: Store, newDir: string, srcDir: string, es: seq<Entry>)
    requires srcDir != [] && AllSimple(src) && ChildNames(es) && KeyOf(srcDir) in src.nodes
    requires WF(dst) && Rooted(newDir)
    ensures WF(CopyEntries(d, src, dst, newDir, srcDir, es).store)
    decreases |Under(src, KeyOf(srcDir))|, 0, |es|
  {
    if es != [] {
      var fname := Join(srcDir, es[0].name);
      JoinChild(srcDir, es[0].name);
      UnderChild(src, KeyOf(srcDir), es[0].name);
      var step := CopyEntry(d, src, dst, newDir, fname, es[0].node);
      CopyEntryWF(d, src, dst, newDir, fname, es[0].node);
      CopyEntriesWF(d, src, step.store, newDir, srcDir, es[1..]);
    }
  }

  // ---------------------------------------------------------------------
  // What a directory copy writes
  // ---------------------------------------------------------------------

  /** Every directory and regular file at or below sk in src is found at
      the same place below tk in dst, with the same node. */
  ghost predicate Covers(src: Store, sk: Key, dst: Store, tk: Key)
  {
    forall rel :: sk + rel in src.nodes && Copyable(src.nodes[sk + rel]) ==>
      tk + rel in dst.nodes && dst.nodes[tk + rel] == src.nodes[sk + rel]
  }

  /** Everything at or below tk in dst is a directory or regular file found
      at the same place below sk in src, with the same node. */
  ghost predicate OnlyCopies(src: Store, sk: Key, dst: Store, tk: Key)
  {
    forall rel :: tk + rel in dst.nodes ==>
      sk + rel in src.nodes && Copyable(src.nodes[sk + rel]) && dst.nodes[tk + rel] == src.nodes[sk + rel]
  }

  /** The subtree at tk in dst is exactly the directories and regular files
      of the subtree at sk in src: the same relative names, the same nodes,
      and nothing else. */
  ghost predicate Mirrors(src: Store, sk: Key, dst: Store, tk: Key)
  {
    Covers(src, sk, dst, tk) && OnlyCopies(src, sk, dst, tk)
  }

  /** No listing and no open at or below sk is refused. */
  predicate Readable(s: Store, sk: Key)
  {
    forall f :: f in s.faults && (f.op == ReadDirOp || f.op == OpenOp) ==> !IsPrefix(sk, f.key)
  }

  /** No mkdir, create or write at or below tk is refused. */
  predicate Writable(s: Store, tk: Key)
  {
    forall f :: f in s.faults && (f.op == MkdirOp || f.op == CreateOp || f.op == WriteOp) ==> !IsPrefix(tk, f.key)
  }

  /** Nothing is at or below tk yet. */
  predicate Vacant(s: Store, tk: Key)
  {
    forall key :: key in s.nodes ==> !IsPrefix(tk, key)
  }

  /** A copy from sk in src to tk in dst meets no obstacle: the directory
      of the target exists, the target is free, and no operation on either
      side is refused. */
  predicate Clear(src: Store, sk: Key, dst: Store, tk: Key)
  {
    && tk != [] && Parent(tk) in dst.nodes && dst.nodes[Parent(tk)] == Dir
    && Readable(src, sk) && Writable(dst, tk) && Vacant(dst, tk)
  }

  /** For every entry whose own copy is clear, the result mirrors it. */
  ghost predicate MirrorsEntries(src: Store, sk: Key, dst: Store, out: Store, tk: Key, es: seq<Entry>)
  {
    forall i :: 0 <= i < |es| && Clear(src, sk + [es[i].name], dst, tk + [es[i].name]) ==>
      Mirrors(src, sk + [es[i].name], out, tk + [es[i].name])
  }

  /** getdir / putdir mirror the tree: when nothing is in the way, the
      copy succeeds and every directory and regular file below the source
      turns up below the new directory with the same name and bytes. */
  lemma {:induction false} CopyTreeMirror(d: Direction, src: Store, dst: Store, dstDir: string, srcDir: string)
    requires srcDir != [] && WF(src) && WF(dst) && Rooted(dstDir)
    requires KeyOf(srcDir) in src.nodes && src.nodes[KeyOf(srcDir)] == Dir
    requires Clear(src, KeyOf(srcDir), dst, KeyOf(Target(dstDir, srcDir)))
    ensures CopyTree(d, src, dst, dstDir, srcDir).err.None?
    ensures Mirrors(src, KeyOf(srcDir), CopyTree(d, src, dst, dstDir, srcDir).store, KeyOf(Target(dstDir, srcDir)))
    decreases |Under(src, KeyOf(srcDir))|, 1, 0
  {
    var sk := KeyOf(srcDir);
    var newDir := Target(dstDir, srcDir);
    var tk := KeyOf(newDir);
    var files := Listing(src.nodes, sk);
    var d1 := dst.(nodes := dst.nodes[tk := Dir]);
    CopyTreeOpens(d, src, dst, dstDir, srcDir);
    ListingChildNames(src, sk);
    ListingSpec(src.nodes, sk);
    SortedDistinct(files);
    var out := CopyEntries(d, src, d1, newDir, srcDir, files).store;
    EntriesClear(src, sk, dst, d1, tk, files);
    CopyEntriesMirror(d, src, d1, newDir, srcDir, files);
    AllMirrored(src, sk, d1, out, tk, files);
    CopyEntriesFrame(d, src, d1, newDir, srcDir, files);
    NewDirKept(d1, out, tk, Copied(files));
    FreshBelow(dst, d1, out, tk, files);
    MirrorsFromEntries(src, sk, out, tk, files);
  }

  /** With the source readable and the target free, getdir / putdir lists
      the source, makes the new directory, and goes on to the entries. */
  lemma CopyTreeOpens(d: Direction, src: Store, dst: Store, dstDir: string, srcDir: string)
    requires srcDir != [] && WF(src) && WF(dst) && Rooted(dstDir)
    requires KeyOf(srcDir) in src.nodes && src.nodes[KeyOf(srcDir)] == Dir
    requires Clear(src, KeyOf(srcDir), dst, KeyOf(Target(dstDir, srcDir)))
    ensures Rooted(Target(dstDir, srcDir))
    ensures WF(dst.(nodes := dst.nodes[KeyOf(Target(dstDir, srcDir)) := Dir]))
    ensures ChildNames(Listing(src.nodes, KeyOf(srcDir)))
    ensures CopyTree(d, src, dst, dstDir, srcDir).err.None?
    ensures var r := CopyEntries(d, src, dst.(nodes := dst.nodes[KeyOf(Target(dstDir, srcDir)) := Dir]),
                                 Target(dstDir, srcDir), srcDir, Listing(src.nodes, KeyOf(srcDir)));
            && CopyTree(d, src, dst, dstDir, srcDir).store == r.store
            && CopyTree(d, src, dst, dstDir, srcDir).log == r.log + [Done(d, srcDir)]
  {
    ClearOpens(src, srcDir, dst, Target(dstDir, srcDir));
    JoinRooted(dstDir, Base(srcDir));
    MkdirWF(dst, Target(dstDir, srcDir));
    ListingChildNames(src, KeyOf(srcDir));
  }

  /** A clear copy can list its source and make its new directory. */
  lemma ClearOpens(src: Store, srcDir: string, dst: Store, newDir: string)
    requires KeyOf(srcDir) in src.nodes && src.nodes[KeyOf(srcDir)] == Dir
    requires Clear(src, KeyOf(srcDir), dst, KeyOf(newDir))
    ensures ReadDir(src, srcDir) == Ok(Listing(src.nodes, KeyOf(srcDir)))
    ensures Mkdir(dst, newDir) == Ok(dst.(nodes := dst.nodes[KeyOf(newDir) := Dir]))
  {
    SelfPrefix(KeyOf(srcDir));
    SelfPrefix(KeyOf(newDir));
  }

  /** Every entry is clear, so every entry is mirrored. */
  lemma AllMirrored(src: Store, sk: Key, dst: Store, out: Store, tk: Key, es: seq<Entry>)
    requires forall i :: 0 <= i < |es| ==> Clear(src, sk + [es[i].name], dst, tk + [es[i].name])
    requires MirrorsEntries(src, sk, dst, out, tk, es)
    ensures forall i :: 0 <= i < |es| ==> Mirrors(src, sk + [es[i].name], out, tk + [es[i].name])
  {
  }

  /** Copies below the entries leave the new directory itself alone. */
  lemma NewDirKept(a: Store, b: Store, tk: Key, es: seq<Entry>)
    requires tk in a.nodes && a.nodes[tk] == Dir && ChangedOnlyEntries(a, b, tk, es)
    ensures tk in b.nodes && b.nodes[tk] == Dir
  {
    assert !BelowEntry(tk, es, tk);
    assert SameAt(a, b, tk);
  }

  /** One entry whose copy is clear is mirrored. */
  lemma {:induction false} CopyEntryMirror(d: Direction, src: Store, dst: Store, newDir: string, fname: string, node: Node)
    requires fname != [] && WF(src) && WF(dst) && Rooted(newDir)
    requires KeyOf(fname) in src.nodes && src.nodes[KeyOf(fname)] == node
    requires Clear(src, KeyOf(fname), dst, KeyOf(Target(newDir, fname)))
    ensures Mirrors(src, KeyOf(fname), CopyEntry(d, src, dst, newDir, fname, node).store, KeyOf(Target(newDir, fname)))
    decreases |Under(src, KeyOf(fname))|, 2, 0
  {
    if node == Dir {
      CopyTreeMirror(d, src, dst, newDir, fname);
    } else {
      LeafMirror(d, src, dst, newDir, fname);
    }
  }

  /** A regular file is copied as it is, and nothing else is needed for a
      node that is not a directory. */
  lemma LeafMirror(d: Direction, src: Store, dst: Store, newDir: string, fname: string)
    requires fname != [] && WF(src) && AllSimple(src)
    requires KeyOf(fname) in src.nodes && src.nodes[KeyOf(fname)] != Dir
    requires Clear(src, KeyOf(fname), dst, KeyOf(Target(newDir, fname)))
    ensures Mirrors(src, KeyOf(fname), CopyEntry(d, src, dst, newDir, fname, src.nodes[KeyOf(fname)]).store, KeyOf(Target(newDir, fname)))
    ensures NoErrors(CopyEntry(d, src, dst, newDir, fname, src.nodes[KeyOf(fname)]).log)
  {
    var fk := KeyOf(fname);
    var tk := KeyOf(Target(newDir, fname));
    var node := src.nodes[fk];
    var out := CopyEntry(d, src, dst, newDir, fname, node).store;
    SelfPrefix(fk);
    SelfPrefix(tk);
    if node.File? {
      CopyFileOk(d, src, dst, newDir, fname);
      CopyFileResult(d, src, dst, newDir, fname);
      assert out == dst.(nodes := dst.nodes[tk := node]);
    }
    forall rel | fk + rel in src.nodes && Copyable(src.nodes[fk + rel])
      ensures tk + rel in out.nodes && out.nodes[tk + rel] == src.nodes[fk + rel]
    {
      if rel == [] {
        assert fk + rel == fk && tk + rel == tk;
      } else {
        ParentOfBelow(src, fk, rel);
      }
    }
    forall rel | tk + rel in out.nodes
      ensures fk + rel in src.nodes && Copyable(src.nodes[fk + rel]) && out.nodes[tk + rel] == src.nodes[fk + rel]
    {
      if rel == [] {
        assert fk + rel == fk && tk + rel == tk;
      } else {
        assert false;
      }
    }
  }

  /** The loop over the entries copies each entry whose own copy is clear,
      whatever happens to its siblings. */
  lemma {:induction false} CopyEntriesMirror(d: Direction, src: Store, dst: Store, newDir: string, srcDir: string, es: seq<Entry>)
    requires srcDir != [] && WF(src) && WF(dst) && Rooted(newDir)
    requires ChildNames(es) && DistinctNames(es)
    requires KeyOf(srcDir) in src.nodes && Listed(src, KeyOf(srcDir), es)
    ensures MirrorsEntries(src, KeyOf(srcDir), dst, CopyEntries(d, src, dst, newDir, srcDir, es).store, KeyOf(newDir), es)
    decreases |Under(src, KeyOf(srcDir))|, 0, |es|
  {
    if es != [] {
      var sk, nk := KeyOf(srcDir), KeyOf(newDir);
      var n := es[0].name;
      var fname := Join(srcDir, n);
      EntryKeys(srcDir, newDir, n);
      UnderChild(src, sk, n);
      var step := CopyEntry(d, src, dst, newDir, fname, es[0].node);
      var rest := CopyEntries(d, src, step.store, newDir, srcDir, es[1..]);
      CopyEntriesUnfold(d, src, dst, newDir, srcDir, es);
      CopyEntryFrame(d, src, dst, newDir, fname, es[0].node);
      CopyEntryWF(d, src, dst, newDir, fname, es[0].node);
      ListedSuffix(src, sk, es);
      DistinctTail(es);
      CopyEntriesMirror(d, src, step.store, newDir, srcDir, es[1..]);
      CopyEntriesFrame(d, src, step.store, newDir, srcDir, es[1..]);
      if Clear(src, sk + [n], dst, nk + [n]) {
        CopyEntryMirror(d, src, dst, newDir, fname, es[0].node);
      }
      EntriesCombine(src, sk, dst, step.store, rest.store, nk, es);
    }
  }

  /** Where the first entry of a listing comes from and goes to. */
  lemma EntryKeys(srcDir: string, newDir: string, n: string)
    requires srcDir != [] && Rooted(newDir) && Element(n) && n != ".."
    ensures Join(srcDir, n) != []
    ensures KeyOf(Join(srcDir, n)) == KeyOf(srcDir) + [n]
    ensures KeyOf(Target(newDir, Join(srcDir, n))) == KeyOf(newDir) + [n]
  {
    JoinChild(srcDir, n);
    BaseOfChild(srcDir, n);
    JoinChild(newDir, n);
  }

  /** The loop is the first entry's copy, then the loop over the rest. */
  lemma CopyEntriesUnfold(d: Direction, src: Store, dst: Store, newDir: string, srcDir: string, es: seq<Entry>)
    requires srcDir != [] && AllSimple(src) && ChildNames(es) && KeyOf(srcDir) in src.nodes && es != []
    requires Join(srcDir, es[0].name) != []
    ensures var step := CopyEntry(d, src, dst, newDir, Join(srcDir, es[0].name), es[0].node);
            var rest := CopyEntries(d, src, step.store, newDir, srcDir, es[1..]);
            && CopyEntries(d, src, dst, newDir, srcDir, es).store == rest.store
            && CopyEntries(d, src, dst, newDir, srcDir, es).log == step.log + rest.log
  {
  }

  /** The first entry's copy and the rest's copies together mirror every
      clear entry. */
  lemma EntriesCombine(src: Store, sk: Key, dst: Store, s1: Store, out: Store, nk: Key, es: seq<Entry>)
    requires es != [] && DistinctNames(es)
    requires Clear(src, sk + [es[0].name], dst, nk + [es[0].name]) ==> Mirrors(src, sk + [es[0].name], s1, nk + [es[0].name])
    requires ChangedOnlyUnder(dst, s1, nk + [es[0].name]) || s1 == dst
    requires MirrorsEntries(src, sk, s1, out, nk, es[1..])
    requires ChangedOnlyEntries(s1, out, nk, Copied(es[1..]))
    ensures MirrorsEntries(src, sk, dst, out, nk, es)
  {
    var n := es[0].name;
    NotInRest(es);
    if Clear(src, sk + [n], dst, nk + [n]) {
      MirrorsKept(src, sk + [n], s1, out, nk, n, Copied(es[1..]));
    }
    forall i | 1 <= i < |es| && Clear(src, sk + [es[i].name], dst, nk + [es[i].name])
      ensures Mirrors(src, sk + [es[i].name], out, nk + [es[i].name])
    {
      assert es[1..][i - 1] == es[i];
      ClearAfterSibling(src, sk + [es[i].name], dst, s1, nk, n, es[i].name);
    }
  }

  // ---------------------------------------------------------------------
  // A clear directory copy reports nothing
  // ---------------------------------------------------------------------

  /** No line of the log goes to the error sink. */
  predicate NoErrors(log: seq<LogEntry>)
  {
    forall i :: 0 <= i < |log| ==> !log[i].IsError()
  }

  lemma NoErrorsAppend(a: seq<LogEntry>, b: seq<LogEntry>)
    requires NoErrors(a) && NoErrors(b)
    ensures NoErrors(a + b)
  {
    forall i | 0 <= i < |a + b|
      ensures !(a + b)[i].IsError()
    {
      if i < |a| {
        assert (a + b)[i] == a[i];
      } else {
        assert (a + b)[i] == b[i - |a|];
      }
    }
  }

  /** getdir / putdir with nothing in the way logs only "downloaded" /
      "uploaded" lines: not one failure. */
  lemma {:induction false} CopyTreeClean(d: Direction, src: Store, dst: Store, dstDir: string, srcDir: string)
    requires srcDir != [] && WF(src) && WF(dst) && Rooted(dstDir)
    requires KeyOf(srcDir) in src.nodes && src.nodes[KeyOf(srcDir)] == Dir
    requires Clear(src, KeyOf(srcDir), dst, KeyOf(Target(dstDir, srcDir)))
    ensures CopyTree(d, src, dst, dstDir, srcDir).err.None?
    ensures NoErrors(CopyTree(d, src, dst, dstDir, srcDir).log)
    decreases |Under(src, KeyOf(srcDir))|, 1, 0
  {
    var sk := KeyOf(srcDir);
    var newDir := Target(dstDir, srcDir);
    var tk := KeyOf(newDir);
    var files := Listing(src.nodes, sk);
    var d1 := dst.(nodes := dst.nodes[tk := Dir]);
    CopyTreeOpens(d, src, dst, dstDir, srcDir);
    ListingClean(d, src, dst, d1, newDir, srcDir);
    NoErrorsAppend(CopyEntries(d, src, d1, newDir, srcDir, files).log, [Done(d, srcDir)]);
  }

  /** The loop over the listing of a clear directory logs no failure. */
  lemma ListingClean(d: Direction, src: Store, dst: Store, d1: Store, newDir: string, srcDir: string)
    requires srcDir != [] && WF(src) && WF(d1) && Rooted(newDir)
    requires KeyOf(srcDir) in src.nodes
    requires Readable(src, KeyOf(srcDir)) && Writable(dst, KeyOf(newDir)) && Vacant(dst, KeyOf(newDir))
    requires d1 == dst.(nodes := dst.nodes[KeyOf(newDir) := Dir])
    requires ChildNames(Listing(src.nodes, KeyOf(srcDir)))
    ensures NoErrors(CopyEntries(d, src, d1, newDir, srcDir, Listing(src.nodes, KeyOf(srcDir))).log)
    decreases |Under(src, KeyOf(srcDir))|, 0, |Listing(src.nodes, KeyOf(srcDir))| + 1
  {
    var sk := KeyOf(srcDir);
    var files := Listing(src.nodes, sk);
    ListingListed(src, sk);
    EntriesClear(src, sk, dst, d1, KeyOf(newDir), files);
    CopyEntriesClean(d, src, d1, newDir, srcDir, files);
  }

  lemma {:induction false} CopyEntryClean(d: Direction, src: Store, dst: Store, newDir: string, fname: string, node: Node)
    requires fname != [] && WF(src) && WF(dst) && Rooted(newDir)
    requires KeyOf(fname) in src.nodes && src.nodes[KeyOf(fname)] == node
    requires Clear(src, KeyOf(fname), dst, KeyOf(Target(newDir, fname)))
    ensures NoErrors(CopyEntry(d, src, dst, newDir, fname, node).log)
    decreases |Under(src, KeyOf(fname))|, 2, 0
  {
    if node == Dir {
      CopyTreeClean(d, src, dst, newDir, fname);
    } else {
      LeafMirror(d, src, dst, newDir, fname);
    }
  }

  /** Every entry of the loop is clear, so the loop logs no failure. */
  lemma {:induction false} CopyEntriesClean(d: Direction, src: Store, dst: Store, newDir: string, srcDir: string, es: seq<Entry>)
    requires srcDir != [] && WF(src) && WF(dst) && Rooted(newDir)
    requires ChildNames(es) && DistinctNames(es)
    requires KeyOf(srcDir) in src.nodes && Listed(src, KeyOf(srcDir), es)
    requires forall i :: 0 <= i < |es| ==> Clear(src, KeyOf(srcDir) + [es[i].name], dst, KeyOf(newDir) + [es[i].name])
    ensures NoErrors(CopyEntries(d, src, dst, newDir, srcDir, es).log)
    decreases |Under(src, KeyOf(srcDir))|, 0, |es|
  {
    if es != [] {
      var sk, nk := KeyOf(srcDir), KeyOf(newDir);
      var n := es[0].name;
      var fname := Join(srcDir, n);
      EntryKeys(srcDir, newDir, n);
      UnderChild(src, sk, n);
      var step := CopyEntry(d, src, dst, newDir, fname, es[0].node);
      CopyEntriesUnfold(d, src, dst, newDir, srcDir, es);
      CopyEntryClean(d, src, dst, newDir, fname, es[0].node);
      CopyEntryFrame(d, src, dst, newDir, fname, es[0].node);
      CopyEntryWF(d, src, dst, newDir, fname, es[0].node);
      ListedSuffix(src, sk, es);
      DistinctTail(es);
      RestClear(src, sk, dst, step.store, nk, es);
      CopyEntriesClean(d, src, step.store, newDir, srcDir, es[1..]);
      NoErrorsAppend(step.log, CopyEntries(d, src, step.store, newDir, srcDir, es[1..]).log);
    }
  }

  /** The first entry's copy leaves the other entries clear. */
  lemma RestClear(src: Store, sk: Key, dst: Store, s1: Store, nk: Key, es: seq<Entry>)
    requires es != [] && DistinctNames(es)
    requires forall i :: 0 <= i < |es| ==> Clear(src, sk + [es[i].name], dst, nk + [es[i].name])
    requires ChangedOnlyUnder(dst, s1, nk + [es[0].name]) || s1 == dst
    ensures forall i :: 0 <= i < |es[1..]| ==> Clear(src, sk + [es[1..][i].name], s1, nk + [es[1..][i].name])
  {
    forall i | 0 <= i < |es[1..]|
      ensures Clear(src, sk + [es[1..][i].name], s1, nk + [es[1..][i].name])
    {
      assert es[1..][i] == es[i + 1];
      ClearAfterSibling(src, sk + [es[i + 1].name], dst, s1, nk, es[0].name, es[i + 1].name);
    }
  }

  // ---------------------------------------------------------------------
  // Helpers for the mirror proofs
  // ---------------------------------------------------------------------

  lemma SelfPrefix(k: Key)
    ensures IsPrefix(k, k)
  {
    assert k[..|k|] == k;
  }

  lemma ListedSuffix(s: Store, dk: Key, es: seq<Entry>)
    requires es != [] && Listed(s, dk, es)
    ensures Listed(s, dk, es[1..])
  {
    forall i | 0 <= i < |es| - 1
      ensures dk + [es[1..][i].name] in s.nodes && s.nodes[dk + [es[1..][i].name]] == es[1..][i].node
    {
      assert es[1..][i] == es[i + 1];
    }
  }


  /** A key strictly below k can only exist when k is a directory. */
  lemma ParentOfBelow(s: Store, k: Key, rel: Key)
    requires WF(s) && rel != []
    ensures k + rel in s.nodes ==> k in s.nodes && s.nodes[k] == Dir
  {
    if k + rel in s.nodes {
      assert (k + rel)[..|k|] == k;
      AncestorsAreDirs(s, k + rel, |k|);
    }
  }

  /** The first name is not among the names of the copied rest. */
  lemma NotInRest(es: seq<Entry>)
    requires es != [] && DistinctNames(es)
    ensures es[0].name !in Names(Copied(es[1..]))
  {
    var c := Copied(es[1..]);
    forall i | 0 <= i < |c|
      ensures Names(c)[i] != es[0].name
    {
      assert c[i] in es[1..];
      var j :| 0 <= j < |es[1..]| && es[1..][j] == c[i];
      assert es[j + 1] == c[i];
    }
  }

  /** Copies below the other entries leave a finished copy alone. */
  lemma MirrorsKept(src: Store, sk: Key, a: Store, b: Store, nk: Key, n: string, es: seq<Entry>)
    requires Mirrors(src, sk, a, nk + [n]) && ChangedOnlyEntries(a, b, nk, es) && n !in Names(es)
    ensures Mirrors(src, sk, b, nk + [n])
  {
    forall rel
      ensures SameAt(a, b, nk + [n] + rel)
    {
      var key := nk + [n] + rel;
      assert key[..|nk|] == nk && key[|nk|] == n;
      assert !BelowEntry(nk, es, key);
    }
  }

  /** A sibling's copy leaves another entry's copy as clear as it was. */
  lemma ClearAfterSibling(src: Store, sk: Key, dst: Store, s1: Store, nk: Key, n: string, m: string)
    requires Clear(src, sk, dst, nk + [m]) && n != m
    requires ChangedOnlyUnder(dst, s1, nk + [n]) || s1 == dst
    ensures Clear(src, sk, s1, nk + [m])
  {
    assert Parent(nk + [m]) == nk;
    assert !IsPrefix(nk + [n], nk);
    assert SameAt(dst, s1, nk);
    forall key | IsPrefix(nk + [m], key)
      ensures key !in s1.nodes
    {
      assert key[..|nk|] == nk && key[|nk|] == m;
      assert !IsPrefix(nk + [n], key);
      assert SameAt(dst, s1, key);
    }
  }

  /** Below a fresh directory every child's copy is clear. */
  lemma EntriesClear(src: Store, sk: Key, dst: Store, d1: Store, tk: Key, es: seq<Entry>)
    requires Readable(src, sk) && Writable(dst, tk) && Vacant(dst, tk)
    requires d1 == dst.(nodes := dst.nodes[tk := Dir])
    ensures forall i :: 0 <= i < |es| ==> Clear(src, sk + [es[i].name], d1, tk + [es[i].name])
  {
    forall i | 0 <= i < |es|
      ensures Clear(src, sk + [es[i].name], d1, tk + [es[i].name])
    {
      var n := es[i].name;
      assert Parent(tk + [n]) == tk;
      forall x | IsPrefix(sk + [n], x)
        ensures IsPrefix(sk, x)
      {
        PrefixTrans(sk, sk + [n], x);
      }
      forall x | IsPrefix(tk + [n], x)
        ensures IsPrefix(tk, x)
      {
        PrefixTrans(tk, tk + [n], x);
      }
    }
  }

  /** A directory whose children are all mirrored, and below whose copy
      nothing but the children's copies was made, is mirrored. */
  lemma MirrorsFromEntries(src: Store, sk: Key, out: Store, tk: Key, files: seq<Entry>)
    requires WF(src) && sk in src.nodes && src.nodes[sk] == Dir
    requires forall n :: n in Names(files) <==> sk + [n] in src.nodes
    requires forall i :: 0 <= i < |files| ==> Mirrors(src, sk + [files[i].name], out, tk + [files[i].name])
    requires tk in out.nodes && out.nodes[tk] == Dir
    requires forall rel :: tk + rel in out.nodes && rel != [] ==> rel[0] in Names(files)
    ensures Mirrors(src, sk, out, tk)
  {
    forall rel | sk + rel in src.nodes && Copyable(src.nodes[sk + rel])
      ensures tk + rel in out.nodes && out.nodes[tk + rel] == src.nodes[sk + rel]
    {
      MirroredBelow(src, sk, out, tk, files, rel);
    }
    forall rel | tk + rel in out.nodes
      ensures sk + rel in src.nodes && Copyable(src.nodes[sk + rel]) && out.nodes[tk + rel] == src.nodes[sk + rel]
    {
      CopiedFrom(src, sk, out, tk, files, rel);
    }
  }

  /** One key at or below the copy of a directory whose children are all
      mirrored comes from the source. */
  lemma CopiedFrom(src: Store, sk: Key, out: Store, tk: Key, files: seq<Entry>, rel: Key)
    requires sk in src.nodes && src.nodes[sk] == Dir
    requires forall i :: 0 <= i < |files| ==> Mirrors(src, sk + [files[i].name], out, tk + [files[i].name])
    requires tk in out.nodes && out.nodes[tk] == Dir
    requires forall rel :: tk + rel in out.nodes && rel != [] ==> rel[0] in Names(files)
    requires tk + rel in out.nodes
    ensures sk + rel in src.nodes && Copyable(src.nodes[sk + rel]) && out.nodes[tk + rel] == src.nodes[sk + rel]
  {
    if rel == [] {
      assert sk + rel == sk && tk + rel == tk;
    } else {
      var n := rel[0];
      var i :| 0 <= i < |files| && Names(files)[i] == n;
      ChildSplit(tk, rel);
      ChildSplit(sk, rel);
      OnlyCopiesAt(src, sk + [n], out, tk + [n], rel[1..]);
    }
  }

  /** Below a directory made fresh, a copy of the entries adds keys only
      below the entries' own copies. */
  lemma FreshBelow(dst: Store, d1: Store, out: Store, tk: Key, es: seq<Entry>)
    requires Vacant(dst, tk) && d1 == dst.(nodes := dst.nodes[tk := Dir])
    requires ChangedOnlyEntries(d1, out, tk, Copied(es))
    ensures forall rel :: tk + rel in out.nodes && rel != [] ==> rel[0] in Names(es)
  {
    forall rel | tk + rel in out.nodes && rel != []
      ensures rel[0] in Names(es)
    {
      var key := tk + rel;
      assert key[..|tk|] == tk && key[|tk|] == rel[0];
      if !BelowEntry(tk, Copied(es), key) {
        assert false;
      }
      var c := Copied(es);
      var j :| 0 <= j < |c| && Names(c)[j] == rel[0];
      assert c[j] in es;
      var i :| 0 <= i < |es| && es[i] == c[j];
      assert Names(es)[i] == rel[0];
    }
  }

  /** One key at or below a directory whose children are all mirrored. */
  lemma MirroredBelow(src: Store, sk: Key, out: Store, tk: Key, files: seq<Entry>, rel: Key)
    requires WF(src) && sk in src.nodes && src.nodes[sk] == Dir
    requires forall n :: n in Names(files) <==> sk + [n] in src.nodes
    requires forall i :: 0 <= i < |files| ==> Mirrors(src, sk + [files[i].name], out, tk + [files[i].name])
    requires tk in out.nodes && out.nodes[tk] == Dir
    requires sk + rel in src.nodes && Copyable(src.nodes[sk + rel])
    ensures tk + rel in out.nodes && out.nodes[tk + rel] == src.nodes[sk + rel]
  {
    if rel == [] {
      assert sk + rel == sk && tk + rel == tk;
    } else {
      ThroughChild(src, sk, rel);
      var n := rel[0];
      assert n in Names(files);
      var i :| 0 <= i < |files| && Names(files)[i] == n;
      ChildSplit(tk, rel);
      MirrorsAt(src, sk + [n], out, tk + [n], rel[1..]);
    }
  }

  /** Every key strictly below a directory passes through one of its
      children. */
  lemma ThroughChild(src: Store, sk: Key, rel: Key)
    requires WF(src) && rel != [] && sk + rel in src.nodes
    ensures sk + [rel[0]] in src.nodes
    ensures sk + rel == (sk + [rel[0]]) + rel[1..]
  {
    ChildSplit(sk, rel);
    if rel[1..] != [] {
      AncestorsAreDirs(src, sk + rel, |sk| + 1);
    }
  }

  /** A key below k splits at the child of k it passes through. */
  lemma ChildSplit(k: Key, rel: Key)
    requires rel != []
    ensures k + rel == (k + [rel[0]]) + rel[1..]
    ensures (k + rel)[..|k| + 1] == k + [rel[0]]
    ensures rel[1..] == [] ==> k + rel == k + [rel[0]]
  {
    assert rel == [rel[0]] + rel[1..];
  }

  /** One instance of Mirrors, from the source side. */
  lemma MirrorsAt(src: Store, sk: Key, out: Store, tk: Key, rel: Key)
    requires Mirrors(src, sk, out, tk)
    requires sk + rel in src.nodes && Copyable(src.nodes[sk + rel])
    ensures tk + rel in out.nodes && out.nodes[tk + rel] == src.nodes[sk + rel]
  {
  }

  /** One instance of Mirrors, from the copy's side. */
  lemma OnlyCopiesAt(src: Store, sk: Key, out: Store, tk: Key, rel: Key)
    requires Mirrors(src, sk, out, tk)
    requires tk + rel in out.nodes
    ensures sk + rel in src.nodes && Copyable(src.nodes[sk + rel]) && out.nodes[tk + rel] == src.nodes[sk + rel]
  {
  }

  /** Mirroring composes. */
  lemma MirrorsTrans(a: Store, ak: Key, b: Store, bk: Key, c: Store, ck: Key)
    requires Mirrors(a, ak, b, bk) && Mirrors(b, bk, c, ck)
    ensures Mirrors(a, ak, c, ck)
  {
    forall rel | ck + rel in c.nodes
      ensures ak + rel in a.nodes && Copyable(a.nodes[ak + rel]) && c.nodes[ck + rel] == a.nodes[ak + rel]
    {
      OnlyCopiesAt(b, bk, c, ck, rel);
      OnlyCopiesAt(a, ak, b, bk, rel);
    }
  }

  /** put of a directory followed by get of the copy brings back every
      directory and regular file of the original, with the same bytes, as
      long as neither copy meets an obstacle. */
  lemma UploadThenDownload(local: Store, remote: Store, ldir: string, rdir: string, back: string)
    requires ldir != [] && WF(local) && WF(remote) && Rooted(rdir) && Rooted(back)
    requires KeyOf(ldir) in local.nodes && local.nodes[KeyOf(ldir)] == Dir
    requires Clear(local, KeyOf(ldir), remote, KeyOf(Target(rdir, ldir)))
    requires Clear(remote, KeyOf(Target(rdir, ldir)), local, KeyOf(Target(back, Target(rdir, ldir))))
    ensures var up := Target(rdir, ldir);
            var u := CopyTree(Upload, local, remote, rdir, ldir);
            && up != [] && WF(u.store) && u.err.None?
            && CopyTree(Download, u.store, local, back, up).err.None?
            && Mirrors(local, KeyOf(ldir), CopyTree(Download, u.store, local, back, up).store, KeyOf(Target(back, up)))
  {
    var up := Target(rdir, ldir);
    CopyTreeLands(Upload, local, remote, rdir, ldir);
    var u := CopyTree(Upload, local, remote, rdir, ldir).store;
    CopyTreeMirror(Download, u, local, back, up);
    MirrorsTrans(local, KeyOf(ldir), u, KeyOf(up), CopyTree(Download, u, local, back, up).store, KeyOf(Target(back, up)));
  }

  /** A clear directory copy leaves a well-formed store holding the new
      directory, with the faults it had before. */
  lemma CopyTreeLands(d: Direction, src: Store, dst: Store, dstDir: string, srcDir: string)
    requires srcDir != [] && WF(src) && WF(dst) && Rooted(dstDir)
    requires KeyOf(srcDir) in src.nodes && src.nodes[KeyOf(srcDir)] == Dir
    requires Clear(src, KeyOf(srcDir), dst, KeyOf(Target(dstDir, srcDir)))
    ensures Target(dstDir, srcDir) != [] && Rooted(Target(dstDir, srcDir))
    ensures var c := CopyTree(d, src, dst, dstDir, srcDir);
            && c.err.None? && WF(c.store) && c.store.faults == dst.faults
            && KeyOf(Target(dstDir, srcDir)) in c.store.nodes && c.store.nodes[KeyOf(Target(dstDir, srcDir))] == Dir
            && Mirrors(src, KeyOf(srcDir), c.store, KeyOf(Target(dstDir, srcDir)))
  {
    JoinRooted(dstDir, Base(srcDir));
    CopyTreeMirror(d, src, dst, dstDir, srcDir);
    CopyTreeWF(d, src, dst, dstDir, srcDir);
    CopyTreeFrame(d, src, dst, dstDir, srcDir);
    LandsAt(src, KeyOf(srcDir), dst, CopyTree(d, src, dst, dstDir, srcDir).store, KeyOf(Target(dstDir, srcDir)));
  }

  /** A mirror of a directory holds that directory at its top. */
  lemma LandsAt(src: Store, sk: Key, dst: Store, out: Store, tk: Key)
    requires sk in src.nodes && src.nodes[sk] == Dir
    requires Mirrors(src, sk, out, tk) && ChangedOnlyUnder(dst, out, tk)
    ensures out.faults == dst.faults && tk in out.nodes && out.nodes[tk] == Dir
  {
    assert sk + [] == sk && tk + [] == tk;
    MirrorsAt(src, sk, out, tk, []);
  }
}

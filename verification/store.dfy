/** A filesystem as either backend sees it: a finite map from element lists
    (absolute paths after cleaning) to nodes, together with a set of injected
    faults.  The same model serves the local disk (package os) and the remote
    SFTP server (package sftp); the shell uses only the operations below. */
module Store {
  import opened Outcomes
  import opened Paths
  import opened Order

  newtype byte = x: int | 0 <= x < 256

  type Key = seq<string>

  /** What a path can name.  `Other` is anything that is neither a directory
      nor a regular file (symbolic link, device, socket, pipe). */
  datatype Node = File(data: seq<byte>) | Dir | Other

  /** The backend operations, used to name the operation a fault hits. */
  datatype Op = StatOp | ReadDirOp | OpenOp | CreateOp | WriteOp | RemoveOp | MkdirOp | RenameOp

  /** Operation op on the path with key `key` fails with a permission error. */
  datatype Fault = Fault(op: Op, key: Key)

  datatype Store = Store(nodes: map<Key, Node>, faults: set<Fault>)

  /** One directory entry as ReadDir reports it. */
  datatype Entry = Entry(name: string, node: Node)

  /** The key a path string denotes.  Both working directories are absolute,
      so every path the shell hands to a backend is absolute. */
  function KeyOf(p: string): Key
  {
    Parse(p).comps
  }

  function Parent(k: Key): Key
    requires k != []
  {
    k[..|k| - 1]
  }

  predicate IsPrefix(a: Key, b: Key)
  {
    |a| <= |b| && b[..|a|] == a
  }

  /** A well-formed tree: the root is a directory, the parent of every other
      key is a directory, and every key is a list of plain elements. */
  predicate WF(s: Store)
  {
    && [] in s.nodes && s.nodes[[]] == Dir
    && (forall k :: k in s.nodes && k != [] ==> Parent(k) in s.nodes && s.nodes[Parent(k)] == Dir)
    && (forall k :: k in s.nodes ==> Simple(k))
  }

  /** Element lists a clean absolute path can have. */
  predicate Simple(k: Key)
  {
    forall i :: 0 <= i < |k| ==> Element(k[i]) && k[i] != ".."
  }

  // ---------------------------------------------------------------------
  // Directory contents
  // ---------------------------------------------------------------------

  /** The names of the entries of directory k. */
  function Children(nodes: map<Key, Node>, k: Key): set<string>
  {
    set key | key in nodes && |key| == |k| + 1 && key[..|k|] == k :: key[|k|]
  }

  lemma ChildrenSpec(nodes: map<Key, Node>, k: Key, n: string)
    ensures n in Children(nodes, k) <==> k + [n] in nodes
  {
    if k + [n] in nodes {
      assert (k + [n])[..|k|] == k;
      assert (k + [n])[|k|] == n;
    }
    if n in Children(nodes, k) {
      var key :| key in nodes && |key| == |k| + 1 && key[..|k|] == k && key[|k|] == n;
      assert key == k + [n];
    }
  }

  /** The entries named by names, each with the node it names. */
  function EntriesOf(nodes: map<Key, Node>, k: Key, names: seq<string>): (r: seq<Entry>)
    requires forall i :: 0 <= i < |names| ==> k + [names[i]] in nodes
    ensures |r| == |names|
    ensures forall i :: 0 <= i < |r| ==> r[i] == Entry(names[i], nodes[k + [names[i]]])
  {
    if names == [] then []
    else [Entry(names[0], nodes[k + [names[0]]])] + EntriesOf(nodes, k, names[1..])
  }

  /** The listing of directory k, in increasing order of name, as
      ioutil.ReadDir returns it. */
  function Listing(nodes: map<Key, Node>, k: Key): seq<Entry>
  {
    var names := SortedSet(Children(nodes, k));
    assert forall i :: 0 <= i < |names| ==> k + [names[i]] in nodes by {
      forall i | 0 <= i < |names|
        ensures k + [names[i]] in nodes
      {
        ChildrenSpec(nodes, k, names[i]);
      }
    }
    EntriesOf(nodes, k, names)
  }

  function Names(es: seq<Entry>): (r: seq<string>)
    ensures |r| == |es|
    ensures forall i :: 0 <= i < |es| ==> r[i] == es[i].name
  {
    if es == [] then [] else [es[0].name] + Names(es[1..])
  }

  /** A listing holds one entry per child, in increasing order of name, each
      paired with the node the child names. */
  lemma ListingSpec(nodes: map<Key, Node>, k: Key)
    ensures StrictlySorted(Names(Listing(nodes, k)))
    ensures forall n :: n in Names(Listing(nodes, k)) <==> k + [n] in nodes
    ensures forall e :: e in Listing(nodes, k) ==> k + [e.name] in nodes && nodes[k + [e.name]] == e.node
  {
    assert Names(Listing(nodes, k)) == SortedSet(Children(nodes, k));
    ListingHas(nodes, k);
  }

  /** The entries of a listing, without their order. */
  lemma ListingHas(nodes: map<Key, Node>, k: Key)
    ensures forall n :: n in Names(Listing(nodes, k)) <==> k + [n] in nodes
    ensures forall e :: e in Listing(nodes, k) ==> k + [e.name] in nodes && nodes[k + [e.name]] == e.node
  {
    var names := SortedSet(Children(nodes, k));
    assert Names(Listing(nodes, k)) == names;
    forall n
      ensures n in names <==> k + [n] in nodes
    {
      ChildrenSpec(nodes, k, n);
    }
  }

  /** A child named n is listed with the node it names. */
  lemma ListingEntry(nodes: map<Key, Node>, k: Key, n: string)
    requires k + [n] in nodes
    ensures Entry(n, nodes[k + [n]]) in Listing(nodes, k)
  {
    ListingHas(nodes, k);
    assert n in Names(Listing(nodes, k));
    var i :| 0 <= i < |Listing(nodes, k)| && Names(Listing(nodes, k))[i] == n;
    assert Listing(nodes, k)[i] in Listing(nodes, k);
  }

  // ---------------------------------------------------------------------
  // Operations
  // ---------------------------------------------------------------------

  function Check(s: Store, op: Op, p: string): Option<Error>
  {
    if Fault(op, KeyOf(p)) in s.faults then Some(Denied(p)) else None
  }

  /** A stat function handed around as a value, as the shell does with
      os.Stat and Client.Stat. */
  type StatFn = string -> Res<Node>

  function StatOf(s: Store): StatFn
  {
    p => Stat(s, p)
  }

  /** os.Stat / Client.Stat. */
  function Stat(s: Store, p: string): (r: Res<Node>)
    ensures r.Ok? <==> Fault(StatOp, KeyOf(p)) !in s.faults && KeyOf(p) in s.nodes
    ensures r.Ok? ==> r.value == s.nodes[KeyOf(p)]
  {
    if Check(s, StatOp, p).Some? then Fail(Check(s, StatOp, p).value)
    else if KeyOf(p) !in s.nodes then Fail(NotExist(p))
    else Ok(s.nodes[KeyOf(p)])
  }

  /** ioutil.ReadDir / Client.ReadDir: the sorted entries of a directory. */
  function ReadDir(s: Store, p: string): (r: Res<seq<Entry>>)
    ensures r.Ok? <==> Fault(ReadDirOp, KeyOf(p)) !in s.faults && KeyOf(p) in s.nodes && s.nodes[KeyOf(p)] == Dir
    ensures r.Ok? ==> r.value == Listing(s.nodes, KeyOf(p))
  {
    var k := KeyOf(p);
    if Check(s, ReadDirOp, p).Some? then Fail(Check(s, ReadDirOp, p).value)
    else if k !in s.nodes then Fail(NotExist(p))
    else if s.nodes[k] != Dir then Fail(NotADirectory(p))
    else Ok(Listing(s.nodes, k))
  }

  /** os.Open / Client.Open: directories open as well as files. */
  function Open(s: Store, p: string): (r: Res<Node>)
    ensures r.Ok? <==> Fault(OpenOp, KeyOf(p)) !in s.faults && KeyOf(p) in s.nodes
    ensures r.Ok? ==> r.value == s.nodes[KeyOf(p)]
  {
    if Check(s, OpenOp, p).Some? then Fail(Check(s, OpenOp, p).value)
    else if KeyOf(p) !in s.nodes then Fail(NotExist(p))
    else Ok(s.nodes[KeyOf(p)])
  }

  /** The bytes io.Copy reads from an opened node. */
  function Content(n: Node, p: string): (r: Res<seq<byte>>)
    ensures r.Ok? <==> n.File?
  {
    match n
    case File(d) => Ok(d)
    case Dir => Fail(IsADirectory(p))
    case Other => Fail(Message("not a regular file"))
  }

  /** The directory a new entry k would be created in exists. */
  function ParentCheck(s: Store, k: Key, p: string): Option<Error>
    requires k != []
  {
    if Parent(k) !in s.nodes then Some(NotExist(p))
    else if s.nodes[Parent(k)] != Dir then Some(NotADirectory(p))
    else None
  }

  /** os.Create / Client.Create: create an empty regular file, or truncate
      the one that is there. */
  function Create(s: Store, p: string): (r: Res<Store>)
    ensures r.Ok? <==> && Fault(CreateOp, KeyOf(p)) !in s.faults
                       && KeyOf(p) != [] && !(KeyOf(p) in s.nodes && s.nodes[KeyOf(p)] == Dir)
                       && Parent(KeyOf(p)) in s.nodes && s.nodes[Parent(KeyOf(p))] == Dir
    ensures r.Ok? ==> r.value == s.(nodes := s.nodes[KeyOf(p) := File([])])
  {
    var k := KeyOf(p);
    if Check(s, CreateOp, p).Some? then Fail(Check(s, CreateOp, p).value)
    else if k == [] || (k in s.nodes && s.nodes[k] == Dir) then Fail(IsADirectory(p))
    else if ParentCheck(s, k, p).Some? then Fail(ParentCheck(s, k, p).value)
    else Ok(s.(nodes := s.nodes[k := File([])]))
  }

  /** Writing the copied bytes into a created file (the io.Copy half). */
  function Write(s: Store, p: string, data: seq<byte>): (r: Res<Store>)
    ensures r.Ok? <==> Fault(WriteOp, KeyOf(p)) !in s.faults && KeyOf(p) in s.nodes && s.nodes[KeyOf(p)].File?
    ensures r.Ok? ==> r.value == s.(nodes := s.nodes[KeyOf(p) := File(data)])
  {
    var k := KeyOf(p);
    if Check(s, WriteOp, p).Some? then Fail(Check(s, WriteOp, p).value)
    else if k !in s.nodes || !s.nodes[k].File? then Fail(NotExist(p))
    else Ok(s.(nodes := s.nodes[k := File(data)]))
  }

  /** os.Remove / Client.Remove: a file, or an empty directory. */
  function Remove(s: Store, p: string): (r: Res<Store>)
    ensures r.Ok? <==> && Fault(RemoveOp, KeyOf(p)) !in s.faults
                       && KeyOf(p) in s.nodes && KeyOf(p) != []
                       && (s.nodes[KeyOf(p)] == Dir ==> Children(s.nodes, KeyOf(p)) == {})
    ensures r.Ok? ==> r.value == s.(nodes := s.nodes - {KeyOf(p)})
  {
    var k := KeyOf(p);
    if Check(s, RemoveOp, p).Some? then Fail(Check(s, RemoveOp, p).value)
    else if k !in s.nodes then Fail(NotExist(p))
    else if k == [] then Fail(Busy(p))
    else if s.nodes[k] == Dir && Children(s.nodes, k) != {} then Fail(NotEmpty(p))
    else Ok(s.(nodes := s.nodes - {k}))
  }

  /** os.Mkdir / Client.Mkdir. */
  function Mkdir(s: Store, p: string): (r: Res<Store>)
    ensures r.Ok? <==> && Fault(MkdirOp, KeyOf(p)) !in s.faults
                       && KeyOf(p) !in s.nodes && KeyOf(p) != []
                       && Parent(KeyOf(p)) in s.nodes && s.nodes[Parent(KeyOf(p))] == Dir
    ensures r.Ok? ==> r.value == s.(nodes := s.nodes[KeyOf(p) := Dir])
  {
    var k := KeyOf(p);
    if Check(s, MkdirOp, p).Some? then Fail(Check(s, MkdirOp, p).value)
    else if k in s.nodes || k == [] then Fail(Exist(p))
    else if ParentCheck(s, k, p).Some? then Fail(ParentCheck(s, k, p).value)
    else Ok(s.(nodes := s.nodes[k := Dir]))
  }

  /** os.MkdirAll / Client.MkdirAll: nothing to do for an existing
      directory; otherwise make the parent first, then the directory. */
  function MkdirAll(s: Store, p: string): Res<Store>
  {
    MkdirAllKey(s, KeyOf(p))
  }

  function MkdirAllKey(s: Store, k: Key): (r: Res<Store>)
    ensures r.Ok? ==> k in r.value.nodes && r.value.nodes[k] == Dir
    ensures r.Ok? ==> r.value.faults == s.faults
    decreases |k|
  {
    var p := Render(Path(true, k));
    if k in s.nodes then
      if s.nodes[k] == Dir then Ok(s) else Fail(NotADirectory(p))
    else if k == [] then Fail(NotExist(p))
    else
      match MkdirAllKey(s, Parent(k))
      case Fail(e) => Fail(e)
      case Ok(s') =>
        if Fault(MkdirOp, k) in s'.faults then Fail(Denied(p))
        else Ok(s'.(nodes := s'.nodes[k := Dir]))
  }

  /** Client.Rename: the subtree at `from` moves to `to`, which must not
      exist yet and whose parent must be a directory. */
  function Rename(s: Store, from: string, to: string): (r: Res<Store>)
    ensures r.Ok? <==>
              && Fault(RenameOp, KeyOf(from)) !in s.faults
              && KeyOf(from) in s.nodes && KeyOf(from) != []
              && KeyOf(to) !in s.nodes && KeyOf(to) != []
              && Parent(KeyOf(to)) in s.nodes && s.nodes[Parent(KeyOf(to))] == Dir
              && !IsPrefix(KeyOf(from), KeyOf(to))
  {
    var fk := KeyOf(from);
    var tk := KeyOf(to);
    if Check(s, RenameOp, from).Some? then Fail(Check(s, RenameOp, from).value)
    else if fk !in s.nodes then Fail(NotExist(from))
    else if fk == [] then Fail(Busy(from))
    else if tk in s.nodes || tk == [] then Fail(Exist(to))
    else if ParentCheck(s, tk, to).Some? then Fail(ParentCheck(s, tk, to).value)
    else if IsPrefix(fk, tk) then Fail(InvalidArgument(to))
    else Ok(s.(nodes := Moved(s.nodes, fk, tk)))
  }

  /** The keys under `from`, carried over to `to`. */
  function Moved(nodes: map<Key, Node>, fk: Key, tk: Key): map<Key, Node>
  {
    var stay := map k | k in nodes && !IsPrefix(fk, k) :: nodes[k];
    var targets := set k | k in nodes && IsPrefix(fk, k) :: tk + k[|fk|..];
    assert forall k :: k in targets ==> IsPrefix(tk, k) && fk + k[|tk|..] in nodes by {
      forall k | k in targets
        ensures IsPrefix(tk, k) && fk + k[|tk|..] in nodes
      {
        var k0 :| k0 in nodes && IsPrefix(fk, k0) && k == tk + k0[|fk|..];
        assert k[..|tk|] == tk;
        assert k[|tk|..] == k0[|fk|..];
        assert fk + k0[|fk|..] == k0;
      }
    }
    stay + map k | k in targets :: nodes[fk + k[|tk|..]]
  }

  // ---------------------------------------------------------------------
  // The tree invariant is preserved
  // ---------------------------------------------------------------------

  /** A clean absolute path has a key of plain elements. */
  lemma KeySimple(p: string)
    requires Rooted(p)
    ensures Simple(KeyOf(p))
  {
    ParseNormal(p);
  }

  /** Nothing lies under a key that is absent from a well-formed tree. */
  lemma {:induction false} AbsentHasNoDescendant(s: Store, k: Key, d: Key)
    requires WF(s) && k !in s.nodes && IsPrefix(k, d)
    ensures d !in s.nodes
    decreases |d|
  {
    if |d| > |k| {
      assert Parent(d)[..|k|] == k;
      AbsentHasNoDescendant(s, k, Parent(d));
    } else {
      assert d == d[..|k|];
    }
  }

  lemma MkdirWF(s: Store, p: string)
    requires WF(s) && Rooted(p) && Mkdir(s, p).Ok?
    ensures WF(Mkdir(s, p).value)
  {
    KeySimple(p);
  }

  lemma CreateWF(s: Store, p: string)
    requires WF(s) && Rooted(p) && Create(s, p).Ok?
    ensures WF(Create(s, p).value)
  {
    var k := KeyOf(p);
    KeySimple(p);
    var n := Create(s, p).value.nodes;
    forall c | c in n && c != []
      ensures Parent(c) in n && n[Parent(c)] == Dir
    {
      assert c in s.nodes || c == k;
    }
  }

  lemma WriteWF(s: Store, p: string, data: seq<byte>)
    requires WF(s) && Write(s, p, data).Ok?
    ensures WF(Write(s, p, data).value)
  {
    var k := KeyOf(p);
    var n := Write(s, p, data).value.nodes;
    forall c | c in n && c != []
      ensures Parent(c) in n && n[Parent(c)] == Dir
    {
      assert c in s.nodes || c == k;
    }
  }

  lemma RemoveWF(s: Store, p: string)
    requires WF(s) && Remove(s, p).Ok?
    ensures WF(Remove(s, p).value)
  {
    var k := KeyOf(p);
    var n := Remove(s, p).value.nodes;
    forall c | c in n && c != []
      ensures Parent(c) in n && n[Parent(c)] == Dir
    {
      assert c == Parent(c) + [c[|c| - 1]];
      ChildrenSpec(s.nodes, Parent(c), c[|c| - 1]);
    }
  }

  /** Making a directory and removing it again restores the tree. */
  lemma MkdirRemove(s: Store, p: string)
    requires WF(s) && Mkdir(s, p).Ok? && Fault(RemoveOp, KeyOf(p)) !in s.faults
    ensures Remove(Mkdir(s, p).value, p) == Ok(s)
  {
    var k := KeyOf(p);
    var s' := Mkdir(s, p).value;
    forall n
      ensures n !in Children(s'.nodes, k)
    {
      ChildrenSpec(s'.nodes, k, n);
      assert (k + [n])[..|k|] == k;
      AbsentHasNoDescendant(s, k, k + [n]);
    }
    assert s'.nodes - {k} == s.nodes;
  }

  /** Every proper ancestor of a key in a well-formed tree is a directory. */
  lemma {:induction false} AncestorsAreDirs(s: Store, k: Key, j: nat)
    requires WF(s) && k in s.nodes && j < |k|
    ensures k[..j] in s.nodes && s.nodes[k[..j]] == Dir
    decreases |k|
  {
    if j < |k| - 1 {
      AncestorsAreDirs(s, Parent(k), j);
      assert Parent(k)[..j] == k[..j];
    }
  }

  /** When MkdirAll can succeed: every prefix of the path that exists is a
      directory, and making any missing one is not refused. */
  predicate AllowsMkdirAll(s: Store, k: Key)
  {
    && (forall j :: 0 <= j <= |k| && k[..j] in s.nodes ==> s.nodes[k[..j]] == Dir)
    && (forall j :: 0 <= j <= |k| && k[..j] !in s.nodes ==> Fault(MkdirOp, k[..j]) !in s.faults)
  }

  /** MkdirAll succeeds exactly when it is allowed to, and then it adds the
      missing prefixes of the path as directories and changes nothing else. */
  lemma {:induction false} MkdirAllSpec(s: Store, k: Key)
    requires WF(s) && Simple(k)
    ensures MkdirAllKey(s, k).Ok? <==> AllowsMkdirAll(s, k)
    ensures MkdirAllKey(s, k).Ok? ==> WF(MkdirAllKey(s, k).value)
    ensures MkdirAllKey(s, k).Ok? ==>
              forall key :: key in MkdirAllKey(s, k).value.nodes <==> key in s.nodes || IsPrefix(key, k)
    ensures MkdirAllKey(s, k).Ok? ==>
              forall key :: key in s.nodes ==> MkdirAllKey(s, k).value.nodes[key] == s.nodes[key]
    decreases |k|
  {
    if k in s.nodes {
      MkdirAllExisting(s, k);
    } else {
      MkdirAllMissing(s, k);
    }
  }

  lemma MkdirAllExisting(s: Store, k: Key)
    requires WF(s) && k in s.nodes
    ensures MkdirAllKey(s, k).Ok? <==> AllowsMkdirAll(s, k)
    ensures MkdirAllKey(s, k).Ok? ==> MkdirAllKey(s, k).value == s
    ensures forall key :: IsPrefix(key, k) ==> key in s.nodes
  {
    assert k[..|k|] == k;
    forall j | 0 <= j < |k|
      ensures k[..j] in s.nodes && s.nodes[k[..j]] == Dir
    {
      AncestorsAreDirs(s, k, j);
    }
    forall key | IsPrefix(key, k)
      ensures key in s.nodes
    {
      assert key == k[..|key|];
    }
  }

  lemma {:induction false} MkdirAllMissing(s: Store, k: Key)
    requires WF(s) && Simple(k) && k !in s.nodes
    ensures MkdirAllKey(s, k).Ok? <==> AllowsMkdirAll(s, k)
    ensures MkdirAllKey(s, k).Ok? ==> WF(MkdirAllKey(s, k).value)
    ensures MkdirAllKey(s, k).Ok? ==>
              forall key :: key in MkdirAllKey(s, k).value.nodes <==> key in s.nodes || IsPrefix(key, k)
    ensures MkdirAllKey(s, k).Ok? ==>
              forall key :: key in s.nodes ==> MkdirAllKey(s, k).value.nodes[key] == s.nodes[key]
    decreases |k|, 0
  {
    var pk := Parent(k);
    assert Simple(pk);
    MkdirAllSpec(s, pk);
    AllowsStep(s, k);
    if MkdirAllKey(s, pk).Ok? {
      MkdirAllStep(s, MkdirAllKey(s, pk).value, k);
    }
  }

  lemma AllowsStep(s: Store, k: Key)
    requires k != [] && k !in s.nodes
    ensures AllowsMkdirAll(s, k) <==> AllowsMkdirAll(s, Parent(k)) && Fault(MkdirOp, k) !in s.faults
  {
    var pk := Parent(k);
    forall j | 0 <= j <= |pk|
      ensures k[..j] == pk[..j]
    {
    }
    assert k[..|k|] == k;
  }

  /** The last step of MkdirAll: the parent chain s' is in place and k is added. */
  lemma MkdirAllStep(s: Store, s': Store, k: Key)
    requires WF(s) && Simple(k) && k != [] && k !in s.nodes
    requires MkdirAllKey(s, Parent(k)) == Ok(s') && WF(s')
    requires forall key :: key in s'.nodes <==> key in s.nodes || IsPrefix(key, Parent(k))
    requires forall key :: key in s.nodes ==> s'.nodes[key] == s.nodes[key]
    ensures MkdirAllKey(s, k) == (if Fault(MkdirOp, k) in s.faults then Fail(Denied(Render(Path(true, k))))
                                  else Ok(s'.(nodes := s'.nodes[k := Dir])))
    ensures WF(s'.(nodes := s'.nodes[k := Dir]))
    ensures forall key :: key in s'.nodes[k := Dir] <==> key in s.nodes || IsPrefix(key, k)
    ensures forall key :: key in s.nodes ==> s'.nodes[k := Dir][key] == s.nodes[key]
  {
    assert !IsPrefix(k, Parent(k));
    forall key
      ensures IsPrefix(key, k) <==> IsPrefix(key, Parent(k)) || key == k
    {
      if IsPrefix(key, k) && key != k {
        assert key == k[..|key|];
      }
    }
  }

  // ---------------------------------------------------------------------
  // Rename moves a subtree
  // ---------------------------------------------------------------------

  /** Which keys the moved map holds, and what they name. */
  lemma MovedAt(nodes: map<Key, Node>, fk: Key, tk: Key, k: Key)
    ensures k in Moved(nodes, fk, tk) <==>
              (k in nodes && !IsPrefix(fk, k)) || (IsPrefix(tk, k) && fk + k[|tk|..] in nodes)
    ensures IsPrefix(tk, k) && fk + k[|tk|..] in nodes ==>
              Moved(nodes, fk, tk)[k] == nodes[fk + k[|tk|..]]
    ensures k in nodes && !IsPrefix(fk, k) && !IsPrefix(tk, k) ==> Moved(nodes, fk, tk)[k] == nodes[k]
  {
    if IsPrefix(tk, k) && fk + k[|tk|..] in nodes {
      var k0 := fk + k[|tk|..];
      assert IsPrefix(fk, k0) && k0[|fk|..] == k[|tk|..];
      assert k == tk + k0[|fk|..];
    }
    if k in Moved(nodes, fk, tk) && !(k in nodes && !IsPrefix(fk, k)) {
      var k0 :| k0 in nodes && IsPrefix(fk, k0) && k == tk + k0[|fk|..];
      assert k[..|tk|] == tk;
      assert k[|tk|..] == k0[|fk|..];
      assert fk + k0[|fk|..] == k0;
    }
  }

  /** Moving a subtree to a place with nothing under it. */
  lemma MovedSubtree(nodes: map<Key, Node>, fk: Key, tk: Key)
    requires forall k :: k in nodes ==> !IsPrefix(tk, k)
    ensures forall d :: tk + d in Moved(nodes, fk, tk) <==> fk + d in nodes
    ensures forall d :: fk + d in nodes ==> Moved(nodes, fk, tk)[tk + d] == nodes[fk + d]
    ensures forall k :: !IsPrefix(fk, k) && !IsPrefix(tk, k) ==> (k in Moved(nodes, fk, tk) <==> k in nodes)
    ensures forall k :: !IsPrefix(fk, k) && !IsPrefix(tk, k) && k in nodes ==> Moved(nodes, fk, tk)[k] == nodes[k]
  {
    forall d
      ensures tk + d in Moved(nodes, fk, tk) <==> fk + d in nodes
      ensures fk + d in nodes ==> Moved(nodes, fk, tk)[tk + d] == nodes[fk + d]
    {
      MovedAt(nodes, fk, tk, tk + d);
      assert (tk + d)[..|tk|] == tk && (tk + d)[|tk|..] == d;
    }
    forall k | !IsPrefix(fk, k) && !IsPrefix(tk, k)
      ensures k in Moved(nodes, fk, tk) <==> k in nodes
    {
      MovedAt(nodes, fk, tk, k);
    }
  }

  /** After a rename the subtree that was at `from` is at `to`, entry for
      entry, `from` is gone, and every key outside both subtrees is as it
      was. */
  lemma RenameMoves(s: Store, from: string, to: string)
    requires WF(s) && Rename(s, from, to).Ok?
    ensures KeyOf(from) !in Rename(s, from, to).value.nodes
    ensures forall d :: KeyOf(to) + d in Rename(s, from, to).value.nodes <==> KeyOf(from) + d in s.nodes
    ensures forall d :: KeyOf(from) + d in s.nodes ==>
              Rename(s, from, to).value.nodes[KeyOf(to) + d] == s.nodes[KeyOf(from) + d]
    ensures forall k :: !IsPrefix(KeyOf(from), k) && !IsPrefix(KeyOf(to), k) ==>
              (k in Rename(s, from, to).value.nodes <==> k in s.nodes)
    ensures forall k :: !IsPrefix(KeyOf(from), k) && !IsPrefix(KeyOf(to), k) && k in s.nodes ==>
              Rename(s, from, to).value.nodes[k] == s.nodes[k]
    ensures Rename(s, from, to).value.faults == s.faults
  {
    var fk, tk := KeyOf(from), KeyOf(to);
    forall k | k in s.nodes
      ensures !IsPrefix(tk, k)
    {
      if IsPrefix(tk, k) {
        AbsentHasNoDescendant(s, tk, k);
      }
    }
    MovedSubtree(s.nodes, fk, tk);
    MovedAt(s.nodes, fk, tk, fk);
    assert fk[..|fk|] == fk;
  }

  /** What Rename checks before it moves anything, together with the tree
      invariant and a clean target. */
  predicate MoveAllowed(s: Store, fk: Key, tk: Key)
  {
    && WF(s) && Simple(tk)
    && fk in s.nodes && fk != []
    && tk !in s.nodes && tk != []
    && Parent(tk) in s.nodes && s.nodes[Parent(tk)] == Dir
    && !IsPrefix(fk, tk)
  }

  /** Rename keeps the tree well formed. */
  lemma RenameWF(s: Store, from: string, to: string)
    requires WF(s) && Rooted(to) && Rename(s, from, to).Ok?
    ensures WF(Rename(s, from, to).value)
  {
    var fk, tk := KeyOf(from), KeyOf(to);
    KeySimple(to);
    MovedWF(s, fk, tk);
  }

  lemma MovedWF(s: Store, fk: Key, tk: Key)
    requires MoveAllowed(s, fk, tk)
    ensures WF(s.(nodes := Moved(s.nodes, fk, tk)))
  {
    var m := Moved(s.nodes, fk, tk);
    MovedAt(s.nodes, fk, tk, []);
    forall c | c in m
      ensures c != [] ==> Parent(c) in m && m[Parent(c)] == Dir
      ensures Simple(c)
    {
      if IsPrefix(tk, c) {
        MovedAt(s.nodes, fk, tk, c);
        if c in s.nodes {
          AbsentHasNoDescendant(s, tk, c);
        }
        assert c == tk + c[|tk|..];
        MovedTarget(s, fk, tk, c[|tk|..]);
      } else {
        MovedStay(s, fk, tk, c);
      }
    }
  }

  lemma MovedTarget(s: Store, fk: Key, tk: Key, d: Key)
    requires MoveAllowed(s, fk, tk) && fk + d in s.nodes
    ensures Parent(tk + d) in Moved(s.nodes, fk, tk) && Moved(s.nodes, fk, tk)[Parent(tk + d)] == Dir
    ensures Simple(tk + d)
  {
    if d == [] {
      assert tk + d == tk;
      MovedTargetTop(s, fk, tk);
    } else {
      MovedTargetInner(s, fk, tk, d);
    }
    MovedTargetSimple(s, fk, tk, d);
  }

  /** The parent of the moved directory is the directory it was moved into. */
  lemma MovedTargetTop(s: Store, fk: Key, tk: Key)
    requires MoveAllowed(s, fk, tk)
    ensures Parent(tk) in Moved(s.nodes, fk, tk) && Moved(s.nodes, fk, tk)[Parent(tk)] == Dir
  {
    assert !IsPrefix(fk, Parent(tk));
    assert !IsPrefix(tk, Parent(tk));
    MovedAt(s.nodes, fk, tk, Parent(tk));
  }

  /** Inside the moved subtree, parents moved along with their children. */
  lemma MovedTargetInner(s: Store, fk: Key, tk: Key, d: Key)
    requires MoveAllowed(s, fk, tk) && d != [] && fk + d in s.nodes
    ensures Parent(tk + d) in Moved(s.nodes, fk, tk) && Moved(s.nodes, fk, tk)[Parent(tk + d)] == Dir
  {
    var pd := d[..|d| - 1];
    assert Parent(tk + d) == tk + pd;
    assert Parent(fk + d) == fk + pd;
    assert (tk + pd)[..|tk|] == tk && (tk + pd)[|tk|..] == pd;
    MovedAt(s.nodes, fk, tk, tk + pd);
  }

  lemma MovedTargetSimple(s: Store, fk: Key, tk: Key, d: Key)
    requires MoveAllowed(s, fk, tk) && fk + d in s.nodes
    ensures Simple(tk + d)
  {
    assert Simple(fk + d);
    forall i | 0 <= i < |tk + d|
      ensures Element((tk + d)[i]) && (tk + d)[i] != ".."
    {
      if i >= |tk| {
        assert (tk + d)[i] == (fk + d)[|fk| + i - |tk|];
      }
    }
  }

  lemma MovedStay(s: Store, fk: Key, tk: Key, c: Key)
    requires MoveAllowed(s, fk, tk) && c in Moved(s.nodes, fk, tk) && !IsPrefix(tk, c)
    ensures c != [] ==> Parent(c) in Moved(s.nodes, fk, tk) && Moved(s.nodes, fk, tk)[Parent(c)] == Dir
    ensures Simple(c)
  {
    MovedAt(s.nodes, fk, tk, c);
    if c != [] {
      var pc := Parent(c);
      assert !IsPrefix(fk, pc);
      if IsPrefix(tk, pc) {
        AbsentHasNoDescendant(s, tk, pc);
      }
      MovedAt(s.nodes, fk, tk, pc);
    }
  }
}

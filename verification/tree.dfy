/** The remote `rmdir` on a whole directory tree: remove the children
    first, going on past failures, then the directory itself. */
module Tree {
  import opened Outcomes
  import opened Paths
  import opened Store
  import opened Order

  /** What a recursive operation leaves behind: the changed store, the
      lines it wrote to the error and info sinks, and the error it returns. */
  datatype Outcome = Outcome(store: Store, log: seq<LogEntry>, err: Option<Error>)

  // ---------------------------------------------------------------------
  // Measures
  // ---------------------------------------------------------------------

  /** The keys at or below k. */
  function Under(s: Store, k: Key): set<Key>
  {
    set key | key in s.nodes && IsPrefix(k, key)
  }

  /** A size that shrinks from a directory to any child, and never grows
      when keys are only removed. */
  function Weight(s: Store, k: Key): nat
  {
    |Under(s, k)| + (if k in s.nodes then 0 else 1)
  }

  predicate AllSimple(s: Store)
  {
    forall k :: k in s.nodes ==> Simple(k)
  }

  /** Entry names a listing can hold: plain elements other than "..". */
  predicate ChildNames(es: seq<Entry>)
  {
    forall i :: 0 <= i < |es| ==> Element(es[i].name) && es[i].name != ".."
  }

  lemma SubsetCard<T>(a: set<T>, b: set<T>)
    requires a <= b
    ensures |a| <= |b|
  {
    assert b == a + (b - a);
    assert a * (b - a) == {};
  }

  lemma UnderChild(s: Store, k: Key, n: string)
    ensures |Under(s, k + [n])| < Weight(s, k)
  {
    var c := Under(s, k + [n]);
    var u := Under(s, k) - {k};
    forall key | key in c
      ensures key in u
    {
      assert key[..|k|] == (k + [n])[..|k|];
    }
    SubsetCard(c, u);
  }

  lemma WeightShrinks(s: Store, s': Store, k: Key)
    requires s'.nodes.Keys <= s.nodes.Keys
    ensures Weight(s', k) <= Weight(s, k)
  {
    if k in s'.nodes {
      SubsetCard(Under(s', k), Under(s, k));
    } else if k in s.nodes {
      assert k[..|k|] == k;
      SubsetCard(Under(s', k), Under(s, k) - {k});
    } else {
      SubsetCard(Under(s', k), Under(s, k));
    }
  }

  lemma ListingChildNames(s: Store, k: Key)
    requires AllSimple(s)
    ensures ChildNames(Listing(s.nodes, k))
  {
    ListingSpec(s.nodes, k);
    var es := Listing(s.nodes, k);
    forall i | 0 <= i < |es|
      ensures Element(es[i].name) && es[i].name != ".."
    {
      assert es[i] in es;
      assert (k + [es[i].name])[|k|] == es[i].name;
    }
  }

  // ---------------------------------------------------------------------
  // rmdir
  // ---------------------------------------------------------------------

  /** The remote rmdir of one path: anything that is not a directory is
      removed directly; a directory has its entries removed first (each
      failure logged, the first one kept) and is removed itself only when
      all of them went. */
  function RmTree(s: Store, p: string): (r: Outcome)
    requires p != [] && AllSimple(s)
    ensures r.store.nodes.Keys <= s.nodes.Keys
    decreases |Under(s, KeyOf(p))|, 1, 0
  {
    match Stat(s, p)
    case Fail(e) => Outcome(s, [], Some(e))
    case Ok(node) =>
      if node != Dir then
        match Remove(s, p)
        case Ok(s') => Outcome(s', [], None)
        case Fail(e) => Outcome(s, [], Some(e))
      else
        match ReadDir(s, p)
        case Fail(e) => Outcome(s, [], Some(e))
        case Ok(files) =>
          ListingChildNames(s, KeyOf(p));
          RmFinish(RmEntries(s, p, files, None), p)
  }

  /** After the entries: a directory whose entries all went is removed;
      otherwise the first error stands. */
  function RmFinish(r: Outcome, p: string): Outcome
  {
    if r.err.Some? then r
    else
      match Remove(r.store, p)
      case Ok(s') => Outcome(s', r.log, None)
      case Fail(e) => Outcome(r.store, r.log, Some(e))
  }

  /** One listed entry: a directory goes through RmTree, and a failure is
      logged as "rmdir on"; anything else is removed directly, and a failure
      is logged as "rm on". */
  function RmEntry(s: Store, path: string, node: Node): (r: Outcome)
    requires path != [] && AllSimple(s)
    ensures r.store.nodes.Keys <= s.nodes.Keys
    decreases |Under(s, KeyOf(path))|, 2, 0
  {
    if node == Dir then
      var c := RmTree(s, path);
      if c.err.Some? then Outcome(c.store, c.log + [RmdirFailed(path, c.err.value)], c.err) else c
    else
      match Remove(s, path)
      case Ok(s') => Outcome(s', [], None)
      case Fail(x) => Outcome(s, [RmFailed(path, x)], Some(x))
  }

  /** The loop over the entries of directory `dir`; `e` is the first error
      met so far. */
  function RmEntries(s: Store, dir: string, es: seq<Entry>, e: Option<Error>): (r: Outcome)
    requires dir != [] && AllSimple(s) && ChildNames(es)
    ensures r.store.nodes.Keys <= s.nodes.Keys
    decreases Weight(s, KeyOf(dir)), 0, |es|
  {
    if es == [] then Outcome(s, [], e)
    else
      var path := Join(dir, es[0].name);
      JoinChild(dir, es[0].name);
      UnderChild(s, KeyOf(dir), es[0].name);
      var step := RmEntry(s, path, es[0].node);
      var e' := if e.None? then step.err else e;
      WeightShrinks(s, step.store, KeyOf(dir));
      var rest := RmEntries(step.store, dir, es[1..], e');
      Outcome(rest.store, step.log + rest.log, rest.err)
  }

  // ---------------------------------------------------------------------
  // What rmdir leaves alone
  // ---------------------------------------------------------------------

  /** s' is s with some keys removed: nothing added, nothing rewritten,
      the same faults. */
  predicate Shrunk(s: Store, s': Store)
  {
    && s'.nodes.Keys <= s.nodes.Keys
    && (forall key :: key in s'.nodes ==> s'.nodes[key] == s.nodes[key])
    && s'.faults == s.faults
  }

  /** Every key of s that is not at or below k is still in s'. */
  predicate KeepsOutside(s: Store, s': Store, k: Key)
  {
    forall key :: key in s.nodes && !IsPrefix(k, key) ==> key in s'.nodes
  }

  /** key lies at or below the child of dk named by one of the entries. */
  predicate BelowEntry(dk: Key, es: seq<Entry>, key: Key)
  {
    |key| > |dk| && key[..|dk|] == dk && key[|dk|] in Names(es)
  }

  /** Every key of s outside the subtrees of the entries is still in s'. */
  predicate KeepsOutsideEntries(s: Store, s': Store, dk: Key, es: seq<Entry>)
  {
    forall key :: key in s.nodes && !BelowEntry(dk, es, key) ==> key in s'.nodes
  }

  lemma ShrunkTrans(a: Store, b: Store, c: Store)
    requires Shrunk(a, b) && Shrunk(b, c)
    ensures Shrunk(a, c)
  {
  }

  lemma KeepsTrans(a: Store, b: Store, c: Store, k: Key)
    requires KeepsOutside(a, b, k) && KeepsOutside(b, c, k)
    ensures KeepsOutside(a, c, k)
  {
  }

  /** Keeping what lies outside every entry keeps what lies outside the
      directory. */
  lemma EntriesInside(s: Store, s': Store, k: Key, es: seq<Entry>)
    requires KeepsOutsideEntries(s, s', k, es)
    ensures KeepsOutside(s, s', k)
  {
    forall key | key in s.nodes && !IsPrefix(k, key)
      ensures key in s'.nodes
    {
      assert !BelowEntry(k, es, key);
    }
  }

  lemma BelowFirstEntry(dk: Key, es: seq<Entry>, key: Key)
    requires es != []
    ensures IsPrefix(dk + [es[0].name], key) ==> BelowEntry(dk, es, key)
  {
    if IsPrefix(dk + [es[0].name], key) {
      assert key[..|dk|] == (dk + [es[0].name])[..|dk|];
      assert key[|dk|] == (dk + [es[0].name])[|dk|];
      assert es[0].name in Names(es);
    }
  }

  lemma EntriesStep(s: Store, s1: Store, s2: Store, dk: Key, es: seq<Entry>)
    requires es != []
    requires KeepsOutside(s, s1, dk + [es[0].name]) && s1.nodes.Keys <= s.nodes.Keys
    requires KeepsOutsideEntries(s1, s2, dk, es[1..])
    ensures KeepsOutsideEntries(s, s2, dk, es)
  {
    assert Names(es) == [es[0].name] + Names(es[1..]);
    forall key | key in s.nodes && !BelowEntry(dk, es, key)
      ensures key in s2.nodes
    {
      BelowFirstEntry(dk, es, key);
      assert !BelowEntry(dk, es[1..], key);
    }
  }

  /** rmdir only removes, and only at or below the path it is given. */
  lemma {:induction false} RmTreeFrame(s: Store, p: string)
    requires p != [] && AllSimple(s)
    ensures Shrunk(s, RmTree(s, p).store)
    ensures KeepsOutside(s, RmTree(s, p).store, KeyOf(p))
    decreases |Under(s, KeyOf(p))|, 1, 0
  {
    if Stat(s, p).Ok? && Stat(s, p).value == Dir && ReadDir(s, p).Ok? {
      var files := ReadDir(s, p).value;
      ListingChildNames(s, KeyOf(p));
      RmEntriesFrame(s, p, files, None);
      var r := RmEntries(s, p, files, None);
      EntriesInside(s, r.store, KeyOf(p), files);
      RmFinishFrame(r, p);
      ShrunkTrans(s, r.store, RmFinish(r, p).store);
      KeepsTrans(s, r.store, RmFinish(r, p).store, KeyOf(p));
    }
  }

  lemma RmFinishFrame(r: Outcome, p: string)
    ensures Shrunk(r.store, RmFinish(r, p).store)
    ensures KeepsOutside(r.store, RmFinish(r, p).store, KeyOf(p))
  {
  }

  lemma {:induction false} RmEntryFrame(s: Store, path: string, node: Node)
    requires path != [] && AllSimple(s)
    ensures Shrunk(s, RmEntry(s, path, node).store)
    ensures KeepsOutside(s, RmEntry(s, path, node).store, KeyOf(path))
    decreases |Under(s, KeyOf(path))|, 2, 0
  {
    if node == Dir {
      RmTreeFrame(s, path);
    }
  }

  lemma {:induction false} RmEntriesFrame(s: Store, dir: string, es: seq<Entry>, e: Option<Error>)
    requires dir != [] && AllSimple(s) && ChildNames(es)
    ensures Shrunk(s, RmEntries(s, dir, es, e).store)
    ensures KeepsOutsideEntries(s, RmEntries(s, dir, es, e).store, KeyOf(dir), es)
    decreases Weight(s, KeyOf(dir)), 0, |es|
  {
    if es != [] {
      var dk := KeyOf(dir);
      var path := Join(dir, es[0].name);
      JoinChild(dir, es[0].name);
      UnderChild(s, dk, es[0].name);
      var step := RmEntry(s, path, es[0].node);
      var e' := if e.None? then step.err else e;
      WeightShrinks(s, step.store, dk);
      RmEntryFrame(s, path, es[0].node);
      RmEntriesFrame(step.store, dir, es[1..], e');
      var r := RmEntries(step.store, dir, es[1..], e');
      assert RmEntries(s, dir, es, e).store == r.store;
      ShrunkTrans(s, step.store, r.store);
      EntriesStep(s, step.store, r.store, dk, es);
    }
  }

  // ---------------------------------------------------------------------
  // What rmdir reports
  // ---------------------------------------------------------------------

  /** Lines rmdir writes while it walks a tree. */
  predicate RmLines(log: seq<LogEntry>)
  {
    forall i :: 0 <= i < |log| ==> log[i].RmdirFailed? || log[i].RmFailed?
  }

  lemma RmLinesAppend(a: seq<LogEntry>, b: seq<LogEntry>)
    requires RmLines(a) && RmLines(b)
    ensures RmLines(a + b)
  {
  }

  /** rmdir of one path writes only "rmdir on"/"rm on" lines, and none at
      all when it succeeds. */
  lemma {:induction false} RmTreeLog(s: Store, p: string)
    requires p != [] && AllSimple(s)
    ensures RmLines(RmTree(s, p).log)
    ensures RmTree(s, p).err.None? ==> RmTree(s, p).log == []
    decreases |Under(s, KeyOf(p))|, 1, 0
  {
    if Stat(s, p).Ok? && Stat(s, p).value == Dir && ReadDir(s, p).Ok? {
      var files := ReadDir(s, p).value;
      ListingChildNames(s, KeyOf(p));
      RmEntriesLog(s, p, files, None);
    }
  }

  lemma {:induction false} RmEntryLog(s: Store, path: string, node: Node)
    requires path != [] && AllSimple(s)
    ensures RmLines(RmEntry(s, path, node).log)
    ensures RmEntry(s, path, node).err.None? <==> RmEntry(s, path, node).log == []
    decreases |Under(s, KeyOf(path))|, 2, 0
  {
    if node == Dir {
      RmTreeLog(s, path);
      var c := RmTree(s, path);
      if c.err.Some? {
        RmLinesAppend(c.log, [RmdirFailed(path, c.err.value)]);
      }
    }
  }

  /** The loop keeps the first error it met, logs one line or more for
      every entry that failed, and nothing when none did. */
  lemma {:induction false} RmEntriesLog(s: Store, dir: string, es: seq<Entry>, e: Option<Error>)
    requires dir != [] && AllSimple(s) && ChildNames(es)
    ensures RmLines(RmEntries(s, dir, es, e).log)
    ensures e.Some? ==> RmEntries(s, dir, es, e).err == e
    ensures e.None? ==> (RmEntries(s, dir, es, e).err.None? <==> RmEntries(s, dir, es, e).log == [])
    decreases Weight(s, KeyOf(dir)), 0, |es|
  {
    if es != [] {
      var dk := KeyOf(dir);
      var path := Join(dir, es[0].name);
      JoinChild(dir, es[0].name);
      UnderChild(s, dk, es[0].name);
      var step := RmEntry(s, path, es[0].node);
      var e' := if e.None? then step.err else e;
      WeightShrinks(s, step.store, dk);
      RmEntryLog(s, path, es[0].node);
      RmEntriesLog(step.store, dir, es[1..], e');
      var r := RmEntries(step.store, dir, es[1..], e');
      assert RmEntries(s, dir, es, e) == Outcome(r.store, step.log + r.log, r.err);
      RmLinesAppend(step.log, r.log);
    }
  }

  // ---------------------------------------------------------------------
  // What rmdir removes
  // ---------------------------------------------------------------------

  /** rmdir succeeds exactly when the path was there and is gone. */
  lemma RmTreeRemoved(s: Store, p: string)
    requires p != [] && AllSimple(s)
    ensures RmTree(s, p).err.None? <==> KeyOf(p) in s.nodes && KeyOf(p) !in RmTree(s, p).store.nodes
  {
    var k := KeyOf(p);
    if Stat(s, p).Ok? && Stat(s, p).value == Dir && ReadDir(s, p).Ok? {
      var files := ReadDir(s, p).value;
      ListingChildNames(s, k);
      RmEntriesFrame(s, p, files, None);
      var r := RmEntries(s, p, files, None);
      assert !BelowEntry(k, files, k);
      assert k in r.store.nodes;
    }
  }

  lemma RmEntryRemoved(s: Store, path: string, node: Node)
    requires path != [] && AllSimple(s)
    ensures RmEntry(s, path, node).err.None? ==> KeyOf(path) !in RmEntry(s, path, node).store.nodes
  {
    if node == Dir {
      RmTreeRemoved(s, path);
    }
  }

  /** When the loop over the entries succeeds, every listed entry is gone. */
  lemma {:induction false} RmEntriesRemoved(s: Store, dir: string, es: seq<Entry>)
    requires dir != [] && AllSimple(s) && ChildNames(es)
    ensures RmEntries(s, dir, es, None).err.None? ==>
              forall i :: 0 <= i < |es| ==> KeyOf(dir) + [es[i].name] !in RmEntries(s, dir, es, None).store.nodes
    decreases |es|
  {
    if es != [] {
      var dk := KeyOf(dir);
      var path := Join(dir, es[0].name);
      JoinChild(dir, es[0].name);
      var step := RmEntry(s, path, es[0].node);
      var r := RmEntries(step.store, dir, es[1..], step.err);
      assert RmEntries(s, dir, es, None) == Outcome(r.store, step.log + r.log, r.err);
      RmEntriesLog(step.store, dir, es[1..], step.err);
      if r.err.None? {
        RmEntryRemoved(s, path, es[0].node);
        RmEntriesRemoved(step.store, dir, es[1..]);
        forall i | 0 <= i < |es|
          ensures dk + [es[i].name] !in r.store.nodes
        {
          if i > 0 {
            assert es[1..][i - 1] == es[i];
          }
        }
      }
    }
  }

  // ---------------------------------------------------------------------
  // rmdir keeps the tree well formed, and removes exactly the subtree
  // ---------------------------------------------------------------------

  lemma RmFinishWF(r: Outcome, p: string)
    requires WF(r.store)
    ensures WF(RmFinish(r, p).store)
  {
    if r.err.None? && Remove(r.store, p).Ok? {
      RemoveWF(r.store, p);
    }
  }

  lemma {:induction false} RmTreeWF(s: Store, p: string)
    requires p != [] && WF(s)
    ensures WF(RmTree(s, p).store)
    decreases |Under(s, KeyOf(p))|, 1, 0
  {
    if Stat(s, p).Ok? {
      if Stat(s, p).value != Dir {
        if Remove(s, p).Ok? {
          RemoveWF(s, p);
        }
      } else if ReadDir(s, p).Ok? {
        var files := ReadDir(s, p).value;
        ListingChildNames(s, KeyOf(p));
        RmEntriesWF(s, p, files, None);
        RmFinishWF(RmEntries(s, p, files, None), p);
      }
    }
  }

  lemma {:induction false} RmEntryWF(s: Store, path: string, node: Node)
    requires path != [] && WF(s)
    ensures WF(RmEntry(s, path, node).store)
    decreases |Under(s, KeyOf(path))|, 2, 0
  {
    if node == Dir {
      RmTreeWF(s, path);
    } else if Remove(s, path).Ok? {
      RemoveWF(s, path);
    }
  }

  lemma {:induction false} RmEntriesWF(s: Store, dir: string, es: seq<Entry>, e: Option<Error>)
    requires dir != [] && WF(s) && ChildNames(es)
    ensures WF(RmEntries(s, dir, es, e).store)
    decreases Weight(s, KeyOf(dir)), 0, |es|
  {
    if es != [] {
      var dk := KeyOf(dir);
      var path := Join(dir, es[0].name);
      JoinChild(dir, es[0].name);
      UnderChild(s, dk, es[0].name);
      var step := RmEntry(s, path, es[0].node);
      var e' := if e.None? then step.err else e;
      WeightShrinks(s, step.store, dk);
      RmEntryWF(s, path, es[0].node);
      RmEntriesWF(step.store, dir, es[1..], e');
    }
  }

  /** The tree with everything at or below k cut away. */
  function Prune(s: Store, k: Key): Store
  {
    s.(nodes := map key | key in s.nodes && !IsPrefix(k, key) :: s.nodes[key])
  }

  /** A shrunk tree that kept everything outside k and lost k itself is
      the pruned tree. */
  lemma PruneExact(s: Store, t: Store, k: Key)
    requires Shrunk(s, t) && KeepsOutside(s, t, k) && WF(t) && k !in t.nodes
    ensures t == Prune(s, k)
  {
    forall key | IsPrefix(k, key)
      ensures key !in t.nodes
    {
      AbsentHasNoDescendant(t, k, key);
    }
    assert t.nodes == Prune(s, k).nodes;
  }

  /** A successful rmdir removes exactly the subtree at the path. */
  lemma RmTreeExact(s: Store, p: string)
    requires p != [] && WF(s) && RmTree(s, p).err.None?
    ensures RmTree(s, p).store == Prune(s, KeyOf(p))
  {
    RmTreeFrame(s, p);
    RmTreeRemoved(s, p);
    RmTreeWF(s, p);
    PruneExact(s, RmTree(s, p).store, KeyOf(p));
  }

  // ---------------------------------------------------------------------
  // rmdir goes through when nothing refuses it
  // ---------------------------------------------------------------------

  /** No stat, listing or removal at or below k is refused. */
  predicate NoRmFault(s: Store, k: Key)
  {
    forall f :: f in s.faults && (f.op == StatOp || f.op == ReadDirOp || f.op == RemoveOp) ==> !IsPrefix(k, f.key)
  }

  /** The entries name children of dk in s, each with the node it has there. */
  predicate Listed(s: Store, dk: Key, es: seq<Entry>)
  {
    forall i :: 0 <= i < |es| ==> dk + [es[i].name] in s.nodes && s.nodes[dk + [es[i].name]] == es[i].node
  }

  lemma PrefixTrans(a: Key, b: Key, c: Key)
    requires IsPrefix(a, b) && IsPrefix(b, c)
    ensures IsPrefix(a, c)
  {
    assert c[..|a|] == c[..|b|][..|a|];
  }

  lemma NoRmFaultBelow(s: Store, dk: Key, ck: Key)
    requires NoRmFault(s, dk) && IsPrefix(dk, ck)
    ensures NoRmFault(s, ck)
  {
    forall x | IsPrefix(ck, x)
      ensures IsPrefix(dk, x)
    {
      PrefixTrans(dk, ck, x);
    }
  }

  /** Two children of the same directory lie under one another only when
      they are the same child. */
  lemma SiblingPrefix(dk: Key, a: string, b: string)
    requires IsPrefix(dk + [a], dk + [b])
    ensures a == b
  {
    assert (dk + [b])[|dk|] == (dk + [a])[|dk|];
  }

  /** No two entries share a name. */
  predicate DistinctNames(es: seq<Entry>)
  {
    forall i, j :: 0 <= i < j < |es| ==> es[i].name != es[j].name
  }

  lemma SortedDistinct(es: seq<Entry>)
    requires StrictlySorted(Names(es))
    ensures DistinctNames(es)
  {
    forall i, j | 0 <= i < j < |es|
      ensures es[i].name != es[j].name
    {
      assert Less(Names(es)[i], Names(es)[j]);
      LessIrreflexive(es[i].name);
    }
  }

  /** Handling the first entry leaves the others listed as they were. */
  lemma ListedTail(s: Store, s1: Store, dk: Key, es: seq<Entry>)
    requires es != [] && Listed(s, dk, es) && DistinctNames(es)
    requires Shrunk(s, s1) && KeepsOutside(s, s1, dk + [es[0].name])
    ensures Listed(s1, dk, es[1..])
  {
    forall i | 0 <= i < |es| - 1
      ensures dk + [es[1..][i].name] in s1.nodes
    {
      assert es[1..][i] == es[i + 1];
      assert es[0].name != es[i + 1].name;
      if IsPrefix(dk + [es[0].name], dk + [es[i + 1].name]) {
        SiblingPrefix(dk, es[0].name, es[i + 1].name);
      }
    }
  }

  /** Every child listed at the start is gone at the end, so no child is
      left. */
  lemma ChildrenGone(s: Store, t: Store, k: Key, files: seq<Entry>)
    requires forall n :: n in Names(files) <==> k + [n] in s.nodes
    requires forall i :: 0 <= i < |files| ==> k + [files[i].name] !in t.nodes
    ensures forall n :: k + [n] in s.nodes ==> k + [n] !in t.nodes
  {
    forall n | k + [n] in s.nodes
      ensures k + [n] !in t.nodes
    {
      var i :| 0 <= i < |files| && Names(files)[i] == n;
    }
  }

  lemma RmFinishComplete(s: Store, p: string, r: Outcome)
    requires p != [] && KeyOf(p) != [] && KeyOf(p) in r.store.nodes && NoRmFault(r.store, KeyOf(p))
    requires r.err.None? && r.store.nodes.Keys <= s.nodes.Keys
    requires forall n :: KeyOf(p) + [n] in s.nodes ==> KeyOf(p) + [n] !in r.store.nodes
    ensures RmFinish(r, p).err.None?
  {
    var k := KeyOf(p);
    assert k[..|k|] == k;
    forall n
      ensures n !in Children(r.store.nodes, k)
    {
      ChildrenSpec(r.store.nodes, k, n);
    }
  }

  /** rmdir of a path that exists, with nothing at or below it refusing a
      stat, a listing or a removal, succeeds. */
  lemma {:induction false} RmTreeComplete(s: Store, p: string)
    requires p != [] && WF(s) && KeyOf(p) in s.nodes && KeyOf(p) != [] && NoRmFault(s, KeyOf(p))
    ensures RmTree(s, p).err.None?
    decreases |Under(s, KeyOf(p))|, 3, 0
  {
    var k := KeyOf(p);
    assert k[..|k|] == k;
    if s.nodes[k] == Dir {
      var files := ReadDir(s, p).value;
      ListingSpec(s.nodes, k);
      ListingChildNames(s, k);
      SortedDistinct(files);
      RmEntriesComplete(s, p, files);
      RmEntriesFrame(s, p, files, None);
      RmEntriesRemoved(s, p, files);
      var r := RmEntries(s, p, files, None);
      assert !BelowEntry(k, files, k);
      ChildrenGone(s, r.store, k, files);
      RmFinishComplete(s, p, r);
    }
  }

  lemma {:induction false} RmEntryComplete(s: Store, path: string, node: Node)
    requires path != [] && WF(s) && KeyOf(path) in s.nodes && KeyOf(path) != []
    requires s.nodes[KeyOf(path)] == node && NoRmFault(s, KeyOf(path))
    ensures RmEntry(s, path, node).err.None?
    decreases |Under(s, KeyOf(path))|, 4, 0
  {
    if node == Dir {
      RmTreeComplete(s, path);
    } else {
      assert KeyOf(path)[..|KeyOf(path)|] == KeyOf(path);
    }
  }

  /** Removing the first entry leaves the rest of the loop in the same
      situation. */
  lemma RmEntriesStepKeeps(s: Store, dir: string, es: seq<Entry>)
    requires dir != [] && WF(s) && ChildNames(es) && es != [] && Join(dir, es[0].name) != []
    requires NoRmFault(s, KeyOf(dir)) && Listed(s, KeyOf(dir), es) && DistinctNames(es)
    ensures
      var t := RmEntry(s, Join(dir, es[0].name), es[0].node).store;
      && WF(t) && NoRmFault(t, KeyOf(dir)) && Listed(t, KeyOf(dir), es[1..]) && DistinctNames(es[1..])
  {
    var path := Join(dir, es[0].name);
    JoinChild(dir, es[0].name);
    RmEntryFrame(s, path, es[0].node);
    RmEntryWF(s, path, es[0].node);
    ListedTail(s, RmEntry(s, path, es[0].node).store, KeyOf(dir), es);
  }

  /** Once the first entry went, the loop's verdict is the verdict on the
      rest. */
  lemma RmEntriesStepErr(s: Store, dir: string, es: seq<Entry>)
    requires dir != [] && AllSimple(s) && ChildNames(es) && es != [] && Join(dir, es[0].name) != []
    requires RmEntry(s, Join(dir, es[0].name), es[0].node).err.None?
    ensures
      var t := RmEntry(s, Join(dir, es[0].name), es[0].node).store;
      RmEntries(s, dir, es, None).err == RmEntries(t, dir, es[1..], None).err
  {
    JoinChild(dir, es[0].name);
  }

  lemma {:induction false} RmEntriesComplete(s: Store, dir: string, es: seq<Entry>)
    requires dir != [] && WF(s) && ChildNames(es)
    requires NoRmFault(s, KeyOf(dir)) && Listed(s, KeyOf(dir), es) && DistinctNames(es)
    ensures RmEntries(s, dir, es, None).err.None?
    decreases Weight(s, KeyOf(dir)), 2, |es|
  {
    if es != [] {
      RmEntriesNext(s, dir, es);
      RmEntriesComplete(RmEntry(s, Join(dir, es[0].name), es[0].node).store, dir, es[1..]);
    }
  }

  /** After the first entry went, the rest of the loop is in the same
      situation, no heavier, and decides the loop's verdict. */
  lemma {:induction false} RmEntriesNext(s: Store, dir: string, es: seq<Entry>)
    requires dir != [] && WF(s) && ChildNames(es) && es != []
    requires NoRmFault(s, KeyOf(dir)) && Listed(s, KeyOf(dir), es) && DistinctNames(es)
    ensures Join(dir, es[0].name) != []
    ensures var t := RmEntry(s, Join(dir, es[0].name), es[0].node).store;
            && WF(t) && NoRmFault(t, KeyOf(dir)) && Listed(t, KeyOf(dir), es[1..]) && DistinctNames(es[1..])
            && Weight(t, KeyOf(dir)) <= Weight(s, KeyOf(dir))
            && RmEntries(s, dir, es, None).err == RmEntries(t, dir, es[1..], None).err
    decreases Weight(s, KeyOf(dir)), 1, |es| + 1
  {
    JoinChild(dir, es[0].name);
    RmEntriesHead(s, dir, es);
    WeightShrinks(s, RmEntry(s, Join(dir, es[0].name), es[0].node).store, KeyOf(dir));
    RmEntriesStepKeeps(s, dir, es);
    RmEntriesStepErr(s, dir, es);
  }

  /** The first entry of the loop goes through. */
  lemma {:induction false} RmEntriesHead(s: Store, dir: string, es: seq<Entry>)
    requires dir != [] && WF(s) && ChildNames(es) && es != [] && Join(dir, es[0].name) != []
    requires NoRmFault(s, KeyOf(dir)) && Listed(s, KeyOf(dir), es)
    ensures RmEntry(s, Join(dir, es[0].name), es[0].node).err.None?
    decreases Weight(s, KeyOf(dir)), 1, |es|
  {
    var dk := KeyOf(dir);
    JoinChild(dir, es[0].name);
    UnderChild(s, dk, es[0].name);
    assert (dk + [es[0].name])[..|dk|] == dk;
    NoRmFaultBelow(s, dk, dk + [es[0].name]);
    RmEntryComplete(s, Join(dir, es[0].name), es[0].node);
  }

  // ---------------------------------------------------------------------
  // One failing entry does not stop its siblings
  // ---------------------------------------------------------------------

  /** The names of the entries whose removal fails at their turn in the
      loop, in listing order. */
  function Failing(s: Store, dir: string, es: seq<Entry>): seq<string>
    requires dir != [] && AllSimple(s) && ChildNames(es)
    decreases Weight(s, KeyOf(dir)), 0, |es|
  {
    if es == [] then []
    else
      var path := Join(dir, es[0].name);
      JoinChild(dir, es[0].name);
      UnderChild(s, KeyOf(dir), es[0].name);
      var step := RmEntry(s, path, es[0].node);
      WeightShrinks(s, step.store, KeyOf(dir));
      (if step.err.Some? then [es[0].name] else []) + Failing(step.store, dir, es[1..])
  }

  lemma NoRmFaultSame(s: Store, t: Store, k: Key)
    requires s.faults == t.faults
    ensures NoRmFault(s, k) <==> NoRmFault(t, k)
  {
  }

  lemma DistinctTail(es: seq<Entry>)
    requires es != [] && DistinctNames(es)
    ensures DistinctNames(es[1..])
  {
    forall i, j | 0 <= i < j < |es| - 1
      ensures es[1..][i].name != es[1..][j].name
    {
      assert es[1..][i] == es[i + 1] && es[1..][j] == es[j + 1];
    }
  }

  /** rmdir of a directory goes on after an entry fails: every entry with
      nothing refusing a stat, a listing or a removal at or below it is
      removed, whatever happened to the entries before it, and is not
      among the failures. */
  lemma {:induction false} RmEntriesSiblings(s: Store, dir: string, es: seq<Entry>, e: Option<Error>)
    requires dir != [] && WF(s) && ChildNames(es)
    requires Listed(s, KeyOf(dir), es) && DistinctNames(es)
    ensures forall i :: 0 <= i < |es| && NoRmFault(s, KeyOf(dir) + [es[i].name]) ==>
              && KeyOf(dir) + [es[i].name] !in RmEntries(s, dir, es, e).store.nodes
              && es[i].name !in Failing(s, dir, es)
    decreases Weight(s, KeyOf(dir)), 0, |es|
  {
    if es != [] {
      var dk := KeyOf(dir);
      var n := es[0].name;
      var path := Join(dir, n);
      JoinChild(dir, n);
      UnderChild(s, dk, n);
      var step := RmEntry(s, path, es[0].node);
      var e' := if e.None? then step.err else e;
      WeightShrinks(s, step.store, dk);
      var rest := RmEntries(step.store, dir, es[1..], e');
      assert RmEntries(s, dir, es, e).store == rest.store;
      var fs := Failing(step.store, dir, es[1..]);
      assert Failing(s, dir, es) == (if step.err.Some? then [n] else []) + fs;
      RmEntryFrame(s, path, es[0].node);
      RmEntryWF(s, path, es[0].node);
      ListedTail(s, step.store, dk, es);
      DistinctTail(es);
      RmEntriesSiblings(step.store, dir, es[1..], e');
      RmEntriesFrame(step.store, dir, es[1..], e');
      FailingNames(step.store, dir, es[1..]);
      if NoRmFault(s, dk + [n]) {
        assert (dk + [n])[..|dk|] == dk;
        RmEntryComplete(s, path, es[0].node);
        RmEntryRemoved(s, path, es[0].node);
      }
      SiblingsCombine(s, step.store, rest.store, dk, es, if step.err.Some? then [n] else [], fs);
    }
  }

  /** The first entry's fate and the rest's fates together. */
  lemma SiblingsCombine(s: Store, t: Store, out: Store, dk: Key, es: seq<Entry>, head: seq<string>, fs: seq<string>)
    requires es != [] && DistinctNames(es)
    requires head == [] || head == [es[0].name]
    requires NoRmFault(s, dk + [es[0].name]) ==> dk + [es[0].name] !in t.nodes && head == []
    requires t.faults == s.faults && Shrunk(t, out)
    requires forall i :: 0 <= i < |es[1..]| && NoRmFault(t, dk + [es[1..][i].name]) ==>
               dk + [es[1..][i].name] !in out.nodes && es[1..][i].name !in fs
    requires forall m :: m in fs ==> m in Names(es[1..])
    ensures forall i :: 0 <= i < |es| && NoRmFault(s, dk + [es[i].name]) ==>
              dk + [es[i].name] !in out.nodes && es[i].name !in head + fs
  {
    forall i | 0 <= i < |es| && NoRmFault(s, dk + [es[i].name])
      ensures dk + [es[i].name] !in out.nodes && es[i].name !in head + fs
    {
      NoRmFaultSame(s, t, dk + [es[i].name]);
      if i == 0 {
        DistinctHead(es);
      } else {
        assert es[1..][i - 1] == es[i];
      }
    }
  }

  /** The first name is not among the names of the rest. */
  lemma DistinctHead(es: seq<Entry>)
    requires es != [] && DistinctNames(es)
    ensures es[0].name !in Names(es[1..])
  {
    forall i | 0 <= i < |es| - 1
      ensures Names(es[1..])[i] != es[0].name
    {
      assert es[1..][i] == es[i + 1];
    }
  }

  /** Only listed names fail. */
  lemma {:induction false} FailingNames(s: Store, dir: string, es: seq<Entry>)
    requires dir != [] && AllSimple(s) && ChildNames(es)
    ensures forall m :: m in Failing(s, dir, es) ==> m in Names(es)
    decreases Weight(s, KeyOf(dir)), 0, |es|
  {
    if es != [] {
      var path := Join(dir, es[0].name);
      JoinChild(dir, es[0].name);
      UnderChild(s, KeyOf(dir), es[0].name);
      var step := RmEntry(s, path, es[0].node);
      WeightShrinks(s, step.store, KeyOf(dir));
      FailingNames(step.store, dir, es[1..]);
      assert Names(es) == [es[0].name] + Names(es[1..]);
    }
  }

  // ---------------------------------------------------------------------
  // One line per failing entry
  // ---------------------------------------------------------------------

  /** An "rm on" / "rmdir on" line about a path at or below k. */
  predicate AtOrBelow(k: Key, l: LogEntry)
  {
    (l.RmFailed? || l.RmdirFailed?) && IsPrefix(k, KeyOf(l.path))
  }

  predicate LinesAtOrBelow(k: Key, log: seq<LogEntry>)
  {
    forall i :: 0 <= i < |log| ==> AtOrBelow(k, log[i])
  }

  /** Every line is about a path strictly below k. */
  predicate LinesBelow(k: Key, log: seq<LogEntry>)
  {
    forall i :: 0 <= i < |log| ==> AtOrBelow(k, log[i]) && |KeyOf(log[i].path)| > |k|
  }

  /** The line is about a child of dk. */
  predicate Direct(dk: Key, l: LogEntry)
  {
    AtOrBelow(dk, l) && |KeyOf(l.path)| == |dk| + 1
  }

  /** The names of the children of dk the log reports a failure for, in
      log order. */
  function Reported(dk: Key, log: seq<LogEntry>): seq<string>
  {
    if log == [] then [] else ReportedBy(dk, log[0]) + Reported(dk, log[1..])
  }

  /** The child of dk one line reports, if it reports one. */
  function ReportedBy(dk: Key, l: LogEntry): seq<string>
  {
    if Direct(dk, l) then [KeyOf(l.path)[|dk|]] else []
  }

  /** A line about the child n of dk reports n. */
  lemma ReportedOne(dk: Key, n: string, l: LogEntry)
    requires (l.RmFailed? || l.RmdirFailed?) && KeyOf(l.path) == dk + [n]
    ensures Reported(dk, [l]) == [n]
  {
    assert (dk + [n])[|dk|] == n && (dk + [n])[..|dk|] == dk;
    assert [l][1..] == [];
  }

  lemma {:induction false} ReportedAppend(dk: Key, a: seq<LogEntry>, b: seq<LogEntry>)
    ensures Reported(dk, a + b) == Reported(dk, a) + Reported(dk, b)
    decreases |a|
  {
    if a == [] {
      assert a + b == b;
    } else {
      assert (a + b)[0] == a[0] && (a + b)[1..] == a[1..] + b;
      ReportedAppend(dk, a[1..], b);
    }
  }

  /** Lines about grandchildren and deeper report no child. */
  lemma {:induction false} ReportedDeeper(dk: Key, k: Key, log: seq<LogEntry>)
    requires |k| == |dk| + 1 && LinesBelow(k, log)
    ensures Reported(dk, log) == []
    decreases |log|
  {
    if log != [] {
      ReportedDeeper(dk, k, log[1..]);
    }
  }

  lemma LinesAtOrBelowAppend(k: Key, a: seq<LogEntry>, b: seq<LogEntry>)
    requires LinesAtOrBelow(k, a) && LinesAtOrBelow(k, b)
    ensures LinesAtOrBelow(k, a + b)
  {
    forall i | 0 <= i < |a + b|
      ensures AtOrBelow(k, (a + b)[i])
    {
      if i < |a| {
        assert (a + b)[i] == a[i];
      } else {
        assert (a + b)[i] == b[i - |a|];
      }
    }
  }

  lemma LinesBelowAppend(k: Key, a: seq<LogEntry>, b: seq<LogEntry>)
    requires LinesBelow(k, a) && LinesBelow(k, b)
    ensures LinesBelow(k, a + b)
  {
    forall i | 0 <= i < |a + b|
      ensures AtOrBelow(k, (a + b)[i]) && |KeyOf((a + b)[i].path)| > |k|
    {
      if i < |a| {
        assert (a + b)[i] == a[i];
      } else {
        assert (a + b)[i] == b[i - |a|];
      }
    }
  }

  /** Lines at or below a child of dk are strictly below dk. */
  lemma ChildLines(dk: Key, n: string, log: seq<LogEntry>)
    requires LinesAtOrBelow(dk + [n], log)
    ensures LinesBelow(dk, log)
  {
    forall i | 0 <= i < |log|
      ensures AtOrBelow(dk, log[i]) && |KeyOf(log[i].path)| > |dk|
    {
      assert (dk + [n])[..|dk|] == dk;
      PrefixTrans(dk, dk + [n], KeyOf(log[i].path));
    }
  }

  /** rmdir of a path only reports paths strictly below it. */
  lemma {:induction false} RmTreeLinesBelow(s: Store, p: string)
    requires p != [] && AllSimple(s)
    ensures LinesBelow(KeyOf(p), RmTree(s, p).log)
    decreases |Under(s, KeyOf(p))|, 1, 0
  {
    if Stat(s, p).Ok? && Stat(s, p).value == Dir && ReadDir(s, p).Ok? {
      var files := ReadDir(s, p).value;
      ListingChildNames(s, KeyOf(p));
      RmEntriesLinesBelow(s, p, files, None);
    }
  }

  lemma {:induction false} RmEntryLinesAt(s: Store, path: string, node: Node)
    requires path != [] && AllSimple(s)
    ensures LinesAtOrBelow(KeyOf(path), RmEntry(s, path, node).log)
    decreases |Under(s, KeyOf(path))|, 2, 0
  {
    var k := KeyOf(path);
    assert k[..|k|] == k;
    if node == Dir {
      RmTreeLinesBelow(s, path);
      var c := RmTree(s, path);
      if c.err.Some? {
        LinesAtOrBelowAppend(k, c.log, [RmdirFailed(path, c.err.value)]);
      }
    }
  }

  lemma {:induction false} RmEntriesLinesBelow(s: Store, dir: string, es: seq<Entry>, e: Option<Error>)
    requires dir != [] && AllSimple(s) && ChildNames(es)
    ensures LinesBelow(KeyOf(dir), RmEntries(s, dir, es, e).log)
    decreases Weight(s, KeyOf(dir)), 0, |es|
  {
    if es != [] {
      var dk := KeyOf(dir);
      var path := Join(dir, es[0].name);
      JoinChild(dir, es[0].name);
      UnderChild(s, dk, es[0].name);
      var step := RmEntry(s, path, es[0].node);
      var e' := if e.None? then step.err else e;
      WeightShrinks(s, step.store, dk);
      RmEntryLinesAt(s, path, es[0].node);
      ChildLines(dk, es[0].name, step.log);
      RmEntriesLinesBelow(step.store, dir, es[1..], e');
      var r := RmEntries(step.store, dir, es[1..], e');
      assert RmEntries(s, dir, es, e).log == step.log + r.log;
      LinesBelowAppend(dk, step.log, r.log);
    }
  }

  /** One entry is reported exactly when its removal fails, and then once. */
  lemma RmEntryReports(s: Store, dir: string, n: string, node: Node)
    requires dir != [] && AllSimple(s) && Element(n) && n != ".."
    ensures Join(dir, n) != []
    ensures var r := RmEntry(s, Join(dir, n), node);
            Reported(KeyOf(dir), r.log) == if r.err.Some? then [n] else []
  {
    var path := Join(dir, n);
    JoinChild(dir, n);
    if node == Dir {
      RmSubdirReports(s, dir, n);
    } else if Remove(s, path).Fail? {
      ReportedOne(KeyOf(dir), n, RmFailed(path, Remove(s, path).err));
    }
  }

  /** A subdirectory's own failures are reported below it; the line about
      the subdirectory itself is the only one about a child. */
  lemma RmSubdirReports(s: Store, dir: string, n: string)
    requires dir != [] && AllSimple(s) && Element(n) && n != ".."
    requires Join(dir, n) != [] && KeyOf(Join(dir, n)) == KeyOf(dir) + [n]
    ensures var r := RmEntry(s, Join(dir, n), Dir);
            Reported(KeyOf(dir), r.log) == if r.err.Some? then [n] else []
  {
    var dk := KeyOf(dir);
    var path := Join(dir, n);
    var c := RmTree(s, path);
    RmTreeLinesBelow(s, path);
    ReportedDeeper(dk, dk + [n], c.log);
    if c.err.Some? {
      ReportedAppend(dk, c.log, [RmdirFailed(path, c.err.value)]);
      ReportedOne(dk, n, RmdirFailed(path, c.err.value));
    }
  }

  /** The loop over a directory's entries writes exactly one "rm on" /
      "rmdir on" line about each entry whose removal fails, in listing
      order and about no other entry; it fails exactly when one of them
      does. */
  lemma {:induction false} RmEntriesReports(s: Store, dir: string, es: seq<Entry>, e: Option<Error>)
    requires dir != [] && AllSimple(s) && ChildNames(es)
    ensures Reported(KeyOf(dir), RmEntries(s, dir, es, e).log) == Failing(s, dir, es)
    ensures e.None? ==> (RmEntries(s, dir, es, e).err.None? <==> Failing(s, dir, es) == [])
    decreases Weight(s, KeyOf(dir)), 0, |es|
  {
    if es != [] {
      var dk := KeyOf(dir);
      var n := es[0].name;
      var path := Join(dir, n);
      JoinChild(dir, n);
      UnderChild(s, dk, n);
      var step := RmEntry(s, path, es[0].node);
      var e' := if e.None? then step.err else e;
      WeightShrinks(s, step.store, dk);
      var r := RmEntries(step.store, dir, es[1..], e');
      assert RmEntries(s, dir, es, e) == Outcome(r.store, step.log + r.log, r.err);
      assert Failing(s, dir, es) == (if step.err.Some? then [n] else []) + Failing(step.store, dir, es[1..]);
      RmEntryReports(s, dir, n, es[0].node);
      RmEntriesReports(step.store, dir, es[1..], e');
      RmEntriesLog(step.store, dir, es[1..], e');
      ReportedAppend(dk, step.log, r.log);
    }
  }

  /** A listing names distinct children, each with its node. */
  lemma ListingListed(s: Store, k: Key)
    ensures Listed(s, k, Listing(s.nodes, k)) && DistinctNames(Listing(s.nodes, k))
  {
    var es := Listing(s.nodes, k);
    ListingSpec(s.nodes, k);
    SortedDistinct(es);
    forall i | 0 <= i < |es|
      ensures k + [es[i].name] in s.nodes && s.nodes[k + [es[i].name]] == es[i].node
    {
      assert es[i] in es;
    }
  }

  /** rmdir of a directory it can stat and list: the "rm on" / "rmdir on"
      lines about its children name exactly the children whose removal
      failed, and every child with nothing refusing a stat, a listing or a
      removal at or below it is gone, even when a sibling failed. */
  lemma RmTreeChildren(s: Store, p: string)
    requires p != [] && WF(s) && Stat(s, p) == Ok(Dir) && ReadDir(s, p).Ok?
    ensures ChildNames(Listing(s.nodes, KeyOf(p)))
    ensures var files := Listing(s.nodes, KeyOf(p));
            var r := RmTree(s, p);
            && Reported(KeyOf(p), r.log) == Failing(s, p, files)
            && (r.err.None? <==> Failing(s, p, files) == [] && Remove(RmEntries(s, p, files, None).store, p).Ok?)
            && forall i :: 0 <= i < |files| && NoRmFault(s, KeyOf(p) + [files[i].name]) ==>
                 KeyOf(p) + [files[i].name] !in r.store.nodes
  {
    var k := KeyOf(p);
    var files := Listing(s.nodes, k);
    ListingChildNames(s, k);
    ListingListed(s, k);
    var e := RmEntries(s, p, files, None);
    assert RmTree(s, p) == RmFinish(e, p);
    RmEntriesReports(s, p, files, None);
    RmEntriesSiblings(s, p, files, None);
    RmFinishFrame(e, p);
  }
}

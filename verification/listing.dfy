/** ls and lls: the paths the patterns match, grouped by the directory they
    are listed under, each group sorted by name and handed to the column
    formatter.  Directories are listed by their entries, under their path
    relative to the working directory; everything else is listed by its own
    relative path in the group ".". */
module Listing {
  import opened Outcomes
  import opened Order
  import opened Paths
  import opened Store
  import opened Oracles
  import opened Shell

  /** A glob matcher: the names a pattern matches in a working directory. */
  type Glob = (Store, string, string) -> Res<seq<string>>

  // ---------------------------------------------------------------------
  // Matching
  // ---------------------------------------------------------------------

  /** What one pattern contributes: its matches joined onto wd. */
  function Hits(glob: Glob, s: Store, wd: string, pattern: string): set<string>
  {
    match glob(s, wd, pattern)
    case Fail(_) => {}
    case Ok(ms) => set i | 0 <= i < |ms| :: Join(wd, ms[i])
  }

  /** The matches of every pattern; the first pattern the matcher rejects
      ends the listing. */
  function Matches(glob: Glob, s: Store, wd: string, args: seq<string>): Res<set<string>>
    decreases |args|
  {
    if args == [] then Ok({})
    else
      match glob(s, wd, args[0])
      case Fail(e) => Fail(InvalidPattern(args[0], e))
      case Ok(_) =>
        match Matches(glob, s, wd, args[1..])
        case Fail(e) => Fail(e)
        case Ok(rest) => Ok(Hits(glob, s, wd, args[0]) + rest)
  }

  /** Without patterns, the working directory itself is the only match. */
  function FindMatches(glob: Glob, s: Store, wd: string, args: seq<string>): Res<set<string>>
  {
    if args == [] then Ok({wd}) else Matches(glob, s, wd, args)
  }

  /** Pattern i is the first one the matcher rejects. */
  predicate FirstRejected(glob: Glob, s: Store, wd: string, args: seq<string>, i: int)
  {
    && 0 <= i < |args| && glob(s, wd, args[i]).Fail?
    && forall h :: 0 <= h < i ==> glob(s, wd, args[h]).Ok?
  }

  /** Matching succeeds exactly when every pattern is accepted, and then
      yields every match of every pattern and nothing else. */
  lemma {:induction false} MatchesOk(glob: Glob, s: Store, wd: string, args: seq<string>)
    ensures Matches(glob, s, wd, args).Ok? <==> forall i :: 0 <= i < |args| ==> glob(s, wd, args[i]).Ok?
    ensures Matches(glob, s, wd, args).Ok? ==>
              forall m :: m in Matches(glob, s, wd, args).value <==>
                exists i :: 0 <= i < |args| && m in Hits(glob, s, wd, args[i])
    decreases |args|
  {
    if args != [] {
      MatchesOk(glob, s, wd, args[1..]);
      assert forall i :: 1 <= i < |args| ==> args[i] == args[1..][i - 1];
      if Matches(glob, s, wd, args).Ok? {
        forall m | m in Matches(glob, s, wd, args).value
          ensures exists i :: 0 <= i < |args| && m in Hits(glob, s, wd, args[i])
        {
          if m !in Hits(glob, s, wd, args[0]) {
            var j :| 0 <= j < |args[1..]| && m in Hits(glob, s, wd, args[1..][j]);
            assert m in Hits(glob, s, wd, args[j + 1]);
          }
        }
        forall m, i | 0 <= i < |args| && m in Hits(glob, s, wd, args[i])
          ensures m in Matches(glob, s, wd, args).value
        {
          if i > 0 {
            assert m in Hits(glob, s, wd, args[1..][i - 1]);
          }
        }
      }
    }
  }

  /** A rejected pattern is reported as the first one rejected, with the
      matcher's error. */
  lemma {:induction false} MatchesFail(glob: Glob, s: Store, wd: string, args: seq<string>)
    requires Matches(glob, s, wd, args).Fail?
    ensures exists i :: FirstRejected(glob, s, wd, args, i) &&
              Matches(glob, s, wd, args).err == InvalidPattern(args[i], glob(s, wd, args[i]).err)
    decreases |args|
  {
    if glob(s, wd, args[0]).Fail? {
      assert FirstRejected(glob, s, wd, args, 0);
    } else {
      MatchesFail(glob, s, wd, args[1..]);
      var j :| FirstRejected(glob, s, wd, args[1..], j) &&
               Matches(glob, s, wd, args[1..]).err == InvalidPattern(args[1..][j], glob(s, wd, args[1..][j]).err);
      assert args[j + 1] == args[1..][j];
      assert forall h :: 1 <= h < j + 1 ==> args[h] == args[1..][h - 1];
      assert FirstRejected(glob, s, wd, args, j + 1);
    }
  }

  predicate AllRooted(ms: set<string>)
  {
    forall m :: m in ms ==> Rooted(m)
  }

  lemma {:induction false} MatchesRooted(glob: Glob, s: Store, wd: string, args: seq<string>)
    requires Rooted(wd) && Matches(glob, s, wd, args).Ok?
    ensures AllRooted(Matches(glob, s, wd, args).value)
    decreases |args|
  {
    if args != [] {
      MatchesRooted(glob, s, wd, args[1..]);
      forall m | m in Hits(glob, s, wd, args[0])
        ensures Rooted(m)
      {
        var ms := glob(s, wd, args[0]).value;
        var i :| 0 <= i < |ms| && m == Join(wd, ms[i]);
        JoinRooted(wd, ms[i]);
      }
    }
  }

  lemma FindMatchesRooted(glob: Glob, s: Store, wd: string, args: seq<string>)
    requires Rooted(wd) && FindMatches(glob, s, wd, args).Ok?
    ensures AllRooted(FindMatches(glob, s, wd, args).value)
  {
    if args != [] {
      MatchesRooted(glob, s, wd, args);
    }
  }

  // ---------------------------------------------------------------------
  // Grouping
  // ---------------------------------------------------------------------

  /** A match that is a directory ls can read: it is listed by its entries. */
  predicate Lists(s: Store, m: string)
  {
    Stat(s, m) == Ok(Dir) && ReadDir(s, m).Ok?
  }

  /** A match that exists but is not a directory: listed by its own name. */
  predicate Single(s: Store, m: string)
  {
    Stat(s, m).Ok? && Stat(s, m).value != Dir
  }

  /** The groups the listed directories open, by relative path. */
  function Dirs(s: Store, wd: string, ms: set<string>): set<string>
  {
    set m | m in ms && Rel(wd, m).Some? && Lists(s, m) :: Rel(wd, m).value
  }

  /** The names in group d: the entries of every listed directory whose
      relative path is d, and for ".", the relative paths of the other
      matches.  Matches that vanish or cannot be read are skipped. */
  function Bucket(s: Store, wd: string, ms: set<string>, d: string): set<string>
  {
    (set m, e | m in ms && Lists(s, m) && Rel(wd, m) == Some(d) && e in ReadDir(s, m).value :: e.name)
    + (if d == "." then (set m | m in ms && Rel(wd, m).Some? && Single(s, m) :: Rel(wd, m).value) else {})
  }

  /** The groups: "." always, and one per listed directory. */
  function Groups(s: Store, wd: string, ms: set<string>): map<string, set<string>>
  {
    map d | d in {"."} + Dirs(s, wd, ms) :: Bucket(s, wd, ms, d)
  }

  /** The order the groups are printed in: "." first, the others sorted. */
  function GroupOrder(g: map<string, set<string>>): seq<string>
  {
    ["."] + SortedSet(g.Keys - {"."})
  }

  /** One printed group: its relative path and the rows of its names. */
  datatype Section = Section(dir: string, rows: seq<Row>)

  /** The rows of the names that still stat, in the order of names. */
  function RowsOf(stat: StatFn, base: string, names: seq<string>): seq<Row>
    decreases |names|
  {
    if names == [] then []
    else
      var row := match stat(Join(base, names[0]))
                 case Ok(n) => [Row(names[0], n)]
                 case Fail(_) => [];
      row + RowsOf(stat, base, names[1..])
  }

  /** The non-empty groups among ds, in the order of ds. */
  function SectionsOf(stat: StatFn, wd: string, g: map<string, set<string>>, ds: seq<string>): seq<Section>
    requires forall i :: 0 <= i < |ds| ==> ds[i] in g
    decreases |ds|
  {
    if ds == [] then []
    else
      var b := g[ds[0]];
      (if b == {} then [] else [Section(ds[0], RowsOf(stat, Join(wd, ds[0]), SortedSet(b)))])
      + SectionsOf(stat, wd, g, ds[1..])
  }

  function Sections(s: Store, wd: string, ms: set<string>): seq<Section>
  {
    var g := Groups(s, wd, ms);
    assert forall i :: 0 <= i < |GroupOrder(g)| ==> GroupOrder(g)[i] in g by {
      forall i | 0 <= i < |GroupOrder(g)|
        ensures GroupOrder(g)[i] in g
      {
        if i > 0 {
          assert GroupOrder(g)[i] in SortedSet(g.Keys - {"."});
        }
      }
    }
    SectionsOf(StatOf(s), wd, g, GroupOrder(g))
  }

  /** Every group but "." gets a "dir:" header; every group ends with a
      newline after the formatter's output. */
  function Render(env: Env, secs: seq<Section>): string
    decreases |secs|
  {
    if secs == [] then []
    else
      (if secs[0].dir != "." then secs[0].dir + ":\n" else [])
      + env.format(env.width, secs[0].rows) + "\n"
      + Render(env, secs[1..])
  }

  function Ls(env: Env, glob: Glob, s: Store, wd: string, args: seq<string>): Res<string>
  {
    match FindMatches(glob, s, wd, args)
    case Fail(e) => Fail(e)
    case Ok(ms) => Ok(Render(env, Sections(s, wd, ms)))
  }

  /** ls (remote side) and lls (local side). */
  function LsCmd(env: Env, sh: Shell, side: Side, args: seq<string>): Reply
  {
    var glob := if side == Remote then env.remoteGlob else env.localGlob;
    match Ls(env, glob, Fs(sh, side), WD(sh, side), args)
    case Fail(e) => Refuse(sh, e)
    case Ok(out) => Reply(sh, [], out, None)
  }

  /** Matching fails exactly when some pattern is rejected. */
  lemma FindMatchesFail(glob: Glob, s: Store, wd: string, args: seq<string>)
    ensures FindMatches(glob, s, wd, args).Fail? <==> exists i :: FirstRejected(glob, s, wd, args, i)
  {
    if args != [] {
      MatchesOk(glob, s, wd, args);
      if Matches(glob, s, wd, args).Fail? {
        MatchesFail(glob, s, wd, args);
      }
    }
  }

  /** ls only reads: it fails exactly when a pattern is rejected, and it
      never changes the shell or writes a log line. */
  lemma LsCmdShape(env: Env, sh: Shell, side: Side, args: seq<string>)
    ensures var r := LsCmd(env, sh, side, args);
            var glob := if side == Remote then env.remoteGlob else env.localGlob;
            && r.shell == sh && r.log == []
            && (r.err.Some? <==> exists i :: FirstRejected(glob, Fs(sh, side), WD(sh, side), args, i))
  {
    var glob := if side == Remote then env.remoteGlob else env.localGlob;
    FindMatchesFail(glob, Fs(sh, side), WD(sh, side), args);
  }

  // ---------------------------------------------------------------------
  // Order of the output
  // ---------------------------------------------------------------------

  function RowNames(rows: seq<Row>): (r: seq<string>)
    ensures |r| == |rows| && forall i :: 0 <= i < |rows| ==> r[i] == rows[i].name
  {
    seq(|rows|, i requires 0 <= i < |rows| => rows[i].name)
  }

  function SectionDirs(secs: seq<Section>): (r: seq<string>)
    ensures |r| == |secs| && forall i :: 0 <= i < |secs| ==> r[i] == secs[i].dir
  {
    seq(|secs|, i requires 0 <= i < |secs| => secs[i].dir)
  }

  /** The rows of a group are the names that stat, each with what stat
      reported. */
  lemma {:induction false} RowsMembers(stat: StatFn, base: string, names: seq<string>)
    ensures forall r :: r in RowsOf(stat, base, names) <==> r.name in names && stat(Join(base, r.name)) == Ok(r.node)
    decreases |names|
  {
    if names != [] {
      RowsMembers(stat, base, names[1..]);
      assert forall x :: x in names <==> x == names[0] || x in names[1..];
    }
  }

  /** The rows keep the order of the names. */
  lemma {:induction false} RowsSublist(stat: StatFn, base: string, names: seq<string>)
    ensures Sublist(RowNames(RowsOf(stat, base, names)), names)
    decreases |names|
  {
    if names != [] {
      RowsSublist(stat, base, names[1..]);
      RowsHead(stat, base, names);
      var rest := RowNames(RowsOf(stat, base, names[1..]));
      if stat(Join(base, names[0])).Ok? {
        SublistTake(names[0], rest, names);
      } else {
        assert [] + rest == rest;
        SublistSkip(rest, names);
      }
    }
  }

  lemma RowsHead(stat: StatFn, base: string, names: seq<string>)
    requires names != []
    ensures RowNames(RowsOf(stat, base, names))
            == (if stat(Join(base, names[0])).Ok? then [names[0]] else []) + RowNames(RowsOf(stat, base, names[1..]))
  {
    var h := match stat(Join(base, names[0]))
             case Ok(n) => [Row(names[0], n)]
             case Fail(_) => [];
    assert RowsOf(stat, base, names) == h + RowsOf(stat, base, names[1..]);
    RowNamesAppend(h, RowsOf(stat, base, names[1..]));
  }

  lemma RowNamesAppend(a: seq<Row>, b: seq<Row>)
    ensures RowNames(a + b) == RowNames(a) + RowNames(b)
  {
  }

  predicate InGroups(g: map<string, set<string>>, ds: seq<string>)
  {
    forall i :: 0 <= i < |ds| ==> ds[i] in g
  }

  /** The groups printed from ds are those of ds with a non-empty bucket. */
  lemma {:induction false} SectionsOfMembers(stat: StatFn, wd: string, g: map<string, set<string>>, ds: seq<string>)
    requires InGroups(g, ds)
    ensures forall d :: d in SectionDirs(SectionsOf(stat, wd, g, ds)) <==> d in ds && g[d] != {}
    decreases |ds|
  {
    if ds != [] {
      SectionsOfMembers(stat, wd, g, ds[1..]);
      SectionsHead(stat, wd, g, ds);
      assert forall x :: x in ds <==> x == ds[0] || x in ds[1..];
    }
  }

  /** ... and they keep the order of ds. */
  lemma {:induction false} SectionsOfSublist(stat: StatFn, wd: string, g: map<string, set<string>>, ds: seq<string>)
    requires InGroups(g, ds)
    ensures Sublist(SectionDirs(SectionsOf(stat, wd, g, ds)), ds)
    decreases |ds|
  {
    if ds != [] {
      SectionsOfSublist(stat, wd, g, ds[1..]);
      SectionsHead(stat, wd, g, ds);
      var rest := SectionDirs(SectionsOf(stat, wd, g, ds[1..]));
      if g[ds[0]] == {} {
        assert [] + rest == rest;
        SublistSkip(rest, ds);
      } else {
        SublistTake(ds[0], rest, ds);
      }
    }
  }

  lemma SectionsHead(stat: StatFn, wd: string, g: map<string, set<string>>, ds: seq<string>)
    requires InGroups(g, ds) && ds != []
    ensures SectionDirs(SectionsOf(stat, wd, g, ds))
            == (if g[ds[0]] == {} then [] else [ds[0]]) + SectionDirs(SectionsOf(stat, wd, g, ds[1..]))
  {
    var b := g[ds[0]];
    var h := if b == {} then [] else [Section(ds[0], RowsOf(stat, Join(wd, ds[0]), SortedSet(b)))];
    assert SectionsOf(stat, wd, g, ds) == h + SectionsOf(stat, wd, g, ds[1..]);
    SectionDirsAppend(h, SectionsOf(stat, wd, g, ds[1..]));
  }

  lemma SectionDirsAppend(a: seq<Section>, b: seq<Section>)
    ensures SectionDirs(a + b) == SectionDirs(a) + SectionDirs(b)
  {
  }

  /** The groups other than "." that have something to print. */
  function Others(g: map<string, set<string>>): set<string>
  {
    set d | d in g && d != "." && g[d] != {}
  }

  lemma OrderInGroups(g: map<string, set<string>>)
    requires "." in g
    ensures InGroups(g, GroupOrder(g))
    ensures InGroups(g, SortedSet(g.Keys - {"."}))
  {
    var t := SortedSet(g.Keys - {"."});
    assert forall i :: 0 <= i < |t| ==> t[i] in t;
    assert GroupOrder(g) == ["."] + t;
  }

  /** The group "." comes first when it has anything in it; the other
      non-empty groups follow in increasing order, each exactly once. */
  lemma SectionOrder(stat: StatFn, wd: string, g: map<string, set<string>>)
    requires "." in g
    ensures InGroups(g, GroupOrder(g))
    ensures SectionDirs(SectionsOf(stat, wd, g, GroupOrder(g)))
            == (if g["."] != {} then ["."] else []) + SortedSet(Others(g))
  {
    OrderInGroups(g);
    var tail := SortedSet(g.Keys - {"."});
    TailDirs(stat, wd, g, tail);
    SortedUnique(SectionDirs(SectionsOf(stat, wd, g, tail)), SortedSet(Others(g)));
    assert GroupOrder(g) == ["."] + tail;
    DotFirst(stat, wd, g, tail);
  }

  lemma DotFirst(stat: StatFn, wd: string, g: map<string, set<string>>, t: seq<string>)
    requires "." in g && InGroups(g, t)
    ensures InGroups(g, ["."] + t)
    ensures SectionDirs(SectionsOf(stat, wd, g, ["."] + t))
            == (if g["."] != {} then ["."] else []) + SectionDirs(SectionsOf(stat, wd, g, t))
  {
    assert (["."] + t)[1..] == t;
  }

  lemma TailDirs(stat: StatFn, wd: string, g: map<string, set<string>>, tail: seq<string>)
    requires tail == SortedSet(g.Keys - {"."}) && InGroups(g, tail)
    ensures StrictlySorted(SectionDirs(SectionsOf(stat, wd, g, tail)))
    ensures forall d :: d in SectionDirs(SectionsOf(stat, wd, g, tail)) <==> d in Others(g)
  {
    SectionsOfSublist(stat, wd, g, tail);
    SublistSorted(SectionDirs(SectionsOf(stat, wd, g, tail)), tail);
    SectionsOfMembers(stat, wd, g, tail);
  }

  /** A group is printed exactly when it has something in it. */
  lemma ShownIff(stat: StatFn, wd: string, g: map<string, set<string>>, d: string)
    requires "." in g && d in g
    ensures InGroups(g, GroupOrder(g))
    ensures d in SectionDirs(SectionsOf(stat, wd, g, GroupOrder(g))) <==> g[d] != {}
  {
    OrderInGroups(g);
    SectionsOfMembers(stat, wd, g, GroupOrder(g));
    if d != "." {
      assert d in SortedSet(g.Keys - {"."});
    }
  }

  /** With "." the only group, it is all ls can print. */
  lemma OnlyDot(stat: StatFn, wd: string, g: map<string, set<string>>)
    requires g.Keys == {"."}
    ensures InGroups(g, GroupOrder(g))
    ensures SectionDirs(SectionsOf(stat, wd, g, GroupOrder(g))) == (if g["."] != {} then ["."] else [])
  {
    OrderInGroups(g);
    assert g.Keys - {"."} == {};
    assert GroupOrder(g) == ["."];
  }

  /** Each printed group is non-empty, and its rows are the names of its
      bucket that stat (relative to the group's directory). */
  lemma {:induction false} SectionsRows(stat: StatFn, wd: string, g: map<string, set<string>>, ds: seq<string>)
    requires InGroups(g, ds)
    ensures forall sec :: sec in SectionsOf(stat, wd, g, ds) ==>
              && sec.dir in g && g[sec.dir] != {}
              && forall r :: r in sec.rows <==>
                   r.name in g[sec.dir] && stat(Join(Join(wd, sec.dir), r.name)) == Ok(r.node)
    decreases |ds|
  {
    if ds != [] {
      SectionsRows(stat, wd, g, ds[1..]);
      if g[ds[0]] != {} {
        RowsMembers(stat, Join(wd, ds[0]), SortedSet(g[ds[0]]));
      }
    }
  }

  /** Every printed group lists its rows in increasing order of name. */
  lemma {:induction false} SectionsSorted(stat: StatFn, wd: string, g: map<string, set<string>>, ds: seq<string>)
    requires InGroups(g, ds)
    ensures forall sec :: sec in SectionsOf(stat, wd, g, ds) ==> StrictlySorted(RowNames(sec.rows))
    decreases |ds|
  {
    if ds != [] {
      SectionsSorted(stat, wd, g, ds[1..]);
      if g[ds[0]] != {} {
        RowsSublist(stat, Join(wd, ds[0]), SortedSet(g[ds[0]]));
        SublistSorted(RowNames(RowsOf(stat, Join(wd, ds[0]), SortedSet(g[ds[0]]))), SortedSet(g[ds[0]]));
      }
    }
  }

  /** Every group ls prints is sorted by name. */
  lemma LsSorted(s: Store, wd: string, ms: set<string>)
    ensures forall sec :: sec in Sections(s, wd, ms) ==> StrictlySorted(RowNames(sec.rows))
  {
    var g := Groups(s, wd, ms);
    OrderInGroups(g);
    SectionsSorted(StatOf(s), wd, g, GroupOrder(g));
  }

  // ---------------------------------------------------------------------
  // What a listed directory shows
  // ---------------------------------------------------------------------

  /** Two matches with the same relative path name the same key. */
  lemma SameRel(wd: string, m1: string, m2: string)
    requires Rooted(wd) && Rooted(m1) && Rooted(m2) && Rel(wd, m1) == Rel(wd, m2)
    ensures KeyOf(m1) == KeyOf(m2)
  {
    RelThenJoin(wd, m1);
    RelThenJoin(wd, m2);
  }

  /** The entries of the directories listed under d. */
  function DirPart(s: Store, wd: string, ms: set<string>, d: string): set<string>
  {
    set m, e | m in ms && Lists(s, m) && Rel(wd, m) == Some(d) && e in ReadDir(s, m).value :: e.name
  }

  lemma BucketParts(s: Store, wd: string, ms: set<string>, d: string)
    requires d == "." ==> forall m' :: m' in ms ==> !Single(s, m')
    ensures Bucket(s, wd, ms, d) == DirPart(s, wd, ms, d)
  {
  }

  /** The bucket of a listed directory (other than ".", or "." when no
      match is listed by its own name) holds exactly its children. */
  lemma BucketOfDir(s: Store, wd: string, ms: set<string>, m: string)
    requires Rooted(wd) && AllRooted(ms) && m in ms && Lists(s, m)
    requires Rel(wd, m).Some?
    requires Rel(wd, m).value == "." ==> forall m' :: m' in ms ==> !Single(s, m')
    ensures Rel(wd, m).value in Groups(s, wd, ms)
    ensures Groups(s, wd, ms)[Rel(wd, m).value] == Children(s.nodes, KeyOf(m))
  {
    var d := Rel(wd, m).value;
    assert d in Dirs(s, wd, ms);
    BucketParts(s, wd, ms, d);
    DirPartSub(s, wd, ms, m);
    DirPartSup(s, wd, ms, m);
  }

  lemma DirPartSub(s: Store, wd: string, ms: set<string>, m: string)
    requires Rooted(wd) && AllRooted(ms) && m in ms && Lists(s, m) && Rel(wd, m).Some?
    ensures DirPart(s, wd, ms, Rel(wd, m).value) <= Children(s.nodes, KeyOf(m))
  {
    var d := Rel(wd, m).value;
    var k := KeyOf(m);
    ListingHas(s.nodes, k);
    forall n | n in DirPart(s, wd, ms, d)
      ensures n in Children(s.nodes, k)
    {
      var m', e :| m' in ms && Lists(s, m') && Rel(wd, m') == Some(d) && e in ReadDir(s, m').value && n == e.name;
      SameRel(wd, m, m');
      ChildrenSpec(s.nodes, k, n);
    }
  }

  lemma DirPartSup(s: Store, wd: string, ms: set<string>, m: string)
    requires m in ms && Lists(s, m) && Rel(wd, m).Some?
    ensures Children(s.nodes, KeyOf(m)) <= DirPart(s, wd, ms, Rel(wd, m).value)
  {
    var k := KeyOf(m);
    forall n | n in Children(s.nodes, k)
      ensures n in DirPart(s, wd, ms, Rel(wd, m).value)
    {
      ChildrenSpec(s.nodes, k, n);
      ListingEntry(s.nodes, k, n);
      var e := Entry(n, s.nodes[k + [n]]);
      assert e in ReadDir(s, m).value;
    }
  }

  /** The rows of a listed directory's group are looked up at the keys of
      its children. */
  lemma RowKey(s: Store, wd: string, m: string, n: string)
    requires Rooted(wd) && Rooted(m) && WF(s) && KeyOf(m) + [n] in s.nodes
    ensures Rel(wd, m).Some?
    ensures KeyOf(Join(Join(wd, Rel(wd, m).value), n)) == KeyOf(m) + [n]
  {
    RelThenJoin(wd, m);
    var base := Join(wd, Rel(wd, m).value);
    JoinRooted(wd, Rel(wd, m).value);
    assert Simple(KeyOf(m) + [n]);
    assert (KeyOf(m) + [n])[|KeyOf(m)|] == n;
    JoinChild(base, n);
  }

  /** A child of a readable directory gets a row exactly when it is among
      the directory's entries and stat is not refused on it. */
  lemma EntryRow(s: Store, wd: string, m: string, n: string, node: Node)
    requires Rooted(wd) && Rooted(m) && WF(s) && Lists(s, m)
    ensures Rel(wd, m).Some?
    ensures n in Children(s.nodes, KeyOf(m)) && Stat(s, Join(Join(wd, Rel(wd, m).value), n)) == Ok(node)
            <==> Entry(n, node) in ReadDir(s, m).value && Fault(StatOp, KeyOf(m) + [n]) !in s.faults
  {
    var k := KeyOf(m);
    RelThenJoin(wd, m);
    ListingHas(s.nodes, k);
    ChildrenSpec(s.nodes, k, n);
    if k + [n] in s.nodes {
      RowKey(s, wd, m, n);
      ListingEntry(s.nodes, k, n);
    }
  }

  lemma ChildrenNonEmpty(nodes: map<Key, Node>, k: Key)
    ensures Children(nodes, k) != {} <==> Listing(nodes, k) != []
  {
    ListingHas(nodes, k);
    if Listing(nodes, k) != [] {
      assert Listing(nodes, k)[0] in Listing(nodes, k);
      ChildrenSpec(nodes, k, Listing(nodes, k)[0].name);
    }
    if Children(nodes, k) != {} {
      var n :| n in Children(nodes, k);
      ChildrenSpec(nodes, k, n);
      ListingEntry(nodes, k, n);
    }
  }

  /** A listed directory's group is printed exactly when the directory has
      entries. */
  lemma ListedShown(s: Store, wd: string, ms: set<string>, m: string)
    requires Rooted(wd) && AllRooted(ms) && m in ms && Lists(s, m)
    requires Rel(wd, m).Some?
    requires Rel(wd, m).value == "." ==> forall m' :: m' in ms ==> !Single(s, m')
    ensures Rel(wd, m).value in SectionDirs(Sections(s, wd, ms)) <==> ReadDir(s, m).value != []
  {
    var g := Groups(s, wd, ms);
    BucketOfDir(s, wd, ms, m);
    ChildrenNonEmpty(s.nodes, KeyOf(m));
    ShownIff(StatOf(s), wd, g, Rel(wd, m).value);
  }

  /** What ls prints for a readable directory it matched: a group under
      the directory's relative path, present exactly when the directory
      has entries, whose rows are its entries that stat does not refuse,
      each with its node. */
  lemma ListedDirectory(s: Store, wd: string, ms: set<string>, m: string)
    requires Rooted(wd) && AllRooted(ms) && WF(s) && m in ms && Lists(s, m)
    requires Rel(wd, m).Some?
    requires Rel(wd, m).value == "." ==> forall m' :: m' in ms ==> !Single(s, m')
    ensures var d := Rel(wd, m).value;
            var secs := Sections(s, wd, ms);
            && (d in SectionDirs(secs) <==> ReadDir(s, m).value != [])
            && forall sec, r :: sec in secs && sec.dir == d ==>
                 (r in sec.rows <==>
                    Entry(r.name, r.node) in ReadDir(s, m).value && Fault(StatOp, KeyOf(m) + [r.name]) !in s.faults)
  {
    var d := Rel(wd, m).value;
    var g := Groups(s, wd, ms);
    ListedShown(s, wd, ms, m);
    BucketOfDir(s, wd, ms, m);
    OrderInGroups(g);
    SectionsRows(StatOf(s), wd, g, GroupOrder(g));
    forall sec, r | sec in Sections(s, wd, ms) && sec.dir == d
      ensures r in sec.rows <==>
                Entry(r.name, r.node) in ReadDir(s, m).value && Fault(StatOp, KeyOf(m) + [r.name]) !in s.faults
    {
      EntryRow(s, wd, m, r.name, r.node);
    }
  }

  /** ls without arguments lists the working directory: at most the one
      group ".", printed only when the directory has entries, holding its
      entries that stat does not refuse. */
  lemma LsHere(s: Store, wd: string)
    requires Rooted(wd) && WF(s) && Lists(s, wd)
    ensures var secs := Sections(s, wd, {wd});
            && |secs| <= 1
            && (secs == [] <==> ReadDir(s, wd).value == [])
            && forall sec, r :: sec in secs ==>
                 && sec.dir == "."
                 && (r in sec.rows <==>
                       Entry(r.name, r.node) in ReadDir(s, wd).value && Fault(StatOp, KeyOf(wd) + [r.name]) !in s.faults)
  {
    HereShape(s, wd);
    HereRows(s, wd);
  }

  lemma HereShape(s: Store, wd: string)
    requires Rooted(wd) && WF(s) && Lists(s, wd)
    ensures var secs := Sections(s, wd, {wd});
            && |secs| <= 1
            && (secs == [] <==> ReadDir(s, wd).value == [])
            && forall sec :: sec in secs ==> sec.dir == "."
  {
    RelJoinSame(wd, wd);
    assert AllRooted({wd});
    ListedShown(s, wd, {wd}, wd);
    HereGroups(s, wd);
    var secs := Sections(s, wd, {wd});
    forall sec | sec in secs
      ensures sec.dir == "."
    {
      var i :| 0 <= i < |secs| && secs[i] == sec;
      assert SectionDirs(secs)[i] == sec.dir;
    }
  }

  lemma HereRows(s: Store, wd: string)
    requires Rooted(wd) && WF(s) && Lists(s, wd)
    ensures forall sec, r :: sec in Sections(s, wd, {wd}) && sec.dir == "." ==>
              (r in sec.rows <==>
                 Entry(r.name, r.node) in ReadDir(s, wd).value && Fault(StatOp, KeyOf(wd) + [r.name]) !in s.faults)
  {
    RelJoinSame(wd, wd);
    assert AllRooted({wd});
    ListedDirectory(s, wd, {wd}, wd);
  }

  lemma HereGroups(s: Store, wd: string)
    requires Rooted(wd) && Lists(s, wd) && Rel(wd, wd) == Some(".")
    ensures SectionDirs(Sections(s, wd, {wd})) == (if Groups(s, wd, {wd})["."] != {} then ["."] else [])
  {
    HereKeys(s, wd);
    OnlyDot(StatOf(s), wd, Groups(s, wd, {wd}));
  }

  lemma HereKeys(s: Store, wd: string)
    requires Lists(s, wd) && Rel(wd, wd) == Some(".")
    ensures Groups(s, wd, {wd}).Keys == {"."}
  {
    var ds := Dirs(s, wd, {wd});
    forall x | x in ds
      ensures x == "."
    {
      var m :| m in {wd} && Rel(wd, m).Some? && Lists(s, m) && x == Rel(wd, m).value;
      assert m == wd;
    }
    assert "." in ds by {
      assert wd in {wd};
    }
    assert ds == {"."};
  }
}

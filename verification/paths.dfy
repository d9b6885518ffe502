/** Lexical path algebra: the parts of Go's `path/filepath` the shell uses
    (Clean, Join, Base, Dir, Rel on a Unix system) and the shell's own
    `join`, `base` and `candidate` (sftpshell.go).  Nothing here consults a
    filesystem.

    A path string is read as a `Path`: whether it starts at the root, and its
    list of elements after Go's Clean has resolved `.`, `..` and repeated
    separators. */
module Paths {
  import opened Text
  import opened Outcomes

  const Sep: char := '/'

  // ---------------------------------------------------------------------
  // Splitting on the separator and joining with it
  // ---------------------------------------------------------------------

  /** The pieces of s between separators: "a//b" has an empty middle piece
      and "/a" an empty first one. */
  function Split(s: string): (r: seq<string>)
    ensures |r| >= 1
  {
    if s == [] then [[]]
    else
      var t := Split(s[1..]);
      if s[0] == Sep then [[]] + t
      else [[s[0]] + t[0]] + t[1..]
  }

  lemma {:induction false} SplitPieces(s: string)
    ensures NoSep(Split(s))
  {
    if s != [] {
      SplitPieces(s[1..]);
    }
  }

  lemma {:induction false} SplitConcat(a: string, b: string)
    ensures Split(a + [Sep] + b) == Split(a) + Split(b)
  {
    if a == [] {
      assert a + [Sep] + b == [Sep] + b;
      assert ([Sep] + b)[1..] == b;
    } else {
      assert (a + [Sep] + b)[1..] == a[1..] + [Sep] + b;
      SplitConcat(a[1..], b);
    }
  }

  lemma {:induction false} SplitNoSep(s: string)
    requires Sep !in s
    ensures Split(s) == [s]
  {
    if s != [] {
      SplitNoSep(s[1..]);
      assert [s[0]] + s[1..] == s;
    }
  }

  /** strings.Join(cs, "/"). */
  function JoinWith(cs: seq<string>): string
  {
    if |cs| == 0 then []
    else if |cs| == 1 then cs[0]
    else cs[0] + [Sep] + JoinWith(cs[1..])
  }

  predicate NoSep(cs: seq<string>)
  {
    forall i :: 0 <= i < |cs| ==> Sep !in cs[i]
  }

  /** Splitting undoes joining. */
  lemma {:induction false} SplitJoin(cs: seq<string>)
    requires |cs| >= 1 && NoSep(cs)
    ensures Split(JoinWith(cs)) == cs
  {
    SplitNoSep(cs[0]);
    if |cs| > 1 {
      SplitJoin(cs[1..]);
      SplitConcat(cs[0], JoinWith(cs[1..]));
      assert cs == [cs[0]] + cs[1..];
    }
  }

  lemma {:induction false} JoinWithConcat(a: seq<string>, b: seq<string>)
    requires |a| >= 1 && |b| >= 1
    ensures JoinWith(a + b) == JoinWith(a) + [Sep] + JoinWith(b)
  {
    if |a| == 1 {
      assert (a + b)[1..] == b;
    } else {
      assert (a + b)[1..] == a[1..] + b;
      JoinWithConcat(a[1..], b);
    }
  }

  lemma JoinWithStart(cs: seq<string>)
    requires |cs| >= 1 && |cs[0]| >= 1
    ensures |JoinWith(cs)| >= 1 && JoinWith(cs)[0] == cs[0][0]
  {
  }

  lemma {:induction false} JoinWithEnd(cs: seq<string>)
    requires |cs| >= 1 && |cs[|cs| - 1]| >= 1
    ensures |JoinWith(cs)| >= 1
    ensures JoinWith(cs)[|JoinWith(cs)| - 1] == cs[|cs| - 1][|cs[|cs| - 1]| - 1]
  {
    if |cs| > 1 {
      JoinWithEnd(cs[1..]);
    }
  }

  // ---------------------------------------------------------------------
  // Clean
  // ---------------------------------------------------------------------

  /** A piece Clean keeps as an element. */
  predicate Element(c: string)
  {
    c != [] && c != "." && Sep !in c
  }

  /** The pieces that name something: empty pieces and "." are dropped. */
  function Keep(cs: seq<string>): (r: seq<string>)
  {
    if cs == [] then []
    else (if cs[0] == [] || cs[0] == "." then [] else [cs[0]]) + Keep(cs[1..])
  }

  lemma {:induction false} KeepAppend(a: seq<string>, b: seq<string>)
    ensures Keep(a + b) == Keep(a) + Keep(b)
  {
    if a != [] {
      assert (a + b)[1..] == a[1..] + b;
      KeepAppend(a[1..], b);
    } else {
      assert a + b == b;
    }
  }

  lemma {:induction false} KeepElements(cs: seq<string>)
    requires AllElements(cs)
    ensures Keep(cs) == cs
  {
    if cs != [] {
      KeepElements(cs[1..]);
    }
  }

  lemma {:induction false} KeepKept(cs: seq<string>)
    requires NoSep(cs)
    ensures AllElements(Keep(cs))
  {
    if cs != [] {
      KeepKept(cs[1..]);
    }
  }

  predicate AllElements(cs: seq<string>)
  {
    forall i :: 0 <= i < |cs| ==> Element(cs[i])
  }

  /** The elements of a path string, before `..` is resolved. */
  function Elements(s: string): seq<string>
  {
    Keep(Split(s))
  }

  lemma ElementsAreElements(s: string)
    ensures AllElements(Elements(s))
  {
    SplitPieces(s);
    KeepKept(Split(s));
  }

  /** One step of Clean: `..` backs up over a preceding element, is dropped
      at the root of a rooted path, and is kept at the front of a relative
      one; any other element is appended. */
  function Push(stack: seq<string>, c: string, rooted: bool): seq<string>
  {
    if c == ".." then
      if |stack| > 0 && stack[|stack| - 1] != ".." then stack[..|stack| - 1]
      else if rooted then stack
      else stack + [".."]
    else stack + [c]
  }

  /** The elements left after resolving every `..` from left to right. */
  function Resolve(rooted: bool, cs: seq<string>): seq<string>
    decreases |cs|
  {
    if cs == [] then []
    else Push(Resolve(rooted, cs[..|cs| - 1]), cs[|cs| - 1], rooted)
  }

  /** The element lists Clean can produce: no empty piece, no ".", no ".."
      in a rooted path, and ".." only at the front of a relative one. */
  predicate Normal(rooted: bool, cs: seq<string>)
  {
    && AllElements(cs)
    && (rooted ==> forall i :: 0 <= i < |cs| ==> cs[i] != "..")
    && (forall i, j :: 0 <= i < j < |cs| && cs[j] == ".." ==> cs[i] == "..")
  }

  lemma {:induction false} ResolveIsNormal(rooted: bool, cs: seq<string>)
    requires AllElements(cs)
    ensures Normal(rooted, Resolve(rooted, cs))
    decreases |cs|
  {
    if cs != [] {
      ResolveIsNormal(rooted, cs[..|cs| - 1]);
    }
  }

  /** Resolving an element list that is already normal changes nothing. */
  lemma {:induction false} ResolveNormal(rooted: bool, cs: seq<string>)
    requires Normal(rooted, cs)
    ensures Resolve(rooted, cs) == cs
    decreases |cs|
  {
    if cs != [] {
      var init := cs[..|cs| - 1];
      ResolveNormal(rooted, init);
      assert cs == init + [cs[|cs| - 1]];
    }
  }

  /** Resolving a prefix first does not change the result. */
  lemma {:induction false} ResolveAppend(rooted: bool, a: seq<string>, b: seq<string>)
    requires AllElements(a)
    ensures Resolve(rooted, a + b) == Resolve(rooted, Resolve(rooted, a) + b)
    decreases |b|
  {
    if b == [] {
      assert a + b == a;
      assert Resolve(rooted, a) + b == Resolve(rooted, a);
      ResolveIsNormal(rooted, a);
      ResolveNormal(rooted, Resolve(rooted, a));
    } else {
      var b', c := b[..|b| - 1], b[|b| - 1];
      var r := Resolve(rooted, a);
      ResolveAppend(rooted, a, b');
      assert b == b' + [c];
      AppendAssoc(a, b', [c]);
      AppendAssoc(r, b', [c]);
      ResolveStep(rooted, a + b', c);
      ResolveStep(rooted, r + b', c);
    }
  }

  /** Appending a plain element to a resolved list just extends it. */
  lemma ResolveSnoc(rooted: bool, cs: seq<string>, n: string)
    requires n != ".."
    ensures Resolve(rooted, cs + [n]) == Resolve(rooted, cs) + [n]
  {
    assert (cs + [n])[..|cs|] == cs;
  }

  /** A plain element may follow any normal list. */
  lemma NormalSnoc(rooted: bool, cs: seq<string>, n: string)
    requires Normal(rooted, cs) && Element(n) && n != ".."
    ensures Normal(rooted, cs + [n])
  {
  }

  /** Backing up over a plain last element removes it. */
  lemma ResolveDotDot(rooted: bool, cs: seq<string>)
    requires Normal(rooted, cs) && cs != [] && cs[|cs| - 1] != ".."
    ensures Resolve(rooted, cs + [".."]) == cs[..|cs| - 1]
  {
    assert (cs + [".."])[..|cs|] == cs;
    ResolveNormal(rooted, cs);
  }

  /** How a path string is read. */
  datatype Path = Path(rooted: bool, comps: seq<string>)

  predicate Rooted(s: string)
  {
    |s| > 0 && s[0] == Sep
  }

  function Parse(s: string): (p: Path)
    ensures p.rooted == Rooted(s)
  {
    Path(Rooted(s), Resolve(Rooted(s), Elements(s)))
  }

  lemma ParseNormal(s: string)
    ensures Normal(Parse(s).rooted, Parse(s).comps)
  {
    ElementsAreElements(s);
    ResolveIsNormal(Rooted(s), Elements(s));
  }

  /** The textual form of a path: "/" for the root, "." for the empty
      relative path. */
  function Render(p: Path): string
  {
    if p.rooted then [Sep] + JoinWith(p.comps)
    else if p.comps == [] then "."
    else JoinWith(p.comps)
  }

  /** Reading back a rendered normal path gives the same path. */
  lemma RenderParse(p: Path)
    requires Normal(p.rooted, p.comps)
    ensures Parse(Render(p)) == p
  {
    if p.rooted {
      RenderParseRooted(p.comps);
    } else if p.comps == [] {
      SplitNoSep(".");
      assert Elements(".") == [];
    } else {
      RenderParseRelative(p.comps);
    }
  }

  lemma RenderParseRooted(cs: seq<string>)
    requires Normal(true, cs)
    ensures Parse([Sep] + JoinWith(cs)) == Path(true, cs)
  {
    var s := [Sep] + JoinWith(cs);
    SplitConcat([], JoinWith(cs));
    assert s == [] + [Sep] + JoinWith(cs);
    assert Split(s) == [[]] + Split(JoinWith(cs));
    if cs == [] {
      assert Split(s) == [[], []];
      assert Keep([[], []]) == [];
    } else {
      SplitJoin(cs);
      KeepAppend([[]], cs);
      KeepElements(cs);
      assert Elements(s) == cs;
      ResolveNormal(true, cs);
    }
  }

  lemma RenderParseRelative(cs: seq<string>)
    requires Normal(false, cs) && cs != []
    ensures Parse(JoinWith(cs)) == Path(false, cs)
  {
    JoinWithStart(cs);
    assert !Rooted(JoinWith(cs));
    SplitJoin(cs);
    KeepElements(cs);
    assert Elements(JoinWith(cs)) == cs;
    ResolveNormal(false, cs);
  }
  /** filepath.Clean: the shortest path string naming the same path. */
  function Clean(s: string): string
  {
    Render(Parse(s))
  }

  /** Cleaning does not change the path a string names. */
  lemma CleanParse(s: string)
    ensures Parse(Clean(s)) == Parse(s)
  {
    ParseNormal(s);
    RenderParse(Parse(s));
  }

  /** Cleaning a clean path changes nothing. */
  lemma CleanIdempotent(s: string)
    ensures Clean(Clean(s)) == Clean(s)
  {
    CleanParse(s);
  }

  /** Clean never yields the empty string: the empty path is ".". */
  lemma CleanNonEmpty(s: string)
    ensures Clean(s) != []
  {
    ParseNormal(s);
    RenderNonEmpty(Parse(s));
  }

  /** Elements of "a/b" are those of a followed by those of b. */
  lemma ElementsConcat(a: string, b: string)
    ensures Elements(a + [Sep] + b) == Elements(a) + Elements(b)
  {
    SplitConcat(a, b);
    KeepAppend(Split(a), Split(b));
  }

  lemma ElementsTrailingSep(a: string)
    ensures Elements(a + [Sep]) == Elements(a)
  {
    ElementsConcat(a, []);
    assert a + [Sep] + [] == a + [Sep];
    assert Keep([[]]) == [];
  }

  /** A separator at the end of a non-empty path does not change what it names. */
  lemma ParseTrailingSep(s: string)
    requires s != []
    ensures Parse(s + [Sep]) == Parse(s)
  {
    ElementsTrailingSep(s);
    assert Rooted(s + [Sep]) == Rooted(s);
  }

  /** Reading "a/b": b's elements are resolved on top of a's path. */
  lemma ParseConcat(a: string, b: string)
    requires a != []
    ensures Parse(a + [Sep] + b) == Path(Rooted(a), Resolve(Rooted(a), Parse(a).comps + Elements(b)))
  {
    ElementsConcat(a, b);
    assert Rooted(a + [Sep] + b) == Rooted(a);
    ElementsAreElements(a);
    ResolveAppend(Rooted(a), Elements(a), Elements(b));
  }

  /** A single piece without separator is its own element list. */
  lemma ElementsOfName(n: string)
    requires Element(n)
    ensures Elements(n) == [n]
  {
    SplitNoSep(n);
    assert Keep([n]) == [n];
  }

  lemma ElementsOfDot()
    ensures Elements(".") == []
  {
    SplitNoSep(".");
  }

  lemma ElementsOfEmpty()
    ensures Elements([]) == []
  {
    assert Keep([[]]) == [];
  }

  lemma ElementsOfJoinWith(cs: seq<string>)
    requires cs != [] && AllElements(cs)
    ensures Elements(JoinWith(cs)) == cs
  {
    SplitJoin(cs);
    KeepElements(cs);
  }

  lemma RenderNonEmpty(p: Path)
    requires Normal(p.rooted, p.comps)
    ensures Render(p) != []
  {
    if !p.rooted && p.comps != [] {
      JoinWithStart(p.comps);
    }
  }

  // ---------------------------------------------------------------------
  // Join
  // ---------------------------------------------------------------------

  /** filepath.Join of two arguments: empty arguments are ignored and the
      result is cleaned. */
  function FileJoin(d: string, f: string): string
  {
    if d != [] then Clean(d + [Sep] + f)
    else if f != [] then Clean(f)
    else []
  }

  /** Joining onto a non-empty directory resolves the elements of f on top
      of the directory's path. */
  lemma FileJoinParse(d: string, f: string)
    requires d != []
    ensures FileJoin(d, f) != []
    ensures Parse(FileJoin(d, f)) == Path(Rooted(d), Resolve(Rooted(d), Parse(d).comps + Elements(f)))
  {
    CleanNonEmpty(d + [Sep] + f);
    CleanParse(d + [Sep] + f);
    ParseConcat(d, f);
  }

  /** The shell's `join` (sftpshell.go): a name starting with the separator is
      used verbatim; any other name is resolved against the directory, and a
      trailing separator on the name is put back after the cleaning. */
  function Join(dname: string, fname: string): string
  {
    if HasPrefix(fname, "/") then fname
    else if HasSuffix(fname, "/") then FileJoin(dname, fname) + "/"
    else FileJoin(dname, fname)
  }

  /** What `join` names: an absolute name itself, any other name resolved on
      top of the directory; a trailing separator is kept. */
  lemma JoinParse(dname: string, fname: string)
    requires dname != []
    ensures HasPrefix(fname, "/") ==> Join(dname, fname) == fname
    ensures !HasPrefix(fname, "/") && HasSuffix(fname, "/") ==> HasSuffix(Join(dname, fname), "/")
    ensures !HasPrefix(fname, "/") ==>
              Parse(Join(dname, fname)) == Path(Rooted(dname), Resolve(Rooted(dname), Parse(dname).comps + Elements(fname)))
  {
    FileJoinParse(dname, fname);
    if !HasPrefix(fname, "/") && HasSuffix(fname, "/") {
      ParseTrailingSep(FileJoin(dname, fname));
    }
  }

  /** Joined onto an absolute directory, every name gives an absolute path. */
  lemma JoinRooted(dname: string, fname: string)
    requires Rooted(dname)
    ensures Rooted(Join(dname, fname))
  {
    if HasPrefix(fname, "/") {
      assert fname[..1] == "/";
    } else {
      JoinParse(dname, fname);
      assert Parse(Join(dname, fname)).rooted;
    }
  }

  /** A relative name without `..` stays inside the directory: the path it
      names extends the directory's path by the name's elements. */
  lemma JoinInside(dname: string, fname: string)
    requires Rooted(dname) && !HasPrefix(fname, "/")
    requires forall i :: 0 <= i < |Elements(fname)| ==> Elements(fname)[i] != ".."
    ensures Parse(Join(dname, fname)) == Path(true, Parse(dname).comps + Elements(fname))
  {
    JoinParse(dname, fname);
    var cs := Parse(dname).comps + Elements(fname);
    ParseNormal(dname);
    ElementsAreElements(fname);
    assert Normal(true, cs);
    ResolveNormal(true, cs);
  }

  /** A plain name joined onto a directory names the directory's child. */
  lemma JoinChild(dname: string, n: string)
    requires dname != [] && Element(n) && n != ".."
    ensures Join(dname, n) == FileJoin(dname, n)
    ensures Parse(Join(dname, n)) == Path(Rooted(dname), Parse(dname).comps + [n])
  {
    assert n[0] in n && n[|n| - 1] in n;
    JoinRelative(dname, n);
    JoinChildPath(dname, n);
  }

  lemma JoinChildPath(dname: string, n: string)
    requires dname != [] && Element(n) && n != ".."
    ensures Parse(FileJoin(dname, n)) == Path(Rooted(dname), Parse(dname).comps + [n])
  {
    var cs := Parse(dname).comps;
    FileJoinParse(dname, n);
    ElementsOfName(n);
    ParseNormal(dname);
    ResolveSnoc(Rooted(dname), cs, n);
    ResolveNormal(Rooted(dname), cs);
  }

  /** A name that neither starts nor ends with the separator is joined as
      filepath.Join joins it. */
  lemma JoinRelative(dname: string, n: string)
    requires !HasPrefix(n, "/") && !HasSuffix(n, "/")
    ensures Join(dname, n) == FileJoin(dname, n)
  {
  }

  /** `cd sub` followed by `cd ..` comes back to the starting directory. */
  lemma JoinChildParent(dname: string, n: string)
    requires dname != [] && Element(n) && n != ".."
    ensures Parse(Join(Join(dname, n), "..")) == Parse(dname)
  {
    var c := Join(dname, n);
    var cs := Parse(dname).comps + [n];
    JoinChild(dname, n);
    FileJoinParse(dname, n);
    assert Parse(c) == Path(Rooted(dname), cs);
    JoinParse(c, "..");
    ElementsOfName("..");
    assert Parse(Join(c, "..")) == Path(Rooted(dname), Resolve(Rooted(dname), cs + [".."]));
    ParseNormal(dname);
    NormalSnoc(Rooted(dname), Parse(dname).comps, n);
    ResolveDotDot(Rooted(dname), cs);
    assert cs[..|cs| - 1] == Parse(dname).comps;
  }

  // ---------------------------------------------------------------------
  // Base and Dir
  // ---------------------------------------------------------------------

  function TrimTrailingSeps(s: string): (r: string)
    ensures |r| <= |s| && s[..|r|] == r
    ensures r == [] || r[|r| - 1] != Sep
    ensures forall i :: |r| <= i < |s| ==> s[i] == Sep
    decreases |s|
  {
    if s != [] && s[|s| - 1] == Sep then TrimTrailingSeps(s[..|s| - 1]) else s
  }

  function Last(cs: seq<string>): string
    requires cs != []
  {
    cs[|cs| - 1]
  }

  /** A string that does not end with the separator ends with a non-empty piece. */
  lemma {:induction false} LastPieceNonEmpty(t: string)
    requires t != [] && t[|t| - 1] != Sep
    ensures Last(Split(t)) != []
  {
    if |t| > 1 {
      LastPieceNonEmpty(t[1..]);
    }
  }

  /** filepath.Base: the last element, trailing separators ignored; "." for
      the empty string and "/" for a string of separators. */
  function FileBase(s: string): string
  {
    if s == [] then "."
    else
      var t := TrimTrailingSeps(s);
      if t == [] then [Sep] else Last(Split(t))
  }

  /** The shell's `base`: filepath.Base, with the root giving "". */
  function Base(s: string): (r: string)
    ensures Sep !in r
    ensures r == [] <==> s != [] && forall i :: 0 <= i < |s| ==> s[i] == Sep
  {
    var b := FileBase(s);
    assert s != [] && TrimTrailingSeps(s) != [] ==> Last(Split(TrimTrailingSeps(s))) != [] && Sep !in Last(Split(TrimTrailingSeps(s))) by {
      if s != [] && TrimTrailingSeps(s) != [] {
        LastPieceNonEmpty(TrimTrailingSeps(s));
        SplitPieces(TrimTrailingSeps(s));
      }
    }
    if b == [Sep] then [] else b
  }

  /** The last piece of a normal path's rendering is its last element. */
  lemma RenderPieces(p: Path)
    requires Normal(p.rooted, p.comps) && p.comps != []
    ensures Split(Render(p)) == (if p.rooted then [[]] + p.comps else p.comps)
    ensures Render(p)[|Render(p)| - 1] != Sep
  {
    SplitJoin(p.comps);
    JoinWithEnd(p.comps);
    if p.rooted {
      SplitConcat([], JoinWith(p.comps));
      assert Render(p) == [] + [Sep] + JoinWith(p.comps);
    }
  }

  /** The base of a rendered path is its last element. */
  lemma BaseRender(p: Path)
    requires Normal(p.rooted, p.comps) && p.comps != []
    ensures FileBase(Render(p)) == Last(p.comps)
    ensures Base(Render(p)) == Last(p.comps)
  {
    RenderPieces(p);
  }

  /** A plain name joined onto a directory is the base of the result. */
  lemma BaseOfChild(dname: string, n: string)
    requires dname != [] && Element(n) && n != ".."
    ensures Base(Join(dname, n)) == n
  {
    JoinChild(dname, n);
    var j := FileJoin(dname, n);
    CleanIdempotent(dname + [Sep] + n);
    assert j == Clean(j);
    CleanBase(j);
  }

  /** The prefix of s up to and including its last separator ("" if none). */
  function DirPart(s: string): (r: string)
    ensures |r| <= |s| && s[..|r|] == r
    ensures r == [] ==> Sep !in s
    ensures r != [] ==> r[|r| - 1] == Sep && Sep !in s[|r|..]
    decreases |s|
  {
    if s == [] then []
    else if s[|s| - 1] == Sep then s
    else
      var r := DirPart(s[..|s| - 1]);
      assert s[|r|..] == s[..|s| - 1][|r|..] + [s[|s| - 1]];
      r
  }

  /** filepath.Dir: everything before the last element, cleaned. */
  function FileDir(s: string): string
  {
    Clean(DirPart(s))
  }

  /** Dir and Base split a path: joining them back names the same path. */
  lemma DirBase(s: string)
    requires s != [] && s[|s| - 1] != Sep
    ensures Parse(FileJoin(FileDir(s), FileBase(s))) == Parse(s)
  {
    assert TrimTrailingSeps(s) == s;
    if DirPart(s) == [] {
      SplitNoSep(s);
      DirBaseNoSep(s);
    } else {
      DirBaseSep(s);
    }
  }

  lemma DirBaseNoSep(s: string)
    requires s != [] && Sep !in s && DirPart(s) == []
    ensures Parse(FileJoin(FileDir(s), s)) == Parse(s)
  {
    ElementsOfEmpty();
    ElementsOfDot();
    assert Clean([]) == ".";
    FileJoinParse(".", s);
    assert Parse(".") == Path(false, []);
    assert Parse([]).comps + Elements(s) == Elements(s);
  }

  lemma DirBaseSep(s: string)
    requires s != [] && s[|s| - 1] != Sep && DirPart(s) != []
    ensures Parse(FileJoin(FileDir(s), FileBase(s))) == Parse(s)
  {
    var r := DirPart(s);
    var l := s[|r|..];
    var r' := r[..|r| - 1];
    DirPartSplits(s);
    SplitNoSep(l);
    SplitConcat(r', l);
    assert TrimTrailingSeps(s) == s;
    assert FileBase(s) == l;
    JoinOntoClean(r, l);
    ElementsConcat(r', l);
    ElementsConcat(r, l);
    ElementsTrailingSep(r');
    assert Elements(r + [Sep] + l) == Elements(s);
    assert Rooted(r + [Sep] + l) == Rooted(s);
  }

  /** s is its directory part without the last separator, the separator,
      and the last element. */
  lemma DirPartSplits(s: string)
    requires DirPart(s) != []
    ensures s == DirPart(s)[..|DirPart(s)| - 1] + [Sep] + s[|DirPart(s)|..]
    ensures DirPart(s) == DirPart(s)[..|DirPart(s)| - 1] + [Sep]
  {
  }

  /** Joining onto the cleaned form of a directory is reading "d/f". */
  lemma JoinOntoClean(d: string, f: string)
    requires d != []
    ensures Parse(FileJoin(Clean(d), f)) == Parse(d + [Sep] + f)
  {
    CleanNonEmpty(d);
    CleanParse(d);
    FileJoinParse(Clean(d), f);
    ParseConcat(d, f);
  }

  // ---------------------------------------------------------------------
  // Rel
  // ---------------------------------------------------------------------

  function CommonPrefix(a: seq<string>, b: seq<string>): (k: nat)
    ensures k <= |a| && k <= |b| && a[..k] == b[..k]
    ensures k < |a| && k < |b| ==> a[k] != b[k]
  {
    if a == [] || b == [] || a[0] != b[0] then 0
    else
      var k := CommonPrefix(a[1..], b[1..]);
      assert a[..k + 1] == [a[0]] + a[1..][..k];
      assert b[..k + 1] == [b[0]] + b[1..][..k];
      k + 1
  }

  function Repeat(x: string, n: nat): (r: seq<string>)
    ensures |r| == n && forall i :: 0 <= i < n ==> r[i] == x
  {
    if n == 0 then [] else Repeat(x, n - 1) + [x]
  }

  /** filepath.Rel: a relative path that, joined onto basepath, names
      targpath; None where Go's Rel reports an error (one path rooted and
      the other not, or a `..` left in the base that cannot be undone).
      Two paths are the same when they clean to the same string, that is,
      when they parse to the same Path.  Go compares the cleaned target piece
      by piece, so a target that cleans to "." is the single piece ".". */
  function Rel(basepath: string, targpath: string): Option<string>
  {
    var b := Parse(basepath);
    var t := Parse(targpath);
    if b == t then Some(".")
    else if b.rooted != t.rooted then None
    else
      var tc := if t == Path(false, []) then ["."] else t.comps;
      var k := CommonPrefix(b.comps, tc);
      if k < |b.comps| && b.comps[k] == ".." then None
      else Some(JoinWith(Repeat("..", |b.comps| - k) + tc[k..]))
  }

  /** Each `..` after a rooted normal path removes one element. */
  lemma {:induction false} PopDotDots(cs: seq<string>, m: nat)
    requires Normal(true, cs) && m <= |cs|
    ensures Resolve(true, cs + Repeat("..", m)) == cs[..|cs| - m]
  {
    if m == 0 {
      assert cs + Repeat("..", 0) == cs;
      ResolveNormal(true, cs);
      assert cs[..|cs|] == cs;
    } else {
      PopDotDots(cs, m - 1);
      assert cs + Repeat("..", m) == (cs + Repeat("..", m - 1)) + [".."];
      assert (cs + Repeat("..", m))[..|cs + Repeat("..", m)| - 1] == cs + Repeat("..", m - 1);
      assert cs[..|cs| - m + 1][..|cs| - m] == cs[..|cs| - m];
    }
  }

  /** Rel between two absolute paths always succeeds, and joining its result
      onto the base names the target again. */
  lemma RelJoin(basepath: string, targpath: string)
    requires Rooted(basepath) && Rooted(targpath)
    ensures Rel(basepath, targpath).Some?
    ensures Parse(FileJoin(basepath, Rel(basepath, targpath).value)) == Parse(targpath)
  {
    if Parse(basepath) == Parse(targpath) {
      RelJoinSame(basepath, targpath);
    } else {
      RelJoinDiffer(basepath, targpath);
    }
  }

  lemma RelJoinSame(basepath: string, targpath: string)
    requires Rooted(basepath) && Parse(basepath) == Parse(targpath)
    ensures Rel(basepath, targpath) == Some(".")
    ensures Parse(FileJoin(basepath, ".")) == Parse(targpath)
  {
    var bc := Parse(basepath).comps;
    FileJoinParse(basepath, ".");
    ElementsOfDot();
    assert bc + [] == bc;
    ParseNormal(basepath);
    ResolveNormal(true, bc);
  }

  /** The shell's join puts a path computed by Rel back onto its base, and
      so names the target again: Rel never yields a leading or trailing
      separator. */
  lemma RelThenJoin(basepath: string, targpath: string)
    requires Rooted(basepath) && Rooted(targpath)
    ensures Rel(basepath, targpath).Some?
    ensures Join(basepath, Rel(basepath, targpath).value) == FileJoin(basepath, Rel(basepath, targpath).value)
    ensures Parse(Join(basepath, Rel(basepath, targpath).value)) == Parse(targpath)
  {
    RelJoin(basepath, targpath);
    if Parse(basepath) == Parse(targpath) {
      RelJoinSame(basepath, targpath);
    } else {
      RelNoEdgeSep(basepath, targpath);
    }
  }

  lemma RelNoEdgeSep(basepath: string, targpath: string)
    requires Rooted(basepath) && Rooted(targpath) && Parse(basepath) != Parse(targpath)
    ensures Rel(basepath, targpath).Some?
    ensures !HasPrefix(Rel(basepath, targpath).value, "/") && !HasSuffix(Rel(basepath, targpath).value, "/")
  {
    RelRooted(basepath, targpath);
    var rest := Climb(Parse(basepath).comps, Parse(targpath).comps);
    var first, last := rest[0], rest[|rest| - 1];
    assert Element(first) && Element(last);
    assert first[0] in first && last[|last| - 1] in last;
    JoinWithStart(rest);
    JoinWithEnd(rest);
    NoEdgeSep(JoinWith(rest));
  }

  lemma NoEdgeSep(j: string)
    requires |j| >= 1 && j[0] != Sep && j[|j| - 1] != Sep
    ensures !HasPrefix(j, "/") && !HasSuffix(j, "/")
  {
  }

  lemma RelJoinDiffer(basepath: string, targpath: string)
    requires Rooted(basepath) && Rooted(targpath) && Parse(basepath) != Parse(targpath)
    ensures Rel(basepath, targpath).Some?
    ensures Parse(FileJoin(basepath, Rel(basepath, targpath).value)) == Parse(targpath)
  {
    RelRooted(basepath, targpath);
    var rest := Climb(Parse(basepath).comps, Parse(targpath).comps);
    ElementsOfJoinWith(rest);
    FileJoinParse(basepath, JoinWith(rest));
  }

  /** The elements Rel joins between two different absolute paths: climb
      from bc to the common prefix, then descend along tc. */
  function Climb(bc: seq<string>, tc: seq<string>): seq<string>
  {
    var k := CommonPrefix(bc, tc);
    Repeat("..", |bc| - k) + tc[k..]
  }

  /** Between two different absolute paths, Rel joins the climb, which is
      a non-empty list of elements leading from the base to the target. */
  lemma RelRooted(basepath: string, targpath: string)
    requires Rooted(basepath) && Rooted(targpath) && Parse(basepath) != Parse(targpath)
    ensures var bc, tc := Parse(basepath).comps, Parse(targpath).comps;
            && Rel(basepath, targpath) == Some(JoinWith(Climb(bc, tc)))
            && Climb(bc, tc) != []
            && AllElements(Climb(bc, tc))
            && Resolve(true, bc + Climb(bc, tc)) == tc
  {
    var bc := Parse(basepath).comps;
    var tc := Parse(targpath).comps;
    ParseNormal(basepath);
    ParseNormal(targpath);
    var k := CommonPrefix(bc, tc);
    assert k < |bc| || k < |tc|;
    RelSteps(bc, tc, k);
  }

  /** The element-list half of RelJoin: climbing from bc to the common
      prefix and descending along tc reaches tc. */
  lemma RelSteps(bc: seq<string>, tc: seq<string>, k: nat)
    requires Normal(true, bc) && Normal(true, tc)
    requires k <= |bc| && k <= |tc| && bc[..k] == tc[..k]
    ensures AllElements(Repeat("..", |bc| - k) + tc[k..])
    ensures Resolve(true, bc + (Repeat("..", |bc| - k) + tc[k..])) == tc
  {
    var dd := Repeat("..", |bc| - k);
    var t := tc[k..];
    DotDotsAreElements(|bc| - k);
    AllElementsAppend(dd, t);
    AppendAssoc(bc, dd, t);
    PopDotDots(bc, |bc| - k);
    AllElementsAppend(bc, dd);
    ResolveAppend(true, bc + dd, t);
    TakeDrop(bc, tc, k);
    ResolveNormal(true, tc);
  }

  lemma TakeDrop(bc: seq<string>, tc: seq<string>, k: nat)
    requires k <= |bc| && k <= |tc| && bc[..k] == tc[..k]
    ensures bc[..k] + tc[k..] == tc
  {
    assert tc[..k] + tc[k..] == tc;
  }

  lemma AppendAssoc(a: seq<string>, b: seq<string>, c: seq<string>)
    ensures a + (b + c) == (a + b) + c
  {
  }

  lemma DotDotsAreElements(m: nat)
    ensures AllElements(Repeat("..", m))
  {
  }

  lemma AllElementsAppend(a: seq<string>, b: seq<string>)
    requires AllElements(a) && AllElements(b)
    ensures AllElements(a + b)
  {
    forall i | 0 <= i < |a + b|
      ensures Element((a + b)[i])
    {
      if i >= |a| {
        assert (a + b)[i] == b[i - |a|];
      }
    }
  }

  // ---------------------------------------------------------------------
  // Completion candidate
  // ---------------------------------------------------------------------

  /** What `candidate` returns: the prefix to complete, the directory to
      list, and the prefix to put back in front of each completion. */
  datatype Candidacy = Candidacy(cand: string, dirname: string, relDirname: string)

  /** The shell's `candidate` (sftpshell.go).  An input ending in the
      separator is a directory to list in full; otherwise its base is the
      prefix to complete and its directory is listed.  The display prefix is
      relative to the working directory unless the input was absolute; if
      Rel fails the directory itself is used. */
  function Candidate(wd: string, input: string): (c: Candidacy)
    ensures Sep !in c.cand
    ensures input == [] ==> c == Candidacy([], wd, [])
    ensures HasSuffix(input, "/") ==> c.cand == []
    ensures HasPrefix(input, "/") ==> c.relDirname == c.dirname
  {
    if input == [] then Candidacy([], wd, [])
    else
      var cand := if HasSuffix(input, "/") then [] else Base(input);
      var dirname := if HasSuffix(input, "/") then Join(wd, input) else FileDir(Join(wd, input));
      var rel :=
        if HasPrefix(input, "/") then dirname
        else match Rel(wd, dirname)
          case Some(r) => r
          case None => dirname;
      Candidacy(cand, dirname, rel)
  }

  /** From an absolute working directory the directory to list is absolute,
      and the display prefix, joined onto the working directory, names it. */
  lemma CandidateResolves(wd: string, input: string)
    requires Rooted(wd)
    ensures Rooted(Candidate(wd, input).dirname)
    ensures !HasPrefix(input, "/") ==>
              Parse(FileJoin(wd, Candidate(wd, input).relDirname)) == Parse(Candidate(wd, input).dirname)
  {
    var c := Candidate(wd, input);
    if input == [] {
      FileJoinParse(wd, []);
      ElementsOfEmpty();
      assert Parse(wd).comps + [] == Parse(wd).comps;
      ParseNormal(wd);
      ResolveNormal(true, Parse(wd).comps);
    } else {
      var j := Join(wd, input);
      JoinRooted(wd, input);
      if !HasSuffix(input, "/") {
        CleanParse(DirPart(j));
        assert DirPart(j) != [] && DirPart(j)[0] == j[0];
      }
      if !HasPrefix(input, "/") {
        RelJoin(wd, c.dirname);
      }
    }
  }

  /** An input ending in the separator names the directory to list in
      full: there is nothing to complete, and the directory listed is the
      one the input names, resolved against the working directory unless
      it is absolute. */
  lemma CandidateListsInput(wd: string, input: string)
    requires Rooted(wd) && HasSuffix(input, "/")
    ensures Candidate(wd, input).cand == []
    ensures Parse(Candidate(wd, input).dirname) == Parse(Join(wd, input))
    ensures HasPrefix(input, "/") ==> Candidate(wd, input).dirname == input
    ensures !HasPrefix(input, "/") ==>
              Parse(Candidate(wd, input).dirname) == Path(true, Resolve(true, Parse(wd).comps + Elements(input)))
  {
    JoinParse(wd, input);
  }

  /** Completing inside the listed directory: the entry named by the
      candidate, looked up in the directory to list, is the path the input
      names, provided the input ends in a plain name (for a relative input)
      or in any name (for an absolute one). */
  lemma CandidateNamesInput(wd: string, input: string)
    requires Rooted(wd) && input != [] && !HasSuffix(input, "/")
    requires HasPrefix(input, "/") || (Base(input) != "." && Base(input) != "..")
    ensures Parse(FileJoin(Candidate(wd, input).dirname, Candidate(wd, input).cand)) == Parse(Join(wd, input))
  {
    assert input[|input| - 1] != Sep by {
      assert input[|input| - 1..] == [input[|input| - 1]];
    }
    if HasPrefix(input, "/") {
      assert TrimTrailingSeps(input) == input;
      DirBase(input);
    } else {
      CandidateRelative(wd, input);
    }
  }

  lemma CandidateRelative(wd: string, input: string)
    requires Rooted(wd) && input != [] && input[|input| - 1] != Sep && !HasPrefix(input, "/")
    requires Base(input) != "." && Base(input) != ".."
    ensures Parse(FileJoin(FileDir(Join(wd, input)), Base(input))) == Parse(Join(wd, input))
  {
    var j := Join(wd, input);
    JoinLast(wd, input);
    JoinIsClean(wd, input);
    CleanBase(j);
    DirBase(j);
  }

  /** The last element named by wd/input is the input's base. */
  lemma JoinLast(wd: string, input: string)
    requires Rooted(wd) && input != [] && input[|input| - 1] != Sep && !HasPrefix(input, "/")
    requires Base(input) != "." && Base(input) != ".."
    ensures Parse(Join(wd, input)).comps != [] && Last(Parse(Join(wd, input)).comps) == Base(input)
  {
    LastNameOfElements(input);
    JoinParse(wd, input);
    ResolveLast(true, Parse(wd).comps, Elements(input));
  }

  /** A plain last element survives resolution as the last element. */
  lemma ResolveLast(rooted: bool, cs: seq<string>, es: seq<string>)
    requires es != [] && Last(es) != ".."
    ensures Resolve(rooted, cs + es) != [] && Last(Resolve(rooted, cs + es)) == Last(es)
  {
    var pre := cs + es[..|es| - 1];
    assert cs + es == pre + [Last(es)];
    ResolveSnoc(rooted, pre, Last(es));
  }

  /** A clean path with at least one element ends in that element, with no
      separator after it. */
  lemma CleanBase(j: string)
    requires j == Clean(j) && Parse(j).comps != []
    ensures j != [] && j[|j| - 1] != Sep
    ensures FileBase(j) == Last(Parse(j).comps) && Base(j) == Last(Parse(j).comps)
  {
    var p := Parse(j);
    ParseNormal(j);
    assert j == Render(p);
    RenderPieces(p);
    BaseRender(p);
  }

  /** A relative name without trailing separator whose base is plain ends
      with that base among its elements. */
  lemma LastNameOfElements(s: string)
    requires s != [] && s[|s| - 1] != Sep
    requires Base(s) != "." && Base(s) != ".."
    ensures Elements(s) != [] && Last(Elements(s)) == Base(s) && Element(Base(s))
  {
    assert TrimTrailingSeps(s) == s;
    LastPieceNonEmpty(s);
    var ps := Split(s);
    var n := Last(ps);
    assert Base(s) == n;
    assert ps == ps[..|ps| - 1] + [n];
    KeepAppend(ps[..|ps| - 1], [n]);
    assert Keep([n]) == [n];
  }

  /** The shell's join of a relative name without trailing separator is clean. */
  lemma JoinIsClean(wd: string, input: string)
    requires wd != [] && !HasPrefix(input, "/") && !HasSuffix(input, "/")
    ensures Join(wd, input) == Clean(Join(wd, input))
  {
    var x := wd + [Sep] + input;
    assert Join(wd, input) == Clean(x);
    CleanIdempotent(x);
  }
  // ---------------------------------------------------------------------
  // Completions joined back onto the working directory
  // ---------------------------------------------------------------------

  lemma RootedPrefix(s: string)
    ensures Rooted(s) <==> HasPrefix(s, "/")
  {
    if |s| > 0 {
      assert s[..1] == [s[0]];
    }
  }

  /** Resolving a relative tail first, then resolving it again on top of
      another list, is the same as resolving the whole at once. */
  lemma {:induction false} ResolveMixed(rooted: bool, w: seq<string>, x: seq<string>)
    ensures Resolve(rooted, w + Resolve(false, x)) == Resolve(rooted, w + x)
    decreases |x|
  {
    if x == [] {
      assert w + x == w;
      assert w + Resolve(false, x) == w;
    } else {
      var x' := x[..|x| - 1];
      var c := x[|x| - 1];
      assert x == x' + [c];
      assert w + x == (w + x') + [c];
      calc {
        Resolve(rooted, w + Resolve(false, x));
        { ResolveStep(false, x', c); }
        Resolve(rooted, w + Push(Resolve(false, x'), c, false));
        { PushMixed(rooted, w, Resolve(false, x'), c); }
        Push(Resolve(rooted, w + Resolve(false, x')), c, rooted);
        { ResolveMixed(rooted, w, x'); }
        Push(Resolve(rooted, w + x'), c, rooted);
        { ResolveStep(rooted, w + x', c); }
        Resolve(rooted, w + x);
      }
    }
  }

  lemma ResolveStep(rooted: bool, cs: seq<string>, c: string)
    ensures Resolve(rooted, cs + [c]) == Push(Resolve(rooted, cs), c, rooted)
  {
    assert (cs + [c])[..|cs|] == cs;
  }

  /** One step of ResolveMixed: a step taken on the relative tail is the
      same step taken on top of w. */
  lemma PushMixed(rooted: bool, w: seq<string>, r: seq<string>, c: string)
    ensures Resolve(rooted, w + Push(r, c, false)) == Push(Resolve(rooted, w + r), c, rooted)
  {
    if c != ".." {
      assert w + (r + [c]) == (w + r) + [c];
      ResolveStep(rooted, w + r, c);
    } else if |r| > 0 && r[|r| - 1] != ".." {
      var r' := r[..|r| - 1];
      var e := r[|r| - 1];
      assert w + r == (w + r') + [e];
      ResolveStep(rooted, w + r', e);
    } else {
      assert w + (r + [".."]) == (w + r) + [".."];
      ResolveStep(rooted, w + r, "..");
    }
  }

  /** A relative name joined onto an absolute directory resolves the name's
      own path on top of the directory's. */
  lemma JoinUnder(wd: string, q: string)
    requires Rooted(wd) && !Rooted(q)
    ensures Parse(Join(wd, q)) == Path(true, Resolve(true, Parse(wd).comps + Parse(q).comps))
    ensures Parse(FileJoin(wd, q)) == Parse(Join(wd, q))
  {
    RootedPrefix(q);
    JoinParse(wd, q);
    FileJoinParse(wd, q);
    ResolveMixed(true, Parse(wd).comps, Elements(q));
  }

  /** Rel between absolute paths is a relative path. */
  lemma RelRelative(basepath: string, targpath: string)
    requires Rooted(basepath) && Rooted(targpath)
    ensures Rel(basepath, targpath).Some?
    ensures !Rooted(Rel(basepath, targpath).value)
  {
    RelJoin(basepath, targpath);
    if Parse(basepath) == Parse(targpath) {
      RelJoinSame(basepath, targpath);
    } else {
      RelNoEdgeSep(basepath, targpath);
    }
    RootedPrefix(Rel(basepath, targpath).value);
  }

  /** A plain name, with or without a trailing separator, joined onto a
      relative directory extends that directory's path by the name. */
  lemma JoinName(rel: string, p: string, n: string)
    requires !Rooted(rel) && Element(n) && n != ".."
    requires p == n || p == n + "/"
    ensures !Rooted(Join(rel, p))
    ensures Parse(Join(rel, p)).comps == Parse(rel).comps + [n]
  {
    assert n[0] in n;
    RootedPrefix(p);
    if p == n {
      ElementsOfName(n);
    } else {
      ElementsOfName(n);
      ElementsTrailingSep(n);
    }
    if rel == [] {
      assert Join(rel, p) == Clean(p) || Join(rel, p) == Clean(p) + "/";
      CleanParse(p);
      CleanNonEmpty(p);
      if Join(rel, p) != Clean(p) {
        ParseTrailingSep(Clean(p));
      }
      assert Parse(p).comps == [n] by {
        ResolveSnoc(false, [], n);
      }
      assert Parse(rel).comps == [] by {
        ElementsOfEmpty();
      }
    } else {
      JoinParse(rel, p);
      ParseNormal(rel);
      ResolveSnoc(false, Parse(rel).comps, n);
      ResolveNormal(false, Parse(rel).comps);
    }
  }
  /** A name proposed inside the directory `candidate` lists, put behind the
      display prefix and joined back onto the working directory, names that
      directory's child. */
  lemma CompletionLands(wd: string, input: string, p: string, n: string)
    requires Rooted(wd) && Element(n) && n != ".."
    requires p == n || p == n + "/"
    ensures Parse(Join(wd, Join(Candidate(wd, input).relDirname, p))).comps
            == Parse(Candidate(wd, input).dirname).comps + [n]
  {
    var c := Candidate(wd, input);
    CandidateResolves(wd, input);
    if HasPrefix(input, "/") {
      LandsAbsolute(wd, c.dirname, p, n);
    } else {
      if input != [] {
        RelRelative(wd, c.dirname);
      }
      LandsRelative(wd, c.relDirname, c.dirname, p, n);
    }
  }

  lemma LandsAbsolute(wd: string, dirname: string, p: string, n: string)
    requires Rooted(dirname) && Element(n) && n != ".."
    requires p == n || p == n + "/"
    ensures Parse(Join(wd, Join(dirname, p))).comps == Parse(dirname).comps + [n]
  {
    var q := Join(dirname, p);
    assert n[0] in n;
    RootedPrefix(p);
    ElementsOfName(n);
    if p != n {
      ElementsTrailingSep(n);
    }
    JoinParse(dirname, p);
    ParseNormal(dirname);
    ResolveSnoc(true, Parse(dirname).comps, n);
    ResolveNormal(true, Parse(dirname).comps);
    RootedPrefix(q);
  }

  lemma LandsRelative(wd: string, rel: string, dirname: string, p: string, n: string)
    requires Rooted(wd) && !Rooted(rel) && Element(n) && n != ".."
    requires p == n || p == n + "/"
    requires Parse(FileJoin(wd, rel)) == Parse(dirname)
    ensures Parse(Join(wd, Join(rel, p))).comps == Parse(dirname).comps + [n]
  {
    var q := Join(rel, p);
    var w := Parse(wd).comps;
    var r := Parse(rel).comps;
    JoinUnder(wd, rel);
    JoinName(rel, p, n);
    JoinUnder(wd, q);
    ResolveExtend(w, r, n);
  }

  lemma ResolveExtend(w: seq<string>, r: seq<string>, n: string)
    requires n != ".."
    ensures Resolve(true, w + (r + [n])) == Resolve(true, w + r) + [n]
  {
    assert w + (r + [n]) == (w + r) + [n];
    ResolveSnoc(true, w + r, n);
  }
}

/** Lexicographic order on strings and the sorted listing of a finite set of
    names.  Go's sort.Strings compares the UTF-8 bytes of two strings; UTF-8
    preserves code-point order, so comparing characters one by one gives the
    same order. */
module Order {

  /** Strict lexicographic order: a proper prefix comes first. */
  predicate Less(a: string, b: string)
  {
    if |a| == 0 then |b| > 0
    else if |b| == 0 then false
    else if a[0] != b[0] then a[0] < b[0]
    else Less(a[1..], b[1..])
  }

  lemma {:induction false} LessIrreflexive(a: string)
    ensures !Less(a, a)
  {
    if |a| > 0 {
      LessIrreflexive(a[1..]);
    }
  }

  lemma {:induction false} LessTransitive(a: string, b: string, c: string)
    requires Less(a, b) && Less(b, c)
    ensures Less(a, c)
  {
    if |a| > 0 && |b| > 0 && |c| > 0 && a[0] == b[0] && b[0] == c[0] {
      LessTransitive(a[1..], b[1..], c[1..]);
    }
  }

  lemma {:induction false} LessTotal(a: string, b: string)
    requires a != b
    ensures Less(a, b) || Less(b, a)
  {
    if |a| > 0 && |b| > 0 && a[0] == b[0] {
      assert a == [a[0]] + a[1..] && b == [b[0]] + b[1..];
      LessTotal(a[1..], b[1..]);
    }
  }

  lemma {:induction false} LessAsymmetric(a: string, b: string)
    requires Less(a, b)
    ensures !Less(b, a)
  {
    if Less(b, a) {
      LessTransitive(a, b, a);
      LessIrreflexive(a);
    }
  }

  /** Every element of s is greater than or equal to m. */
  predicate IsLeast(m: string, s: set<string>)
  {
    m in s && forall x :: x in s && x != m ==> Less(m, x)
  }

  lemma {:induction false} LeastExists(s: set<string>)
    requires s != {}
    ensures exists m :: IsLeast(m, s)
    decreases |s|
  {
    var x :| x in s;
    if s == {x} {
      assert IsLeast(x, s);
    } else {
      LeastExists(s - {x});
      var m :| IsLeast(m, s - {x});
      if Less(x, m) {
        forall y | y in s && y != x
          ensures Less(x, y)
        {
          if y != m {
            LessTransitive(x, m, y);
          }
        }
        assert IsLeast(x, s);
      } else {
        LessTotal(x, m);
        assert IsLeast(m, s);
      }
    }
  }

  lemma LeastUnique(s: set<string>, m1: string, m2: string)
    requires IsLeast(m1, s) && IsLeast(m2, s)
    ensures m1 == m2
  {
    if m1 != m2 {
      LessAsymmetric(m1, m2);
    }
  }

  /** The least element of a non-empty set of names. */
  function Least(s: set<string>): (m: string)
    requires s != {}
    ensures IsLeast(m, s)
  {
    LeastExists(s);
    assert forall m1, m2 :: IsLeast(m1, s) && IsLeast(m2, s) ==> m1 == m2 by {
      forall m1, m2 | IsLeast(m1, s) && IsLeast(m2, s)
        ensures m1 == m2
      {
        LeastUnique(s, m1, m2);
      }
    }
    var m :| IsLeast(m, s);
    m
  }

  /** Strictly increasing, hence also free of duplicates. */
  predicate StrictlySorted(xs: seq<string>)
  {
    forall i, j :: 0 <= i < j < |xs| ==> Less(xs[i], xs[j])
  }

  /** The names of s in increasing order: what `f.List()` followed by
      `sort.Strings` yields for a string set, and the order in which a
      directory listing is returned. */
  function SortedSet(s: set<string>): (r: seq<string>)
    ensures StrictlySorted(r)
    ensures forall x :: x in r <==> x in s
    ensures |r| == |s|
    decreases |s|
  {
    if s == {} then []
    else
      var m := Least(s);
      var rest := SortedSet(s - {m});
      assert forall i :: 0 <= i < |rest| ==> Less(m, rest[i]) by {
        forall i | 0 <= i < |rest|
          ensures Less(m, rest[i])
        {
          assert rest[i] in s - {m};
        }
      }
      [m] + rest
  }

  /** A strictly sorted sequence is determined by its elements: any listing
      that is sorted and holds exactly the names of s is SortedSet(s). */
  lemma {:induction false} SortedUnique(xs: seq<string>, ys: seq<string>)
    requires StrictlySorted(xs) && StrictlySorted(ys)
    requires forall x :: x in xs <==> x in ys
    ensures xs == ys
    decreases |xs|
  {
    if xs != [] {
      assert xs[0] in ys;
    }
    if ys != [] {
      assert ys[0] in xs;
    }
    if xs != [] && ys != [] {
      if xs[0] != ys[0] {
        LessTotal(xs[0], ys[0]);
        if Less(xs[0], ys[0]) {
          var j :| 0 <= j < |ys| && ys[j] == xs[0];
          LessAsymmetric(ys[0], ys[j]);
        }
      }
      forall x
        ensures x in xs[1..] <==> x in ys[1..]
      {
        if x in xs[1..] {
          var i :| 1 <= i < |xs| && xs[i] == x;
          assert x != xs[0] by { LessIrreflexive(xs[0]); }
          assert x in ys;
          var j :| 0 <= j < |ys| && ys[j] == x;
          assert j != 0;
          assert ys[1..][j - 1] == x;
        }
        if x in ys[1..] {
          var i :| 1 <= i < |ys| && ys[i] == x;
          assert x != ys[0] by { LessIrreflexive(ys[0]); }
          assert x in xs;
          var j :| 0 <= j < |xs| && xs[j] == x;
          assert j != 0;
          assert xs[1..][j - 1] == x;
        }
      }
      SortedUnique(xs[1..], ys[1..]);
    }
  }

  /** ys keeps some of the elements of xs, in their order. */
  predicate Sublist(ys: seq<string>, xs: seq<string>)
    decreases |xs|
  {
    if ys == [] then true
    else if xs == [] then false
    else (ys[0] == xs[0] && Sublist(ys[1..], xs[1..])) || Sublist(ys, xs[1..])
  }

  lemma {:induction false} SublistIn(ys: seq<string>, xs: seq<string>)
    requires Sublist(ys, xs)
    ensures forall y :: y in ys ==> y in xs
    decreases |xs|
  {
    if ys != [] {
      if ys[0] == xs[0] && Sublist(ys[1..], xs[1..]) {
        SublistIn(ys[1..], xs[1..]);
        assert forall y :: y in ys ==> y == ys[0] || y in ys[1..];
      } else {
        SublistIn(ys, xs[1..]);
      }
      assert forall y :: y in xs[1..] ==> y in xs;
    }
  }

  /** x is below everything in ys. */
  predicate Below(x: string, ys: seq<string>)
  {
    forall j :: 0 <= j < |ys| ==> Less(x, ys[j])
  }

  /** A sublist may take the head of the list it is drawn from ... */
  lemma SublistTake(x: string, ys: seq<string>, xs: seq<string>)
    requires xs != [] && xs[0] == x && Sublist(ys, xs[1..])
    ensures Sublist([x] + ys, xs)
  {
    assert ([x] + ys)[1..] == ys;
  }

  /** ... or skip it. */
  lemma SublistSkip(ys: seq<string>, xs: seq<string>)
    requires xs != [] && Sublist(ys, xs[1..])
    ensures Sublist(ys, xs)
  {
  }

  lemma SortedCons(x: string, xs: seq<string>)
    requires StrictlySorted(xs) && Below(x, xs)
    ensures StrictlySorted([x] + xs)
  {
    forall i, j | 0 <= i < j < |[x] + xs|
      ensures Less(([x] + xs)[i], ([x] + xs)[j])
    {
      if i > 0 {
        assert ([x] + xs)[i] == xs[i - 1];
      }
      assert ([x] + xs)[j] == xs[j - 1];
    }
  }

  /** The tail of a sorted sequence is sorted and above its head. */
  lemma SortedTail(xs: seq<string>)
    requires StrictlySorted(xs) && xs != []
    ensures StrictlySorted(xs[1..])
    ensures forall y :: y in xs[1..] ==> Less(xs[0], y)
  {
    forall y | y in xs[1..]
      ensures Less(xs[0], y)
    {
      var k :| 0 <= k < |xs[1..]| && xs[1..][k] == y;
      assert xs[k + 1] == y;
    }
  }

  /** Keeping some elements of a sorted sequence in order keeps it sorted. */
  lemma {:induction false} SublistSorted(ys: seq<string>, xs: seq<string>)
    requires StrictlySorted(xs) && Sublist(ys, xs)
    ensures StrictlySorted(ys)
    decreases |xs|
  {
    if ys != [] {
      SortedTail(xs);
      if ys[0] == xs[0] && Sublist(ys[1..], xs[1..]) {
        SublistSorted(ys[1..], xs[1..]);
        SublistIn(ys[1..], xs[1..]);
        assert Below(xs[0], ys[1..]) by {
          forall j | 0 <= j < |ys[1..]|
            ensures Less(xs[0], ys[1..][j])
          {
            assert ys[1..][j] in ys[1..];
          }
        }
        SortedCons(xs[0], ys[1..]);
        assert ys == [xs[0]] + ys[1..];
      } else {
        SublistSorted(ys, xs[1..]);
      }
    }
  }
}

/** Python's order on strings, and its sorted(): the ascending listing of a set or a sequence. */
module Ordering {

  /** Lexicographic comparison by code point. */
  predicate Leq(a: string, b: string) {
    a == "" || (b != "" && (a[0] < b[0] || (a[0] == b[0] && Leq(a[1..], b[1..]))))
  }

  predicate Less(a: string, b: string) {
    a != b && Leq(a, b)
  }

  lemma LeqReflexive(a: string)
    ensures Leq(a, a)
  {
  }

  lemma {:induction false} LeqTotal(a: string, b: string)
    ensures Leq(a, b) || Leq(b, a)
  {
    if a != "" && b != "" {
      LeqTotal(a[1..], b[1..]);
    }
  }

  lemma {:induction false} LeqAntisymmetric(a: string, b: string)
    requires Leq(a, b) && Leq(b, a)
    ensures a == b
  {
    if a != "" {
      LeqAntisymmetric(a[1..], b[1..]);
      assert a == [a[0]] + a[1..] && b == [b[0]] + b[1..];
    }
  }

  lemma {:induction false} LeqTransitive(a: string, b: string, c: string)
    requires Leq(a, b) && Leq(b, c)
    ensures Leq(a, c)
  {
    if a != "" && a[0] == b[0] == c[0] {
      LeqTransitive(a[1..], b[1..], c[1..]);
    }
  }

  // ----- the ascending listing of a set -----

  ghost predicate IsLeast(x: string, s: set<string>) {
    x in s && forall y :: y in s ==> Leq(x, y)
  }

  lemma {:induction false} LeastExists(s: set<string>)
    requires s != {}
    ensures exists x :: IsLeast(x, s)
  {
    var x :| x in s;
    if s == {x} {
      LeqReflexive(x);
      assert IsLeast(x, s);
    } else {
      var rest := s - {x};
      assert rest != {} by {
        var y :| y in s && y != x;
        assert y in rest;
      }
      LeastExists(rest);
      var y :| IsLeast(y, rest);
      LeqTotal(x, y);
      LeqReflexive(x);
      if Leq(y, x) {
        assert IsLeast(y, s);
      } else {
        forall z | z in s
          ensures Leq(x, z)
        {
          if z != x {
            LeqTransitive(x, y, z);
          }
        }
        assert IsLeast(x, s);
      }
    }
  }

  ghost predicate Ascending(xs: seq<string>) {
    forall i, j :: 0 <= i < j < |xs| ==> Less(xs[i], xs[j])
  }

  /** xs lists s, each member once, ascending. */
  ghost predicate Lists(xs: seq<string>, s: set<string>) {
    Ascending(xs) && forall x :: x in xs <==> x in s
  }

  /** sorted(s) of a set. */
  ghost function SortedSet(s: set<string>): (xs: seq<string>)
    ensures Lists(xs, s) && |xs| == |s|
  {
    if s == {} then
      []
    else
      LeastExists(s);
      var x :| IsLeast(x, s);
      [x] + SortedSet(s - {x})
  }

  /** The listing is determined by the set. */
  lemma {:induction false} ListingUnique(xs: seq<string>, ys: seq<string>, s: set<string>)
    requires Lists(xs, s) && Lists(ys, s)
    ensures xs == ys
    decreases |xs|
  {
    if xs == [] || ys == [] {
      NothingListed(xs, s);
      NothingListed(ys, s);
    } else {
      assert xs[0] in s;
      var i :| 0 <= i < |ys| && ys[i] == xs[0];
      var j :| 0 <= j < |xs| && xs[j] == ys[0] by { assert ys[0] in s; }
      if i > 0 {
        LeqAntisymmetric(xs[0], ys[0]);
      }
      assert xs[0] == ys[0];
      TailLists(xs, s);
      TailLists(ys, s);
      ListingUnique(xs[1..], ys[1..], s - {xs[0]});
    }
  }

  /** The listing starts with the least member. */
  lemma LeastIsFirst(x: string, s: set<string>)
    requires IsLeast(x, s)
    ensures SortedSet(s) != [] && SortedSet(s)[0] == x
  {
    var xs := SortedSet(s);
    assert Lists(xs, s) && x in xs;
    var i :| 0 <= i < |xs| && xs[i] == x;
    assert xs[0] in s;
    if i > 0 {
      LeqAntisymmetric(xs[0], x);
    }
  }

  lemma NothingListed(xs: seq<string>, s: set<string>)
    requires Lists(xs, s)
    ensures xs == [] <==> s == {}
  {
    if xs != [] {
      assert xs[0] in s;
    }
  }

  lemma TailLists(xs: seq<string>, s: set<string>)
    requires Lists(xs, s) && xs != []
    ensures Lists(xs[1..], s - {xs[0]})
  {
    forall x | x in s && x != xs[0]
      ensures x in xs[1..]
    {
      var i :| 0 <= i < |xs| && xs[i] == x;
      assert xs[1..][i - 1] == x;
    }
  }

  method Least(s: set<string>) returns (x: string)
    requires s != {}
    ensures IsLeast(x, s)
  {
    x :| x in s;
    LeqReflexive(x);
    var todo := s - {x};
    while todo != {}
      invariant x in s && todo <= s
      invariant forall y :: y in s - todo ==> Leq(x, y)
      decreases |todo|
    {
      var y :| y in todo;
      LeqTotal(x, y);
      LeqReflexive(y);
      if !Leq(x, y) {
        forall z | z in s - todo
          ensures Leq(y, z)
        {
          LeqTransitive(y, x, z);
        }
        x := y;
      }
      todo := todo - {y};
    }
  }

  /** The listing, computed. */
  method SortSet(s: set<string>) returns (xs: seq<string>)
    ensures xs == SortedSet(s)
  {
    xs := [];
    var rest := s;
    while rest != {}
      invariant rest <= s
      invariant forall x :: x in xs <==> x in s - rest
      invariant Ascending(xs)
      invariant forall x, y :: x in xs && y in rest ==> Less(x, y)
      decreases |rest|
    {
      var x := Least(rest);
      xs, rest := xs + [x], rest - {x};
    }
    ListingUnique(xs, SortedSet(s), s);
  }

  // ----- sorted() of a sequence, which keeps repetitions -----

  ghost predicate NonDescending(xs: seq<string>) {
    forall i, j :: 0 <= i < j < |xs| ==> Leq(xs[i], xs[j])
  }

  method SortSequence(xs: seq<string>) returns (ys: seq<string>)
    ensures NonDescending(ys) && multiset(ys) == multiset(xs)
  {
    ys := [];
    for i := 0 to |xs|
      invariant NonDescending(ys) && multiset(ys) == multiset(xs[..i])
    {
      assert xs[..i + 1] == xs[..i] + [xs[i]];
      ys := InsertSorted(ys, xs[i]);
    }
    assert xs[..|xs|] == xs;
  }

  method InsertSorted(ys: seq<string>, x: string) returns (zs: seq<string>)
    requires NonDescending(ys)
    ensures NonDescending(zs) && multiset(zs) == multiset(ys) + multiset{x}
  {
    hide Leq;
    var at := |ys|;
    while at > 0 && !Leq(ys[at - 1], x)
      invariant 0 <= at <= |ys|
      invariant forall j :: at <= j < |ys| ==> Leq(x, ys[j])
    {
      LeqTotal(x, ys[at - 1]);
      at := at - 1;
    }
    Spliced(ys, at, x);
    return ys[..at] + [x] + ys[at..];
  }

  lemma Spliced(ys: seq<string>, at: nat, x: string)
    requires NonDescending(ys) && at <= |ys|
    requires at > 0 ==> Leq(ys[at - 1], x)
    requires forall j :: at <= j < |ys| ==> Leq(x, ys[j])
    ensures NonDescending(ys[..at] + [x] + ys[at..])
    ensures multiset(ys[..at] + [x] + ys[at..]) == multiset(ys) + multiset{x}
  {
    hide Leq, NonDescending;
    assert ys == ys[..at] + ys[at..];
    SplicedInOrder(ys, at, x);
  }

  lemma SplicedInOrder(ys: seq<string>, at: nat, x: string)
    requires NonDescending(ys) && at <= |ys|
    requires at > 0 ==> Leq(ys[at - 1], x)
    requires forall j :: at <= j < |ys| ==> Leq(x, ys[j])
    ensures NonDescending(ys[..at] + [x] + ys[at..])
  {
    hide Leq;
    forall j | 0 <= j < at
      ensures Leq(ys[j], x)
    {
      if j < at - 1 {
        LeqTransitive(ys[j], ys[at - 1], x);
      }
    }
    var zs := ys[..at] + [x] + ys[at..];
    assert forall i :: 0 <= i < at ==> zs[i] == ys[i];
    assert forall i :: at < i < |zs| ==> zs[i] == ys[i - 1];
  }
}

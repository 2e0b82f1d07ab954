/** itertools.combinations: the k-element subsequences of a list, in order of position. */
module Combinations {
  import opened Ordering

  function Prepend(x: string, lists: seq<seq<string>>): (r: seq<seq<string>>)
    ensures |r| == |lists|
    ensures forall i :: 0 <= i < |r| ==> r[i] == [x] + lists[i]
  {
    if lists == [] then [] else [[x] + lists[0]] + Prepend(x, lists[1..])
  }

  function Choices(xs: seq<string>, k: nat): seq<seq<string>> {
    if k == 0 then [[]]
    else if xs == [] then []
    else Prepend(xs[0], Choices(xs[1..], k - 1)) + Choices(xs[1..], k)
  }

  /** The binomial coefficient, by Pascal's rule. */
  function Choose(n: nat, k: nat): nat {
    if k == 0 then 1
    else if n == 0 then 0
    else Choose(n - 1, k - 1) + Choose(n - 1, k)
  }

  lemma {:induction false} HowMany(xs: seq<string>, k: nat)
    ensures |Choices(xs, k)| == Choose(|xs|, k)
  {
    if k > 0 && xs != [] {
      HowMany(xs[1..], k - 1);
      HowMany(xs[1..], k);
    }
  }

  /** c picks k members of the ascending list xs, ascending. */
  ghost predicate Picks(c: seq<string>, xs: seq<string>, k: nat) {
    |c| == k && Ascending(c) && forall x :: x in c ==> x in xs
  }

  ghost predicate IsChoice(c: seq<string>, xs: seq<string>, k: nat) {
    c in Choices(xs, k)
  }

  lemma NothingToPick(xs: seq<string>, k: nat, c: seq<string>)
    requires k == 0 || xs == []
    ensures IsChoice(c, xs, k) <==> Picks(c, xs, k)
  {
    if c != [] {
      assert c[0] in c;
    } else {
      assert [c][0] == c;
    }
  }

  lemma PicksAreLong(c: seq<string>, k: nat)
    requires |c| != k
    ensures forall xs :: !Picks(c, xs, k)
  {
  }

  /** The choices from an ascending list are exactly its k-element sublists. */
  lemma {:induction false} ExactlyThePicks(xs: seq<string>, k: nat, c: seq<string>)
    requires Ascending(xs)
    ensures IsChoice(c, xs, k) <==> Picks(c, xs, k)
  {
    if k > 0 && xs != [] {
      hide Picks, Ascending, Choices, Choose, IsChoice, Leq, Less;
      var tail := xs[1..];
      TailAscends(xs);
      ExactlyThePicks(tail, k, c);
      if c != [] {
        ExactlyThePicks(tail, k - 1, c[1..]);
        FirstPick(xs, k, c);
      }
      ChoicesSplit(xs, k, c);
      if c == [] {
        assert !Picks(c, xs, k) && !Picks(c, tail, k) by { PicksAreLong(c, k); }
      }
    } else {
      NothingToPick(xs, k, c);
    }
  }

  /** A choice starts with the first member and goes on with a choice from the rest, or is a choice from the rest. */
  lemma ChoicesSplit(xs: seq<string>, k: nat, c: seq<string>)
    requires k > 0 && xs != []
    ensures IsChoice(c, xs, k)
       <==> (c != [] && c[0] == xs[0] && IsChoice(c[1..], xs[1..], k - 1)) || IsChoice(c, xs[1..], k)
  {
    hide Prepend;
    PrependMember(xs[0], Choices(xs[1..], k - 1), c);
  }

  lemma PrependMember(x: string, lists: seq<seq<string>>, c: seq<string>)
    ensures c in Prepend(x, lists) <==> c != [] && c[0] == x && c[1..] in lists
  {
    if c != [] && c[0] == x && c[1..] in lists {
      var i :| 0 <= i < |lists| && lists[i] == c[1..];
      assert c == [x] + c[1..];
      assert Prepend(x, lists)[i] == c;
    }
    if c in Prepend(x, lists) {
      var i :| 0 <= i < |lists| && Prepend(x, lists)[i] == c;
      assert c[1..] == lists[i];
    }
  }

  /** A pick either starts with the first member of the list or avoids it. */
  lemma FirstPick(xs: seq<string>, k: nat, c: seq<string>)
    requires Ascending(xs) && xs != [] && c != [] && k > 0
    ensures Picks(c, xs, k) <==> Picks(c, xs[1..], k) || (c[0] == xs[0] && Picks(c[1..], xs[1..], k - 1))
  {
    hide Leq;
    var tail := xs[1..];
    assert xs == [xs[0]] + tail;
    assert c == [c[0]] + c[1..];
    if Picks(c, xs, k) && c[0] == xs[0] {
      forall x | x in c[1..]
        ensures x in tail
      {
        var i :| 0 <= i < |c[1..]| && c[1..][i] == x;
        assert Less(c[0], c[i + 1]);
        assert x in c;
      }
    }
    if Picks(c, xs, k) && c[0] != xs[0] {
      FirstStaysOut(xs, c);
    }
    if c[0] == xs[0] && Picks(c[1..], tail, k - 1) {
      forall i | 0 < i < |c|
        ensures Less(c[0], c[i])
      {
        assert c[i] == c[1..][i - 1];
        assert c[i] in tail;
      }
      forall i, j | 0 <= i < j < |c|
        ensures Less(c[i], c[j])
      {
        if i > 0 {
          assert c[i] == c[1..][i - 1] && c[j] == c[1..][j - 1];
        }
      }
    }
  }

  /** A sorted pick that does not start with the least member does not hold it. */
  lemma FirstStaysOut(xs: seq<string>, c: seq<string>)
    requires Ascending(xs) && xs != [] && Ascending(c) && c != [] && c[0] != xs[0]
    requires forall x :: x in c ==> x in xs
    ensures xs[0] !in c
  {
    hide Leq;
    if xs[0] in c {
      var i :| 0 <= i < |c| && c[i] == xs[0];
      assert c[0] in xs;
      var j :| 0 <= j < |xs| && xs[j] == c[0];
      assert Less(c[0], c[i]) && Less(xs[0], xs[j]);
      LeqAntisymmetric(c[0], xs[0]);
      assert false;
    }
  }

  lemma TailAscends(xs: seq<string>)
    requires Ascending(xs) && xs != []
    ensures Ascending(xs[1..]) && xs[0] !in xs[1..]
  {
    hide Leq;
    forall i | 0 <= i < |xs[1..]|
      ensures xs[1..][i] != xs[0]
    {
      assert Less(xs[0], xs[i + 1]);
    }
  }

  ghost predicate NoRepeats(lists: seq<seq<string>>) {
    forall i, j :: 0 <= i < j < |lists| ==> lists[i] != lists[j]
  }

  ghost predicate Apart(a: seq<seq<string>>, b: seq<seq<string>>) {
    forall i, j :: 0 <= i < |a| && 0 <= j < |b| ==> a[i] != b[j]
  }

  lemma PrependKeepsDistinct(x: string, lists: seq<seq<string>>)
    requires NoRepeats(lists)
    ensures NoRepeats(Prepend(x, lists))
  {
    forall i, j | 0 <= i < j < |lists|
      ensures Prepend(x, lists)[i] != Prepend(x, lists)[j]
    {
      TailsDiffer(x, lists[i], lists[j]);
    }
  }

  lemma TailsDiffer(x: string, c: seq<string>, d: seq<string>)
    requires c != d
    ensures [x] + c != [x] + d
  {
    assert ([x] + c)[1..] == c && ([x] + d)[1..] == d;
  }

  lemma JoinKeepsDistinct(a: seq<seq<string>>, b: seq<seq<string>>)
    requires NoRepeats(a) && NoRepeats(b) && Apart(a, b)
    ensures NoRepeats(a + b)
  {
  }

  /** A choice from the rest does not hold the first member. */
  lemma ChosenFromRest(xs: seq<string>, k: nat, j: nat)
    requires Ascending(xs) && xs != [] && j < |Choices(xs[1..], k)|
    ensures xs[0] !in Choices(xs[1..], k)[j]
  {
    hide Choices, Ascending;
    TailAscends(xs);
    var c := Choices(xs[1..], k)[j];
    assert IsChoice(c, xs[1..], k);
    ExactlyThePicks(xs[1..], k, c);
  }

  lemma StartsWith(x: string, lists: seq<seq<string>>, i: nat)
    requires i < |lists|
    ensures x in Prepend(x, lists)[i]
  {
    assert Prepend(x, lists)[i][0] == x;
  }

  lemma FrontAvoidsRest(xs: seq<string>, k: nat)
    requires Ascending(xs) && xs != [] && k > 0
    ensures Apart(Prepend(xs[0], Choices(xs[1..], k - 1)), Choices(xs[1..], k))
  {
    hide Choices, Ascending, Prepend;
    var inner, rest := Choices(xs[1..], k - 1), Choices(xs[1..], k);
    var front := Prepend(xs[0], inner);
    forall i, j | 0 <= i < |front| && 0 <= j < |rest|
      ensures front[i] != rest[j]
    {
      StartsWith(xs[0], inner, i);
      ChosenFromRest(xs, k, j);
    }
  }

  /** No choice is listed twice. */
  lemma {:induction false} ListedOnce(xs: seq<string>, k: nat)
    requires Ascending(xs)
    ensures NoRepeats(Choices(xs, k))
  {
    if k > 0 && xs != [] {
      TailAscends(xs);
      hide Ascending, Prepend, NoRepeats, Apart;
      ListedOnce(xs[1..], k - 1);
      ListedOnce(xs[1..], k);
      PrependKeepsDistinct(xs[0], Choices(xs[1..], k - 1));
      FrontAvoidsRest(xs, k);
      JoinKeepsDistinct(Prepend(xs[0], Choices(xs[1..], k - 1)), Choices(xs[1..], k));
    }
  }
}

/** Python's split and join of strings by one separator character, and that they undo each other. */
module Strings {

  /** s.split(sep) */
  function Split(s: string, sep: char): (parts: seq<string>)
    ensures |parts| >= 1
    ensures forall i :: 0 <= i < |parts| ==> sep !in parts[i]
  {
    if s == "" then [""]
    else
      var rest := Split(s[1..], sep);
      if s[0] == sep then [""] + rest else [[s[0]] + rest[0]] + rest[1..]
  }

  /** sep.join(parts) */
  function Join(parts: seq<string>, sep: char): string {
    if parts == [] then ""
    else if |parts| == 1 then parts[0]
    else parts[0] + [sep] + Join(parts[1..], sep)
  }

  lemma {:induction false} SplitPlain(p: string, sep: char)
    requires sep !in p
    ensures Split(p, sep) == [p]
  {
    if p != "" {
      SplitPlain(p[1..], sep);
      assert p == [p[0]] + p[1..];
    }
  }

  /** Splitting works from both sides of a separator on its own. */
  lemma {:induction false} SplitAppend(s: string, t: string, sep: char)
    ensures Split(s + [sep] + t, sep) == Split(s, sep) + Split(t, sep)
  {
    var whole := s + [sep] + t;
    if s == "" {
      assert whole[1..] == t;
    } else {
      assert whole[1..] == s[1..] + [sep] + t;
      SplitAppend(s[1..], t, sep);
    }
  }

  lemma {:induction false} SplitJoin(parts: seq<string>, sep: char)
    requires parts != [] && forall i :: 0 <= i < |parts| ==> sep !in parts[i]
    ensures Split(Join(parts, sep), sep) == parts
  {
    if |parts| == 1 {
      SplitPlain(parts[0], sep);
    } else {
      SplitJoin(parts[1..], sep);
      SplitAppend(parts[0], Join(parts[1..], sep), sep);
      SplitPlain(parts[0], sep);
    }
  }

  lemma {:induction false} JoinSplit(s: string, sep: char)
    ensures Join(Split(s, sep), sep) == s
  {
    if s != "" {
      var rest := Split(s[1..], sep);
      JoinSplit(s[1..], sep);
      if s[0] == sep {
        assert ([""] + rest)[1..] == rest;
      } else {
        var parts := [[s[0]] + rest[0]] + rest[1..];
        assert parts == Split(s, sep);
        assert parts[1..] == rest[1..];
      }
      assert s == [s[0]] + s[1..];
    }
  }

  lemma {:induction false} SplitChars(s: string, sep: char, i: nat, c: char)
    requires i < |Split(s, sep)| && c in Split(s, sep)[i]
    ensures c in s
  {
    if s != "" {
      var rest := Split(s[1..], sep);
      if s[0] == sep {
        SplitChars(s[1..], sep, i - 1, c);
      } else if i > 0 {
        SplitChars(s[1..], sep, i, c);
      } else if c != s[0] {
        SplitChars(s[1..], sep, 0, c);
      }
    }
  }

  lemma {:induction false} JoinChars(parts: seq<string>, sep: char, c: char)
    requires c in Join(parts, sep) && c != sep
    ensures exists i :: 0 <= i < |parts| && c in parts[i]
  {
    if |parts| > 1 && c !in parts[0] {
      JoinChars(parts[1..], sep, c);
      var i :| 0 <= i < |parts[1..]| && c in parts[1..][i];
      assert c in parts[i + 1];
    }
  }

  /** The pieces of all the strings, one after the other. */
  function AllPieces(xs: seq<string>, sep: char): seq<string> {
    if xs == [] then [] else Split(xs[0], sep) + AllPieces(xs[1..], sep)
  }

  lemma {:induction false} SplitOfJoin(xs: seq<string>, sep: char)
    requires xs != []
    ensures Split(Join(xs, sep), sep) == AllPieces(xs, sep)
  {
    if |xs| > 1 {
      SplitOfJoin(xs[1..], sep);
      SplitAppend(xs[0], Join(xs[1..], sep), sep);
    }
  }

  /** Two joined lists are the same string exactly when their strings have the same pieces. */
  lemma JoinedAlikeIff(xs: seq<string>, ys: seq<string>, sep: char)
    requires xs != [] && ys != []
    ensures Join(xs, sep) == Join(ys, sep) <==> AllPieces(xs, sep) == AllPieces(ys, sep)
  {
    SplitOfJoin(xs, sep);
    SplitOfJoin(ys, sep);
    JoinSplit(Join(xs, sep), sep);
    JoinSplit(Join(ys, sep), sep);
  }

  lemma {:induction false} PlainPieces(xs: seq<string>, sep: char)
    requires forall x :: x in xs ==> sep !in x
    ensures AllPieces(xs, sep) == xs
  {
    if xs != [] {
      SplitPlain(xs[0], sep);
      PlainPieces(xs[1..], sep);
    }
  }
}

/** assurance/zip_safety.py, canonical_path: the one name a member goes by. */
module ZipPaths {
  import opened Strings
  import opened Wrappers

  datatype PathError = UnsafePath(name: string)

  const SLASH := '/'

  /** The components that PurePosixPath keeps. */
  function Kept(parts: seq<string>): (kept: seq<string>)
    ensures forall x :: x in kept <==> x in parts && x != "" && x != "."
  {
    if parts == [] then []
    else (if parts[0] == "" || parts[0] == "." then [] else [parts[0]]) + Kept(parts[1..])
  }

  function Parts(name: string): seq<string> {
    Kept(Split(name, SLASH))
  }

  predicate Unsafe(name: string) {
    || name == "" || '\\' in name || '\0' in name || ':' in name
    || name[0] == SLASH || ".." in Split(name, SLASH)
  }

  function CanonicalPath(name: string): Result<string, PathError> {
    if Unsafe(name) || Parts(name) == [] then Failure(UnsafePath(name)) else Success(Join(Parts(name), SLASH))
  }

  lemma {:induction false} NothingDropped(parts: seq<string>)
    requires forall i :: 0 <= i < |parts| ==> parts[i] != "" && parts[i] != "."
    ensures Kept(parts) == parts
  {
    if parts != [] {
      NothingDropped(parts[1..]);
    }
  }

  /** The parts of a name hold no characters that the name does not. */
  lemma PartChars(name: string, c: char)
    requires c in Join(Parts(name), SLASH) && c != SLASH
    ensures c in name
  {
    hide Join;
    JoinChars(Parts(name), SLASH, c);
    var i :| 0 <= i < |Parts(name)| && c in Parts(name)[i];
    assert Parts(name)[i] in Split(name, SLASH);
    var j :| 0 <= j < |Split(name, SLASH)| && Split(name, SLASH)[j] == Parts(name)[i];
    SplitChars(name, SLASH, j, c);
  }

  lemma PartsAreClean(name: string, i: nat)
    requires i < |Parts(name)|
    ensures var p := Parts(name)[i]; p != "" && p != "." && SLASH !in p && p in Split(name, SLASH)
  {
    var p := Parts(name)[i];
    assert p in Kept(Split(name, SLASH));
    var j :| 0 <= j < |Split(name, SLASH)| && Split(name, SLASH)[j] == p;
  }

  /** Normalizing keeps the parts and nothing else. */
  lemma PartsOfJoin(name: string)
    requires Parts(name) != []
    ensures Split(Join(Parts(name), SLASH), SLASH) == Parts(name) && Parts(Join(Parts(name), SLASH)) == Parts(name)
  {
    hide Split, Kept, Join;
    forall i | 0 <= i < |Parts(name)|
      ensures Parts(name)[i] != "" && Parts(name)[i] != "." && SLASH !in Parts(name)[i]
    {
      PartsAreClean(name, i);
    }
    SplitJoin(Parts(name), SLASH);
    NothingDropped(Parts(name));
  }

  /** A canonical path is safe, relative, free of empty, dot and dot-dot components, and its own canonical path. */
  lemma CanonicalIsFixed(name: string)
    requires CanonicalPath(name).Success?
    ensures var key := CanonicalPath(name).value;
            && !Unsafe(key)
            && CanonicalPath(key) == Success(key)
            && forall p :: p in Split(key, SLASH) ==> p != "" && p != "." && p != ".."
  {
    hide Split, Kept, Join;
    var parts := Parts(name);
    var key := Join(parts, SLASH);
    PartsOfJoin(name);
    forall p | p in Split(key, SLASH)
      ensures p != "" && p != "." && p != ".."
    {
      var i :| 0 <= i < |parts| && parts[i] == p;
      PartsAreClean(name, i);
    }
    forall c | c in {'\\', '\0', ':'}
      ensures c !in key
    {
      if c in key {
        PartChars(name, c);
      }
    }
    PartsAreClean(name, 0);
    StartsWithPart(parts);
  }

  lemma StartsWithPart(parts: seq<string>)
    requires parts != [] && parts[0] != "" && SLASH !in parts[0]
    ensures Join(parts, SLASH) != "" && Join(parts, SLASH)[0] != SLASH
  {
    assert parts[0][0] in parts[0];
  }

  /** Two acceptable names normalize to one key just when they have the same parts. */
  lemma SameKeyIffSameParts(a: string, b: string)
    requires CanonicalPath(a).Success? && CanonicalPath(b).Success?
    ensures CanonicalPath(a) == CanonicalPath(b) <==> Parts(a) == Parts(b)
  {
    hide Split, Kept, Join;
    PartsOfJoin(a);
    PartsOfJoin(b);
  }
}

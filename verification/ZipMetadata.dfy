/** assurance/zip_safety.py, _metadata: the end-of-central-directory record and what it declares. */
module ZipMetadata {
  import opened Wrappers

  type byte = x: int | 0 <= x < 256

  datatype Limits = Limits(inputBytes: nat, centralBytes: nat, members: nat, memberBytes: nat, expandedBytes: nat,
                           ratio: nat)

  datatype ZipError = MissingEnd | SplitArchive | BadLocator | BadRecord | StructError | ResourceLimit | BadExtent
    | Integrity
    | UnsafeName | TruncatedName | DuplicateName | PathCollision | SpecialFile | NonemptyDirectory

  const END_SIGNATURE: seq<byte> := [0x50, 0x4B, 5, 6]
  const LOCATOR_SIGNATURE: seq<byte> := [0x50, 0x4B, 6, 7]
  const RECORD_SIGNATURE: seq<byte> := [0x50, 0x4B, 6, 6]

  /** n bytes at i, least significant first. */
  function Le(raw: seq<byte>, i: nat, n: nat): (v: nat)
    requires i + n <= |raw|
    decreases n
  {
    if n == 0 then 0 else raw[i] + 256 * Le(raw, i + 1, n - 1)
  }

  predicate Occurs(raw: seq<byte>, signature: seq<byte>, p: int) {
    0 <= p && p + |signature| <= |raw| && raw[p..p + |signature|] == signature
  }

  /** raw.rfind(signature, lo, hi) */
  function RFind(raw: seq<byte>, signature: seq<byte>, lo: nat, hi: nat): (p: int)
    requires hi <= |raw| && signature != []
    ensures p >= 0 ==> lo <= p && p + |signature| <= hi && Occurs(raw, signature, p)
    ensures p < 0 ==> p == -1
    ensures forall q :: q > p && q >= lo && q + |signature| <= hi ==> !Occurs(raw, signature, q)
    decreases hi
  {
    if hi < lo + |signature| then -1
    else if Occurs(raw, signature, hi - |signature|) then hi - |signature|
    else RFind(raw, signature, lo, hi - 1)
  }

  /** An end record at p whose comment runs exactly to the end of the file. */
  predicate IsEnd(raw: seq<byte>, p: int) {
    && Occurs(raw, END_SIGNATURE, p)
    && p + 22 <= |raw|
    && p + 22 + Le(raw, p + 20, 2) == |raw|
  }

  ghost predicate IsLastEnd(raw: seq<byte>, p: int) {
    IsEnd(raw, p) && forall q :: q > p ==> !IsEnd(raw, q)
  }

  lemma LeBound(raw: seq<byte>, i: nat)
    requires i + 2 <= |raw|
    ensures Le(raw, i, 2) <= 65535
  {
    assert Le(raw, i, 2) == raw[i] + 256 * Le(raw, i + 1, 1);
    assert Le(raw, i + 1, 1) == raw[i + 1] + 256 * Le(raw, i + 2, 0);
  }

  /** The signature does not overlap itself. */
  lemma NoOverlap(raw: seq<byte>, p: int, q: int)
    requires Occurs(raw, END_SIGNATURE, p) && Occurs(raw, END_SIGNATURE, q) && p < q
    ensures p + 4 <= q
  {
    assert raw[q] == raw[q..q + 4][0];
    assert raw[p + 1] == raw[p..p + 4][1] && raw[p + 2] == raw[p..p + 4][2] && raw[p + 3] == raw[p..p + 4][3];
  }

  /** The backward search: the greatest valid end record anywhere in the file, though only the last 65557 bytes are
      looked at. */
  method FindEnd(raw: seq<byte>) returns (end: Option<nat>)
    ensures end.None? <==> forall q :: !IsEnd(raw, q)
    ensures end.Some? ==> IsLastEnd(raw, end.value)
  {
    var lo: nat := if |raw| < 65557 then 0 else |raw| - 65557;
    forall q | IsEnd(raw, q)
      ensures q >= lo
    {
      LeBound(raw, q + 20);
    }
    var searchEnd: nat := |raw|;
    while true
      invariant searchEnd <= |raw|
      invariant forall q :: IsEnd(raw, q) ==> lo <= q && q + 4 <= searchEnd
      decreases searchEnd
    {
      var p := RFind(raw, END_SIGNATURE, lo, searchEnd);
      if p < 0 {
        return None;
      }
      if IsEnd(raw, p) {
        return Some(p);
      }
      forall q | IsEnd(raw, q)
        ensures q + 4 <= p
      {
        if p < q {
        } else if q < p {
          NoOverlap(raw, q, p);
        }
      }
      searchEnd := p;
    }
  }

  // ----- what the record declares -----

  /** Python's raw[a:b], where negative indices count from the end. */
  function PySlice(raw: seq<byte>, a: int, b: int): seq<byte> {
    var lo := Clamp(a, |raw|);
    var hi := Clamp(b, |raw|);
    if lo < hi then raw[lo..hi] else []
  }

  function Clamp(i: int, n: nat): (r: nat)
    ensures r <= n
  {
    if i < 0 then (if i + n < 0 then 0 else i + n) else if i < n then i else n
  }

  /** Where struct.unpack_from(format, raw, offset) reads its size bytes, or None when it raises. */
  function UnpackAt(offset: int, size: nat, n: nat): (at: Option<nat>)
    ensures at.Some? ==> at.value + size <= n
  {
    if offset < 0 then
      (if offset + size > 0 || offset + n < 0 then None else Some(offset + n))
    else if offset + size > n then None
    else Some(offset)
  }

  datatype Directory = Directory(count: nat, size: nat, offset: nat, end: nat)

  function ClassicDirectory(raw: seq<byte>, p: nat): Result<Directory, ZipError>
    requires p + 22 <= |raw|
  {
    var disk, cdDisk, diskCount, count := Le(raw, p + 4, 2), Le(raw, p + 6, 2), Le(raw, p + 8, 2), Le(raw, p + 10, 2);
    if disk != 0 || cdDisk != 0 || diskCount != count then Failure(SplitArchive)
    else Success(Directory(count, Le(raw, p + 12, 4), Le(raw, p + 16, 4), p))
  }

  /** The ZIP64 locator before the end record at p, where the slice says there is one. */
  function HasLocator(raw: seq<byte>, p: nat): bool {
    PySlice(raw, p - 20, p - 16) == LOCATOR_SIGNATURE
  }

  function Zip64Directory(raw: seq<byte>, p: nat): Result<Directory, ZipError>
    requires p + 22 <= |raw|
  {
    var at := UnpackAt(p - 20, 20, |raw|);
    if at.None? then Failure(StructError)
    else
      var disk, offset, disks := Le(raw, at.value + 4, 4), Le(raw, at.value + 8, 8), Le(raw, at.value + 16, 4);
      if disk != 0 || disks != 1 || offset + 56 > p - 20 || PySlice(raw, offset, offset + 4) != RECORD_SIGNATURE then
        Failure(BadLocator)
      else
        var recordSize, thisDisk, cdDisk := Le(raw, offset + 4, 8), Le(raw, offset + 16, 4), Le(raw, offset + 20, 4);
        var diskCount, count := Le(raw, offset + 24, 8), Le(raw, offset + 32, 8);
        if recordSize + offset + 12 != p - 20 || thisDisk != 0 || cdDisk != 0 || diskCount != count
            then Failure(BadRecord)
        else Success(Directory(count, Le(raw, offset + 40, 8), Le(raw, offset + 48, 8), offset))
  }

  function Declared(raw: seq<byte>, p: nat): Result<Directory, ZipError>
    requires p + 22 <= |raw|
  {
    var classic := ClassicDirectory(raw, p);
    if classic.Failure? || !HasLocator(raw, p) then classic else Zip64Directory(raw, p)
  }

  function Verdict(raw: seq<byte>, p: nat, limits: Limits): Result<nat, ZipError>
    requires p + 22 <= |raw|
  {
    var d := Declared(raw, p);
    if d.Failure? then Failure(d.error)
    else if d.value.count > limits.members || d.value.size > limits.centralBytes then Failure(ResourceLimit)
    else if d.value.offset + d.value.size > d.value.end then Failure(BadExtent)
    else Success(d.value.count)
  }

  method Metadata(raw: seq<byte>, limits: Limits) returns (r: Result<nat, ZipError>)
    ensures (forall q :: !IsEnd(raw, q)) <==> r == Failure(MissingEnd)
    ensures forall p :: IsLastEnd(raw, p) ==> r == Verdict(raw, p, limits)
    ensures r != Failure(MissingEnd) ==> exists p: nat :: IsLastEnd(raw, p)
  {
    hide Declared;
    var end := FindEnd(raw);
    if end.None? {
      return Failure(MissingEnd);
    }
    VerdictIsNotMissing(raw, end.value, limits);
    return Verdict(raw, end.value, limits);
  }

  lemma VerdictIsNotMissing(raw: seq<byte>, p: nat, limits: Limits)
    requires p + 22 <= |raw|
    ensures Verdict(raw, p, limits) != Failure(MissingEnd)
  {
  }

  /** An accepted directory keeps to the quotas and lies before the record that declares it, classic or ZIP64. */
  lemma AcceptedDirectoryFits(raw: seq<byte>, p: nat, limits: Limits)
    requires p + 22 <= |raw| && Verdict(raw, p, limits).Success?
    ensures var d := Declared(raw, p).value;
            && Declared(raw, p).Success?
            && d.count == Verdict(raw, p, limits).value <= limits.members
            && d.size <= limits.centralBytes
            && d.offset + d.size <= d.end <= p
            && (HasLocator(raw, p) ==> d.end + 76 <= p && Occurs(raw, RECORD_SIGNATURE, d.end))
            && (!HasLocator(raw, p) ==> d.end == p)
  {
  }

  /** Where the record starts before byte 20, the locator's slice wraps round to the end of the file or is empty; a
      signature found there can only reject the archive, never redirect it. */
  lemma WrappedLocatorRejects(raw: seq<byte>, p: nat, limits: Limits)
    requires p + 22 <= |raw| && p < 20 && HasLocator(raw, p)
    ensures Verdict(raw, p, limits).Failure?
    ensures p < 16
  {
  }

  /** The rejection is not always the documented error: exactly a wrapped locator at bytes 1 to 15 of an otherwise
      unsplit archive makes unpack_from itself fail. */
  lemma StructErrorIff(raw: seq<byte>, p: nat, limits: Limits)
    requires p + 22 <= |raw|
    ensures Verdict(raw, p, limits) == Failure(StructError)
       <==> 1 <= p < 16 && HasLocator(raw, p) && ClassicDirectory(raw, p).Success?
  {
    if p >= 16 && p < 20 {
      assert PySlice(raw, p - 20, p - 16) == [];
    }
  }

  /** Such an archive exists: one byte, an end record, and a comment that starts like a locator. */
  lemma StructErrorHappens(limits: Limits)
    ensures var raw := WrappedLocatorExample();
            IsLastEnd(raw, 1) && Verdict(raw, 1, limits) == Failure(StructError)
  {
    hide Verdict, HasLocator, ClassicDirectory, IsLastEnd, WrappedLocatorExample;
    var raw := WrappedLocatorExample();
    ExampleEnds();
    ExampleIsUnsplit();
    StructErrorIff(raw, 1, limits);
  }

  lemma ExampleEnds()
    ensures IsLastEnd(WrappedLocatorExample(), 1)
  {
    var raw := WrappedLocatorExample();
    assert raw[1..5] == END_SIGNATURE;
    assert raw[21] == 19 && raw[22] == 0;
    assert Le(raw, 22, 1) == 0 + 256 * Le(raw, 23, 0);
    assert Le(raw, 21, 2) == 19;
    assert forall q :: 1 < q < |raw| && q != 23 ==> raw[q] != 0x50;
    assert raw[25] == 6;
    forall q | q > 1
      ensures !Occurs(raw, END_SIGNATURE, q)
    {
      NoSecondEnd(raw, q);
    }
  }

  lemma NoSecondEnd(raw: seq<byte>, q: int)
    requires q < |raw| && q >= 0 ==> raw[q] != 0x50 || (q + 2 < |raw| && raw[q + 2] != 5)
    ensures !Occurs(raw, END_SIGNATURE, q)
  {
  }

  lemma ExampleIsUnsplit()
    ensures |WrappedLocatorExample()| == 42
    ensures HasLocator(WrappedLocatorExample(), 1) && ClassicDirectory(WrappedLocatorExample(), 1).Success?
  {
    var raw := WrappedLocatorExample();
    assert raw[23..27] == LOCATOR_SIGNATURE;
    assert forall i :: 5 <= i < 21 ==> raw[i] == 0;
    LeZero(raw, 5, 2);
    LeZero(raw, 7, 2);
    LeZero(raw, 9, 2);
    LeZero(raw, 11, 2);
  }

  function WrappedLocatorExample(): seq<byte> {
    [0] + END_SIGNATURE + seq(16, i => 0) + [19, 0] + LOCATOR_SIGNATURE + seq(15, i => 0)
  }

  lemma LeZero(raw: seq<byte>, i: nat, n: nat)
    requires i + n <= |raw| && forall j :: i <= j < i + n ==> raw[j] == 0
    ensures Le(raw, i, n) == 0
    decreases n
  {
    if n > 0 {
      LeZero(raw, i + 1, n - 1);
    }
  }
}

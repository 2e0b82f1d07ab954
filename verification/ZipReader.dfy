/** assurance/zip_safety.py, _expanded and read_bytes: the members of an archive, read within their budgets. */
module ZipReader {
  import opened Wrappers
  import opened ZipExpansion
  import opened ZipMetadata
  import opened ZipPaths

  datatype Method = Stored | Deflated | Lzma | OtherCodec | Unsupported

  /** A central-directory entry, as the archive's index lists it. */
  datatype Info = Info(name: string, originalName: string, offset: nat, compressedSize: nat, fileSize: nat, crc: nat,
                       kind: Method, special: bool, directory: bool, opens: bool)

  // ----- one member -----

  const LOCAL_SIGNATURE: seq<byte> := [0x50, 0x4B, 3, 4]

  /** The compressed bytes behind a member's local header. */
  function Payload(raw: seq<byte>, info: Info): Result<seq<byte>, ZipError> {
    if PySlice(raw, info.offset, info.offset + 4) != LOCAL_SIGNATURE || info.offset + 30 > |raw| then Failure(Integrity)
    else
      var start := info.offset + 30 + Le(raw, info.offset + 26, 2) + Le(raw, info.offset + 28, 2);
      if start + info.compressedSize > |raw| then Failure(Integrity)
      else Success(raw[start..start + info.compressedSize])
  }

  /** The data the decoder is given: LZMA members carry their properties first. */
  function Stream(info: Info, payload: seq<byte>): Result<seq<byte>, ZipError> {
    match info.kind
    case Unsupported => Failure(Integrity)
    case Lzma =>
      if |payload| < 9 || Le(payload, 2, 2) != 5 then Failure(Integrity)
      else if Le(payload, 5, 4) > 256 * 1024 * 1024 then Failure(ResourceLimit)
      else Success(payload[9..])
    case _ => Success(payload)
  }

  /** What an LZMA decoder is configured from; the others take nothing from the data. */
  function Properties(info: Info, payload: seq<byte>): seq<byte> {
    if info.kind == Lzma && |payload| >= 9 then payload[4..9] else []
  }

  /** The decoders for each member and its properties, what they mean, and the checksum. */
  datatype Codecs<!S> = Codecs(decoder: (Info, seq<byte>) -> Decoder<S>, meaning: (S, seq<byte>) -> seq<byte>,
                               crc32: seq<byte> -> nat)

  ghost predicate Sound<S(!new)>(c: Codecs<S>) {
    forall info, properties ::
      && Honours(c.decoder(info, properties), info.kind == Deflated)
      && Faithful(c.decoder(info, properties), info.kind == Deflated, c.meaning)
  }

  /** The data that the member's decoder is run over. */
  function Encoded(raw: seq<byte>, info: Info): Result<seq<byte>, ZipError> {
    var payload := Payload(raw, info);
    if payload.Failure? then payload else Stream(info, payload.value)
  }

  ghost function DecoderOf<S>(raw: seq<byte>, info: Info, c: Codecs<S>): Decoder<S>
    requires Payload(raw, info).Success?
  {
    c.decoder(info, Properties(info, Payload(raw, info).value))
  }

  /** What a member holds, whatever it declares. */
  ghost function Contents<S>(raw: seq<byte>, info: Info, c: Codecs<S>): Result<seq<byte>, ZipError> {
    var encoded := Encoded(raw, info);
    if encoded.Failure? || info.kind == Stored then encoded
    else Success(c.meaning(DecoderOf(raw, info, c).start, encoded.value))
  }

  /** data is the member's content, and as long and with the checksum that the directory declares. */
  ghost predicate Genuine<S>(raw: seq<byte>, info: Info, c: Codecs<S>, data: seq<byte>) {
    Contents(raw, info, c) == Success(data) && |data| == info.fileSize && c.crc32(data) == info.crc
  }

  /** The run of the member's decoder over its data, under the ceiling, ends with r. */
  ghost predicate DecodesTo<S(!new)>(raw: seq<byte>, info: Info, c: Codecs<S>, ceiling: nat,
                                     r: Result<seq<byte>, ZipError>)
  {
    && info.kind != Stored && Encoded(raw, info).Success?
    && EndsWith(Encoded(raw, info).value, info.kind == Deflated, DecoderOf(raw, info, c), ceiling, r)
  }

  /** The decoder would need too large a dictionary, or the content is more than the ceiling and the run of its decoder
      does not end in refusal before that shows. */
  ghost predicate Overflows<S(!new)>(raw: seq<byte>, info: Info, c: Codecs<S>, ceiling: nat) {
    var contents := Contents(raw, info, c);
    || contents == Failure(ResourceLimit)
    || (contents.Success? && |contents.value| > ceiling && !DecodesTo(raw, info, c, ceiling, Failure(Integrity)))
  }

  /** The member does not overflow, but there is no content, or it is not what the directory declares, or the run of its
      decoder over it ends in refusal. */
  ghost predicate Corrupt<S(!new)>(raw: seq<byte>, info: Info, c: Codecs<S>, ceiling: nat) {
    && !Overflows(raw, info, c, ceiling)
    && ((forall data :: !Genuine(raw, info, c, data)) || DecodesTo(raw, info, c, ceiling, Failure(Integrity)))
  }

  /** A genuine member is not corrupt when it is stored, or when the run of its decoder ends with the data all used. */
  lemma FinishedIsNotCorrupt<S(!new)>(raw: seq<byte>, info: Info, c: Codecs<S>, ceiling: nat, data: seq<byte>,
                                      output: seq<byte>)
    requires Genuine(raw, info, c, data)
    requires info.kind == Stored || DecodesTo(raw, info, c, ceiling, Success(output))
    ensures !Corrupt(raw, info, c, ceiling)
  {
    hide Genuine, Overflows;
    if info.kind != Stored {
      OneDecoding(raw, info, c, ceiling, Success(output), Failure(Integrity));
    }
  }

  lemma OneDecoding<S(!new)>(raw: seq<byte>, info: Info, c: Codecs<S>, ceiling: nat, r: Result<seq<byte>, ZipError>,
                             r': Result<seq<byte>, ZipError>)
    requires DecodesTo(raw, info, c, ceiling, r) && r != r'
    ensures !DecodesTo(raw, info, c, ceiling, r')
  {
    hide EndsWith, Payload, Stream;
    if DecodesTo(raw, info, c, ceiling, r') {
      OneEnding(Encoded(raw, info).value, info.kind == Deflated, DecoderOf(raw, info, c), ceiling, r, r');
    }
  }

  /** Nor when its data are well formed for its decoder, whatever the ceiling. */
  lemma WellFormedIsNotCorrupt<S(!new)>(raw: seq<byte>, info: Info, c: Codecs<S>, ceiling: nat, data: seq<byte>,
                                        wf: (S, seq<byte>) -> bool)
    requires Genuine(raw, info, c, data)
    requires Encoded(raw, info).Success?
    requires Orderly(DecoderOf(raw, info, c), info.kind == Deflated, wf)
    requires wf(DecoderOf(raw, info, c).start, Encoded(raw, info).value)
    ensures !Corrupt(raw, info, c, ceiling)
  {
    hide Genuine, EndsWith, Payload, Stream, Orderly, Overflows;
    OrderlyNeverRefused(Encoded(raw, info).value, info.kind == Deflated, DecoderOf(raw, info, c), ceiling, wf);
  }

  /** A member is expanded exactly when it neither overflows nor is corrupt, and each of these has its own error. */
  method Expanded<S(!new)>(raw: seq<byte>, info: Info, c: Codecs<S>, ceiling: nat)
    returns (r: Result<seq<byte>, ZipError>, ghost peak: nat)
    requires Sound(c)
    ensures peak <= ceiling + 1
    ensures r.Success? ==> Genuine(raw, info, c, r.value) && |r.value| <= ceiling
    ensures r == Failure(ResourceLimit) <==> Overflows(raw, info, c, ceiling)
    ensures r == Failure(Integrity) <==> Corrupt(raw, info, c, ceiling)
    ensures r.Failure? ==> r.error in {ResourceLimit, Integrity}
  {
    hide Honours, Faithful, PySlice, Le, EndsWith;
    peak := 0;
    var payload := Payload(raw, info);
    if payload.Failure? {
      return Failure(payload.error), peak;
    }
    var stream := Stream(info, payload.value);
    if stream.Failure? {
      return Failure(stream.error), peak;
    }
    if info.kind == Stored {
      r, peak := ExpandStored(stream.value, ceiling);
    } else {
      var decoder := c.decoder(info, Properties(info, payload.value));
      r, peak := ExpandCoded(stream.value, info.kind == Deflated, decoder, ceiling, c.meaning);
      assert DecodesTo(raw, info, c, ceiling, r);
      if r != Failure(Integrity) {
        OneDecoding(raw, info, c, ceiling, r, Failure(Integrity));
      }
    }
    if r.Success? && (|r.value| != info.fileSize || c.crc32(r.value) != info.crc) {
      return Failure(Integrity), peak;
    }
  }

  // ----- the archive -----

  /** The members read, in order. */
  type Entries = seq<(string, seq<byte>)>

  ghost function Total(entries: Entries): nat {
    if entries == [] then 0 else Total(entries[..|entries| - 1]) + |entries[|entries| - 1].1|
  }

  /** The entries come from members of the directory, keep to the limits, and no two go by one path. */
  ghost predicate WithinLimits<S>(raw: seq<byte>, infos: seq<Info>, c: Codecs<S>, limits: Limits, entries: Entries) {
    && Total(entries) <= limits.expandedBytes
    && (forall i :: 0 <= i < |entries| ==> FromMember(raw, infos, c, limits, entries[i]))
    && (forall i, j :: 0 <= i < j < |entries| ==> CanonicalPath(entries[i].0) != CanonicalPath(entries[j].0))
  }

  ghost predicate FromMember<S>(raw: seq<byte>, infos: seq<Info>, c: Codecs<S>, limits: Limits,
                                entry: (string, seq<byte>))
  {
    CanonicalPath(entry.0).Success? && exists i :: 0 <= i < |infos| && IsMember(raw, infos[i], c, limits, entry)
  }

  ghost predicate IsMember<S>(raw: seq<byte>, info: Info, c: Codecs<S>, limits: Limits, entry: (string, seq<byte>)) {
    && info.name == entry.0 && !info.directory
    && Genuine(raw, info, c, entry.1)
    && |entry.1| <= limits.memberBytes
    && |entry.1| <= Most(1, info.compressedSize) * limits.ratio
  }

  function Most(a: nat, b: nat): nat {
    if a < b then b else a
  }

  /** The member declares more than a budget allows. */
  predicate DeclaresTooMuch(info: Info, limits: Limits, total: nat) {
    || info.fileSize > limits.memberBytes
    || total + info.fileSize > limits.expandedBytes
    || info.fileSize > Most(1, info.compressedSize) * limits.ratio
  }

  /** The smallest of the budgets. */
  function Ceiling(info: Info, limits: Limits, total: nat): nat
    requires total <= limits.expandedBytes
  {
    Least(Least(limits.memberBytes, limits.expandedBytes - total), Most(1, info.compressedSize) * limits.ratio)
  }

  /** The member declares more than a budget allows, or it opens and holds more than the smallest of them. */
  ghost predicate OverBudget<S(!new)>(raw: seq<byte>, info: Info, c: Codecs<S>, limits: Limits, total: nat) {
    || DeclaresTooMuch(info, limits, total)
    || (info.opens && Overflows(raw, info, c, Ceiling(info, limits, total)))
  }

  /** The member declares no more than the budgets allow, but it does not open or is corrupt. */
  ghost predicate Unreadable<S(!new)>(raw: seq<byte>, info: Info, c: Codecs<S>, limits: Limits, total: nat) {
    && !DeclaresTooMuch(info, limits, total)
    && (!info.opens || Corrupt(raw, info, c, Ceiling(info, limits, total)))
  }

  /** The size checks, then the expansion under the smallest of the budgets. */
  method ReadMember<S(!new)>(raw: seq<byte>, info: Info, c: Codecs<S>, limits: Limits, total: nat)
    returns (r: Result<seq<byte>, ZipError>)
    requires Sound(c) && total <= limits.expandedBytes && !info.directory
    ensures r.Success? ==> IsMember(raw, info, c, limits, (info.name, r.value)) && |r.value| == info.fileSize
                           && total + |r.value| <= limits.expandedBytes
    ensures r == Failure(ResourceLimit) <==> OverBudget(raw, info, c, limits, total)
    ensures r == Failure(Integrity) <==> Unreadable(raw, info, c, limits, total)
    ensures r.Failure? ==> r.error in {ResourceLimit, Integrity}
  {
    hide Sound, Contents, Corrupt, Overflows;
    if info.fileSize > limits.memberBytes || total + info.fileSize > limits.expandedBytes {
      return Failure(ResourceLimit);
    }
    var byRatio := Most(1, info.compressedSize) * limits.ratio;
    if info.fileSize > byRatio {
      return Failure(ResourceLimit);
    }
    if !info.opens {
      return Failure(Integrity);
    }
    ghost var peak;
    r, peak := Expanded(raw, info, c, Ceiling(info, limits, total));
  }

  /** Member i is accounted for: read, a directory, or, where errors are collected, skipped because its name is unsafe
      or is that of an earlier member. */
  ghost predicate Accounted(infos: seq<Info>, i: nat, lenient: bool, entries: Entries)
    requires i < |infos|
  {
    || infos[i].directory
    || IsRead(infos[i].name, entries)
    || (lenient && (CanonicalPath(infos[i].name).Failure? || NamedBefore(infos[i].name, infos, i)))
  }

  ghost predicate IsRead(name: string, entries: Entries) {
    exists i :: 0 <= i < |entries| && entries[i].0 == name
  }

  ghost predicate NamedBefore(name: string, infos: seq<Info>, i: nat)
    requires i <= |infos|
  {
    exists j :: 0 <= j < i && infos[j].name == name
  }

  /** The errors of the first n members that are skipped, in order. */
  ghost function Skipped(infos: seq<Info>, n: nat): seq<ZipError>
    requires n <= |infos|
  {
    if n == 0 then []
    else
      var i := n - 1;
      Skipped(infos, i) + (if CanonicalPath(infos[i].name).Failure? then [UnsafeName]
                           else if NamedBefore(infos[i].name, infos, i) then [DuplicateName]
                           else [])
  }

  /** The names taken among the first i members, and their paths. */
  ghost predicate Taken(names: set<string>, keys: set<string>, entries: Entries, infos: seq<Info>, i: nat)
    requires i <= |infos|
  {
    && (forall n :: n in names ==>
        CanonicalPath(n).Success? && CanonicalPath(n).value in keys && NamedBefore(n, infos, i))
    && (forall k :: k in keys ==> exists n :: n in names && CanonicalPath(n) == Success(k))
    && (forall j :: 0 <= j < |entries| ==> entries[j].0 in names)
    && (forall j :: 0 <= j < i && CanonicalPath(infos[j].name).Success? ==> infos[j].name in names)
  }

  lemma OneMoreEntry<S(!new)>(raw: seq<byte>, infos: seq<Info>, c: Codecs<S>, limits: Limits, entries: Entries, i: nat,
                              names: set<string>, keys: set<string>, data: seq<byte>)
    requires i < |infos| && WithinLimits(raw, infos, c, limits, entries) && Taken(names, keys, entries, infos, i)
    requires var info := infos[i];
             && IsMember(raw, info, c, limits, (info.name, data))
             && CanonicalPath(info.name).Success? && CanonicalPath(info.name).value !in keys
             && Total(entries) + |data| <= limits.expandedBytes
    ensures WithinLimits(raw, infos, c, limits, entries + [(infos[i].name, data)])
    ensures Total(entries + [(infos[i].name, data)]) == Total(entries) + |data|
  {
    hide IsMember, CanonicalPath;
    var entry := (infos[i].name, data);
    var more := entries + [entry];
    assert more[..|more| - 1] == entries;
    assert FromMember(raw, infos, c, limits, entry);
    forall j | 0 <= j < |more|
      ensures FromMember(raw, infos, c, limits, more[j])
    {
      if j < |entries| {
        assert more[j] == entries[j];
      }
    }
  }

  /** Member i is not skipped: its name is safe and is not that of an earlier member. */
  ghost predicate Considered(infos: seq<Info>, i: nat)
    requires i < |infos|
  {
    CanonicalPath(infos[i].name).Success? && !NamedBefore(infos[i].name, infos, i)
  }

  /** What the first n members declare, those that are skipped left aside. */
  ghost function DeclaredTotal(infos: seq<Info>, n: nat): nat
    requires n <= |infos|
  {
    if n == 0 then 0
    else DeclaredTotal(infos, n - 1) + if Considered(infos, n - 1) then infos[n - 1].fileSize else 0
  }

  /** The error that member i is refused with when all before it are in order, if it is. */
  ghost function Fault<S(!new)>(raw: seq<byte>, infos: seq<Info>, i: nat, c: Codecs<S>, limits: Limits, lenient: bool)
    : Option<ZipError>
    requires i < |infos|
  {
    var info, total := infos[i], DeclaredTotal(infos, i);
    if info.originalName != info.name then Some(TruncatedName)
    else if CanonicalPath(info.name).Failure? then if lenient then None else Some(UnsafeName)
    else if NamedBefore(info.name, infos, i) then if lenient then None else Some(DuplicateName)
    else if Collides(infos, i) then Some(PathCollision)
    else if info.special then Some(SpecialFile)
    else if info.directory then if info.fileSize != 0 then Some(NonemptyDirectory) else None
    else if OverBudget(raw, info, c, limits, total) then Some(ResourceLimit)
    else if Unreadable(raw, info, c, limits, total) then Some(Integrity)
    else None
  }

  /** An earlier member has another name for the same path. */
  ghost predicate Collides(infos: seq<Info>, i: nat)
    requires i < |infos|
  {
    exists j :: 0 <= j < i && infos[j].name != infos[i].name && CanonicalPath(infos[j].name).Success?
                && CanonicalPath(infos[j].name) == CanonicalPath(infos[i].name)
  }

  /** The error is the fault of the first member that has one. */
  ghost predicate FirstFault<S(!new)>(error: ZipError, raw: seq<byte>, infos: seq<Info>, c: Codecs<S>, limits: Limits,
                                      lenient: bool)
  {
    exists i: nat :: FaultAt(error, raw, infos, i, c, limits, lenient)
  }

  ghost predicate FaultAt<S(!new)>(error: ZipError, raw: seq<byte>, infos: seq<Info>, i: nat, c: Codecs<S>,
                                   limits: Limits, lenient: bool)
  {
    && i < |infos| && Fault(raw, infos, i, c, limits, lenient) == Some(error)
    && forall j :: 0 <= j < i ==> Fault(raw, infos, j, c, limits, lenient).None?
  }

  /** The archive is read exactly when it is small enough, its directory is accepted and as long as the listing, and no
      member has a fault. */
  ghost predicate Readable<S(!new)>(raw: seq<byte>, infos: seq<Info>, c: Codecs<S>, limits: Limits, lenient: bool) {
    && |raw| <= limits.inputBytes
    && (exists p: nat :: IsLastEnd(raw, p) && Verdict(raw, p, limits) == Success(|infos|))
    && forall i :: 0 <= i < |infos| ==> Fault(raw, infos, i, c, limits, lenient).None?
  }

  /** The error of an archive that is not read: of the file, of its end record, of the listing, or of a member. */
  ghost predicate RefusedWith<S(!new)>(error: ZipError, raw: seq<byte>, infos: seq<Info>, c: Codecs<S>, limits: Limits,
                                       lenient: bool)
  {
    if |raw| > limits.inputBytes then error == ResourceLimit
    else if forall q :: !IsEnd(raw, q) then error == MissingEnd
    else exists p: nat :: IsLastEnd(raw, p) && RefusedAt(error, raw, p, infos, c, limits, lenient)
  }

  ghost predicate RefusedAt<S(!new)>(error: ZipError, raw: seq<byte>, p: nat, infos: seq<Info>, c: Codecs<S>,
                                     limits: Limits, lenient: bool)
    requires IsLastEnd(raw, p)
  {
    match Verdict(raw, p, limits)
    case Failure(e) => error == e
    case Success(count) =>
      if count != |infos| then error == ResourceLimit else FirstFault(error, raw, infos, c, limits, lenient)
  }

  /** read_bytes, given the index that the archive library lists. errors tells whether errors are collected. */
  method ReadBytes<S(!new)>(raw: seq<byte>, infos: seq<Info>, c: Codecs<S>, limits: Limits, lenient: bool)
    returns (r: Result<Entries, ZipError>, errors: seq<ZipError>)
    requires Sound(c)
    ensures r.Success? <==> Readable(raw, infos, c, limits, lenient)
    ensures r.Success? ==> |infos| <= limits.members && WithinLimits(raw, infos, c, limits, r.value)
    ensures r.Success? ==>
              && errors == Skipped(infos, |infos|) && (!lenient ==> errors == [])
              && forall i :: 0 <= i < |infos| ==> Accounted(infos, i, lenient, r.value)
    ensures r.Failure? ==> RefusedWith(r.error, raw, infos, c, limits, lenient)
  {
    hide Verdict, FirstFault, Accounted, WithinLimits, Fault;
    forall p: nat, q: nat | IsLastEnd(raw, p) && IsLastEnd(raw, q)
      ensures p == q
    {
    }
    errors := [];
    if |raw| > limits.inputBytes {
      return Failure(ResourceLimit), [];
    }
    var count := Metadata(raw, limits);
    if count.Failure? {
      if count.error != MissingEnd {
        ghost var q: nat :| IsLastEnd(raw, q);
      }
      return Failure(count.error), [];
    }
    ghost var p: nat :| IsLastEnd(raw, p);
    AcceptedDirectoryFits(raw, p, limits);
    if |infos| != count.value || |infos| > limits.members {
      assert RefusedAt(ResourceLimit, raw, p, infos, c, limits, lenient);
      return Failure(ResourceLimit), [];
    }
    assert Verdict(raw, p, limits) == Success(|infos|);
    r, errors := ReadMembers(raw, infos, c, limits, lenient);
  }

  /** The loop over the directory. */
  method ReadMembers<S(!new)>(raw: seq<byte>, infos: seq<Info>, c: Codecs<S>, limits: Limits, lenient: bool)
    returns (r: Result<Entries, ZipError>, errors: seq<ZipError>)
    requires Sound(c)
    ensures r.Success? ==> WithinLimits(raw, infos, c, limits, r.value)
    ensures r.Success? ==>
              && errors == Skipped(infos, |infos|) && (!lenient ==> errors == [])
              && forall i :: 0 <= i < |infos| ==> Accounted(infos, i, lenient, r.value)
    ensures r.Success? ==> forall i :: 0 <= i < |infos| ==> Fault(raw, infos, i, c, limits, lenient).None?
    ensures r.Failure? ==> FirstFault(r.error, raw, infos, c, limits, lenient)
    ensures r.Failure? ==> exists i :: 0 <= i < |infos| && Fault(raw, infos, i, c, limits, lenient).Some?
  {
    hide Sound, WithinLimits, CanonicalPath, IsMember, Total, OverBudget, Unreadable, FirstFault, Skipped, Taken,
      NamedBefore, IsRead, Collides, DeclaredTotal, Ceiling;
    var entries: Entries, total: nat, names, keys := [], 0, {}, {};
    errors := [];
    NothingRead(raw, infos, c, limits);
    NothingTaken(infos);
    for i := 0 to |infos|
      invariant WithinLimits(raw, infos, c, limits, entries) && Taken(names, keys, entries, infos, i)
      invariant total == Total(entries) == DeclaredTotal(infos, i) <= limits.expandedBytes
      invariant errors == Skipped(infos, i) && (!lenient ==> errors == [])
      invariant forall j :: 0 <= j < i ==> Accounted(infos, j, lenient, entries)
      invariant forall j :: 0 <= j < i ==> Fault(raw, infos, j, c, limits, lenient).None?
    {
      var info := infos[i];
      OneMoreDeclared(infos, i);
      NameChecked(infos, i, names, keys, entries);
      if info.originalName != info.name {
        Blame(TruncatedName, raw, infos, i, c, limits, lenient);
        return Failure(TruncatedName), errors;
      }
      var key := CanonicalPath(info.name);
      if key.Failure? {
        if !lenient {
          Blame(UnsafeName, raw, infos, i, c, limits, lenient);
          return Failure(UnsafeName), errors;
        }
        errors := errors + [UnsafeName];
        continue;
      }
      if info.name in names {
        if !lenient {
          Blame(DuplicateName, raw, infos, i, c, limits, lenient);
          return Failure(DuplicateName), errors;
        }
        errors := errors + [DuplicateName];
        continue;
      }
      if key.value in keys {
        Collision(infos, i, names, keys, entries);
        Blame(PathCollision, raw, infos, i, c, limits, lenient);
        return Failure(PathCollision), errors;
      }
      NoCollision(infos, i, names, keys, entries);
      if info.special {
        Blame(SpecialFile, raw, infos, i, c, limits, lenient);
        return Failure(SpecialFile), errors;
      }
      if info.directory {
        if info.fileSize != 0 {
          Blame(NonemptyDirectory, raw, infos, i, c, limits, lenient);
          return Failure(NonemptyDirectory), errors;
        }
        names, keys := names + {info.name}, keys + {key.value};
        continue;
      }
      var data := ReadMember(raw, info, c, limits, total);
      if data.Failure? {
        Blame(data.error, raw, infos, i, c, limits, lenient);
        return Failure(data.error), errors;
      }
      OneMoreEntry(raw, infos, c, limits, entries, i, names, keys, data.value);
      names, keys := names + {info.name}, keys + {key.value};
      TakenWithEntry(names, keys, entries, infos, i + 1, (info.name, data.value));
      StillAccounted(infos, i, lenient, entries, (info.name, data.value));
      entries, total := entries + [(info.name, data.value)], total + |data.value|;
    }
    return Success(entries), errors;
  }

  lemma Blame<S(!new)>(error: ZipError, raw: seq<byte>, infos: seq<Info>, i: nat, c: Codecs<S>, limits: Limits,
                       lenient: bool)
    requires i < |infos| && Fault(raw, infos, i, c, limits, lenient) == Some(error)
    requires forall j :: 0 <= j < i ==> Fault(raw, infos, j, c, limits, lenient).None?
    ensures FirstFault(error, raw, infos, c, limits, lenient)
  {
    hide Fault;
    assert FaultAt(error, raw, infos, i, c, limits, lenient);
  }

  /** What the checks on a member's name decide. */
  lemma NameChecked(infos: seq<Info>, i: nat, names: set<string>, keys: set<string>, entries: Entries)
    requires i < |infos| && Taken(names, keys, entries, infos, i)
    ensures var key := CanonicalPath(infos[i].name);
            && (key.Failure? || infos[i].name in names ==> Taken(names, keys, entries, infos, i + 1))
            && (key.Success? ==> (infos[i].name in names <==> NamedBefore(infos[i].name, infos, i)))
            && (key.Success? ==> Taken(names + {infos[i].name}, keys + {key.value}, entries, infos, i + 1))
            && Skipped(infos, i + 1)
            == Skipped(infos, i) + (if key.Failure? then [UnsafeName]
                else if infos[i].name in names then [DuplicateName] else [])
  {
    hide CanonicalPath;
    forall n | n in names
      ensures NamedBefore(n, infos, i + 1)
    {
      var j :| 0 <= j < i && infos[j].name == n;
    }
    assert NamedBefore(infos[i].name, infos, i + 1);
  }

  lemma TakenWithEntry(names: set<string>, keys: set<string>, entries: Entries, infos: seq<Info>, n: nat,
                       entry: (string, seq<byte>))
    requires n <= |infos| && Taken(names, keys, entries, infos, n) && entry.0 in names
    ensures Taken(names, keys, entries + [entry], infos, n)
  {
    hide CanonicalPath, NamedBefore;
  }

  lemma Collision(infos: seq<Info>, i: nat, names: set<string>, keys: set<string>, entries: Entries)
    requires i < |infos| && Taken(names, keys, entries, infos, i) && infos[i].name !in names
    requires CanonicalPath(infos[i].name).Success? && CanonicalPath(infos[i].name).value in keys
    ensures Collides(infos, i)
  {
    hide CanonicalPath;
    var n :| n in names && CanonicalPath(n) == CanonicalPath(infos[i].name);
    var j :| 0 <= j < i && infos[j].name == n;
  }

  lemma NoCollision(infos: seq<Info>, i: nat, names: set<string>, keys: set<string>, entries: Entries)
    requires i < |infos| && Taken(names, keys, entries, infos, i)
    requires CanonicalPath(infos[i].name).Success? && CanonicalPath(infos[i].name).value !in keys
    ensures !Collides(infos, i)
  {
    hide CanonicalPath, NamedBefore;
  }

  lemma NothingRead<S(!new)>(raw: seq<byte>, infos: seq<Info>, c: Codecs<S>, limits: Limits)
    ensures WithinLimits(raw, infos, c, limits, []) && Total([]) == 0
  {
  }

  lemma NothingTaken(infos: seq<Info>)
    ensures Taken({}, {}, [], infos, 0) && Skipped(infos, 0) == [] && DeclaredTotal(infos, 0) == 0
  {
  }

  lemma OneMoreDeclared(infos: seq<Info>, i: nat)
    requires i < |infos|
    ensures DeclaredTotal(infos, i + 1)
         == DeclaredTotal(infos, i) + if Considered(infos, i) then infos[i].fileSize else 0
  {
  }

  lemma StillAccounted(infos: seq<Info>, i: nat, lenient: bool, entries: Entries, entry: (string, seq<byte>))
    requires i < |infos| && infos[i].name == entry.0
    requires forall j :: 0 <= j < i ==> Accounted(infos, j, lenient, entries)
    ensures forall j :: 0 <= j <= i ==> Accounted(infos, j, lenient, entries + [entry])
  {
    hide CanonicalPath;
    var more := entries + [entry];
    assert more[|entries|] == entry;
    forall j | 0 <= j < i
      ensures Accounted(infos, j, lenient, more)
    {
      assert Accounted(infos, j, lenient, entries);
      if IsRead(infos[j].name, entries) {
        var k :| 0 <= k < |entries| && entries[k].0 == infos[j].name;
        assert more[k].0 == infos[j].name;
      }
    }
  }
}

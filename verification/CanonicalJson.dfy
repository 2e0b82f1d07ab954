/** core/canonical_json.py: BDB-CJSON-1 encoding and strict parsing, and that they are inverse. */
module CanonicalJson {
  import opened Wrappers
  import opened JsonValues
  import opened JsonText
  import Utf8

  /** The canonical text and its bytes. */
  function CanonicalText(v: Json): Text {
    Print(Canon(v))
  }

  function Encoding(v: Json): Utf8.Bytes {
    Utf8.Encode(CanonicalText(v))
  }

  function Concat(chunks: seq<Text>): Text {
    if chunks == [] then [] else Concat(chunks[..|chunks| - 1]) + chunks[|chunks| - 1]
  }

  /** canonical_bytes. The library encoder yields the canonical text in chunks, cut up in any way. */
  method CanonicalBytes(v: Json, chunks: seq<Text>, maxBytes: int) returns (r: Result<Utf8.Bytes, JsonError>)
    requires IsValue(v)
    requires Valid(v) ==> Concat(chunks) == CanonicalText(v)
    ensures maxBytes < 0 ==> r == Failure(ByteLimit)
    ensures maxBytes >= 0 && Valid(v) ==>
              r == if |Encoding(v)| <= maxBytes then Success(Encoding(v)) else Failure(ByteLimit)
    ensures maxBytes >= 0 && !Valid(v) ==>
              r.Failure? && Some(r.error) == if Spent(v) > maxBytes then Some(ByteLimit) else Offence(v)
  {
    hide IsValue, CanonicalText, Cost, Spent, Offence;
    if maxBytes < 0 {
      return Failure(ByteLimit);
    }
    var cell := new int[1][maxBytes];
    var offence := Validate(v, cell);
    if offence.Some? {
      CostBelowEncoding(v);
      SpentIsCost(v);
      return Failure(offence.value);
    }
    var output: Utf8.Bytes := [];
    NothingEncoded();
    for i := 0 to |chunks|
      invariant output == Utf8.Encode(Concat(chunks[..i])) && |output| <= maxBytes
    {
      ChunkEncodes(chunks, i);
      if |chunks[i]| > maxBytes - |output| {
        return Failure(ByteLimit);
      }
      var chunk := Utf8.Encode(chunks[i]);
      if |chunk| > maxBytes - |output| {
        return Failure(ByteLimit);
      }
      output := output + chunk;
    }
    assert chunks[..|chunks|] == chunks;
    return Success(output);
  }

  lemma NothingEncoded()
    ensures Utf8.Encode(Concat([])) == []
  {
  }

  /** One more chunk: its bytes follow, and the whole is no shorter. */
  lemma ChunkEncodes(chunks: seq<Text>, i: nat)
    requires i < |chunks|
    ensures Utf8.Encode(Concat(chunks[..i + 1])) == Utf8.Encode(Concat(chunks[..i])) + Utf8.Encode(chunks[i])
    ensures |Utf8.Encode(Concat(chunks))| >= |Utf8.Encode(Concat(chunks[..i + 1]))|
    decreases |chunks| - i
  {
    assert chunks[..i + 1][..i] == chunks[..i];
    Utf8.EncodeAppend(Concat(chunks[..i]), chunks[i]);
    if i + 1 < |chunks| {
      ChunkEncodes(chunks, i + 1);
    } else {
      assert chunks[..i + 1] == chunks;
    }
  }

  /** parse. */
  function Parse(raw: Utf8.Bytes, maxBytes: int): Result<Json, JsonError> {
    if maxBytes < 0 || |raw| > maxBytes then Failure(ByteLimit)
    else match Utf8.Decode(raw)
      case None => Failure(ParseError)
      case Some(t) =>
        match ParseDocument(t)
        case Failure(e) => Failure(e)
        case Success(v) => if Offence(v).Some? then Failure(Offence(v).value) else Success(v)
  }

  // ----- the budget never refuses a value that fits -----

  lemma CostBelowEncoding(v: Json)
    requires IsValue(v)
    ensures Valid(v) ==> Cost(v) <= |Encoding(v)|
  {
    if Valid(v) {
      CanonKeeps(v);
      CostBelowPrint(Canon(v));
    }
  }

  // ----- round trip -----

  lemma {:induction false} EscapedHasNoSurrogate(s: Text)
    requires NoSurrogate(s)
    ensures NoSurrogate(EscapeAll(s))
  {
    if s != [] {
      EscapedHasNoSurrogate(s[1..]);
    }
  }

  lemma {:induction false} NatHasNoSurrogate(n: nat)
    ensures NoSurrogate(PrintNat(n))
  {
    if n >= 10 {
      NatHasNoSurrogate(n / 10);
    }
  }

  lemma Joined(s: Text, t: Text)
    requires NoSurrogate(s) && NoSurrogate(t)
    ensures NoSurrogate(s + t)
  {
  }

  lemma {:induction false} PrintedHasNoSurrogate(v: Json)
    requires Valid(v)
    ensures NoSurrogate(Print(v))
    decreases v
  {
    match v
    case Int(i) => NatHasNoSurrogate(if i < 0 then -i else i);
    case Str(s) => EscapedHasNoSurrogate(s);
    case Arr(items) => ItemsHaveNoSurrogate(items);
    case Obj(fields) => FieldsHaveNoSurrogate(fields);
    case _ =>
  }

  lemma {:induction false} ItemsHaveNoSurrogate(items: Items)
    requires ValidItems(items)
    ensures NoSurrogate(PrintItems(items))
    decreases items
  {
    if items.Item? {
      PrintedHasNoSurrogate(items.value);
      ItemsHaveNoSurrogate(items.rest);
    }
  }

  lemma {:induction false} FieldsHaveNoSurrogate(f: Fields)
    requires ValidFields(f)
    ensures NoSurrogate(PrintFields(f))
    decreases f
  {
    hide Print, EscapeAll;
    if f.Field? {
      EscapedHasNoSurrogate(f.key);
      PrintedHasNoSurrogate(f.value);
      FieldsHaveNoSurrogate(f.rest);
      var entry := PrintString(f.key) + [COLON] + Print(f.value);
      assert NoSurrogate(PrintString(f.key) + [COLON]);
      Joined(PrintString(f.key) + [COLON], Print(f.value));
      if f.rest.Field? {
        Joined(entry, [COMMA]);
        Joined(entry + [COMMA], PrintFields(f.rest));
      }
    }
  }

  /** parse(canonical_bytes(v)) == v, for every value that validation accepts and every limit that the bytes fit. */
  lemma RoundTrip(v: Json, maxBytes: int)
    requires IsValue(v) && Valid(v) && |Encoding(v)| <= maxBytes
    ensures Parse(Encoding(v), maxBytes) == Success(Canon(v))
    ensures SameValue(Canon(v), v)
  {
    CanonKeeps(v);
    CanonSame(v);
    PrintedHasNoSurrogate(Canon(v));
    Utf8.DecodeEncode(CanonicalText(v));
    DocumentRoundTrip(Canon(v));
  }

  /** Two valid values have the same bytes exactly when they are equal, whatever the insertion order of their
      dictionaries. */
  lemma BytesDecideEquality(v: Json, w: Json)
    requires IsValue(v) && Valid(v) && IsValue(w) && Valid(w)
    ensures Encoding(v) == Encoding(w) <==> SameValue(v, w)
  {
    SameIffCanon(v, w);
    if Encoding(v) == Encoding(w) {
      RoundTrip(v, |Encoding(v)|);
      RoundTrip(w, |Encoding(v)|);
    }
  }

  // ----- what parsing lets through -----

  lemma {:induction false} ParsedIsValue(t: Text)
    requires ParseValue(t).Success?
    ensures IsValue(ParseValue(t).value.value)
    decreases |t|, 1
  {
    hide ParseChars, ParseNumber, SkipSpace;
    if t[0] == LBRACE {
      var u := SkipSpace(t[1..]);
      if !(u != [] && u[0] == RBRACE) {
        ParsedFieldsAreValues(u);
        NoRepeatIsDict(ParseFields(u).value.value);
      }
    } else if t[0] == LBRACKET {
      var u := SkipSpace(t[1..]);
      if !(u != [] && u[0] == RBRACKET) {
        ParsedItemsAreValues(u);
      }
    } else if ParseNumber(t).Success? {
      NumberIsInt(t);
    }
  }

  lemma NumberIsInt(t: Text)
    requires ParseNumber(t).Success?
    ensures ParseNumber(t).value.value.Int?
  {
  }

  lemma {:induction false} ParsedItemsAreValues(t: Text)
    requires ParseItems(t).Success?
    ensures AreValues(ParseItems(t).value.value)
    decreases |t|, 2
  {
    hide ParseValue, SkipSpace;
    ParsedIsValue(t);
    var u := SkipSpace(ParseValue(t).value.rest);
    if u[0] == COMMA {
      ParsedItemsAreValues(SkipSpace(u[1..]));
    }
  }

  ghost predicate FieldValues(f: Fields) {
    f.Field? ==> IsValue(f.value) && FieldValues(f.rest)
  }

  lemma {:induction false} ParsedFieldsAreValues(t: Text)
    requires ParseFields(t).Success?
    ensures FieldValues(ParseFields(t).value.value)
    decreases |t|, 2
  {
    hide ParseValue, ParseChars, SkipSpace;
    var c := SkipSpace(ParseChars(t[1..]).value.rest);
    var w := SkipSpace(c[1..]);
    ParsedIsValue(w);
    var u := SkipSpace(ParseValue(w).value.rest);
    if u[0] == COMMA {
      ParsedFieldsAreValues(SkipSpace(u[1..]));
    }
  }

  lemma {:induction false} NoRepeatIsDict(f: Fields)
    requires FieldValues(f) && !Repeats(f)
    ensures IsDict(f)
  {
    if f.Field? {
      NoRepeatIsDict(f.rest);
    }
  }

  /** Whatever parse accepts is a valid value, and its canonical bytes parse to the same value again. */
  lemma ParseThenEncode(raw: Utf8.Bytes, maxBytes: int, v: Json)
    requires Parse(raw, maxBytes) == Success(v)
    ensures IsValue(v) && Valid(v)
    ensures Parse(Encoding(v), |Encoding(v)|) == Success(Canon(v)) && SameValue(Canon(v), v)
  {
    var t := Utf8.Decode(raw).value;
    ParsedIsValue(SkipSpace(t));
    RoundTrip(v, |Encoding(v)|);
  }
}

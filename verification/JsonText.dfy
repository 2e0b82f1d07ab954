/** JSON text (RFC 8259): the printer that core/canonical_json.py configures, and the parser it calls.

    The printer writes integers, strings, literals, arrays and objects without whitespace (section 2);
    non-ASCII characters stand for themselves, and only the characters of section 7 are escaped. */
module JsonText {
  import opened Wrappers
  import opened JsonValues

  const QUOTE: CodePoint := 0x22
  const BACKSLASH: CodePoint := 0x5C
  const COMMA: CodePoint := 0x2C
  const COLON: CodePoint := 0x3A
  const MINUS: CodePoint := 0x2D
  const LBRACKET: CodePoint := 0x5B
  const RBRACKET: CodePoint := 0x5D
  const LBRACE: CodePoint := 0x7B
  const RBRACE: CodePoint := 0x7D
  const NULL_TEXT: Text := [0x6E, 0x75, 0x6C, 0x6C]
  const TRUE_TEXT: Text := [0x74, 0x72, 0x75, 0x65]
  const FALSE_TEXT: Text := [0x66, 0x61, 0x6C, 0x73, 0x65]
  const NAN_TEXT: Text := [0x4E, 0x61, 0x4E]
  const INFINITY_TEXT: Text := [0x49, 0x6E, 0x66, 0x69, 0x6E, 0x69, 0x74, 0x79]

  // ----- printing -----

  function HexDigit(n: nat): CodePoint
    requires n < 16
  {
    if n < 10 then 0x30 + n else 0x57 + n
  }

  function Escape(c: CodePoint): (t: Text)
    ensures |t| >= 1
  {
    if c == QUOTE then [BACKSLASH, QUOTE]
    else if c == BACKSLASH then [BACKSLASH, BACKSLASH]
    else if c == 0x0A then [BACKSLASH, 0x6E]
    else if c == 0x0D then [BACKSLASH, 0x72]
    else if c == 0x09 then [BACKSLASH, 0x74]
    else if c == 0x0C then [BACKSLASH, 0x66]
    else if c == 0x08 then [BACKSLASH, 0x62]
    else if c < 0x20 then [BACKSLASH, 0x75, 0x30, 0x30, HexDigit(c / 16), HexDigit(c % 16)]
    else [c]
  }

  function EscapeAll(s: Text): (t: Text)
    ensures |t| >= |s|
  {
    if s == [] then [] else Escape(s[0]) + EscapeAll(s[1..])
  }

  function PrintString(s: Text): (t: Text)
    ensures |t| >= |s| + 2
  {
    [QUOTE] + EscapeAll(s) + [QUOTE]
  }

  function PrintNat(n: nat): (t: Text)
    ensures t != []
  {
    if n < 10 then [0x30 + n] else PrintNat(n / 10) + [0x30 + n % 10]
  }

  function PrintInt(i: int): (t: Text)
    ensures t != []
  {
    if i < 0 then [MINUS] + PrintNat(-i) else PrintNat(i)
  }

  /** The text of a value, dictionaries in the order of their entries. An unsupported value has none. */
  function Print(v: Json): Text {
    match v
    case Null => NULL_TEXT
    case Bool(b) => if b then TRUE_TEXT else FALSE_TEXT
    case Int(i) => PrintInt(i)
    case Str(s) => PrintString(s)
    case Arr(items) => [LBRACKET] + PrintItems(items) + [RBRACKET]
    case Obj(fields) => [LBRACE] + PrintFields(fields) + [RBRACE]
    case Unsupported => []
  }

  function PrintItems(items: Items): Text {
    match items
    case NoItems => []
    case Item(v, NoItems) => Print(v)
    case Item(v, rest) => Print(v) + [COMMA] + PrintItems(rest)
  }

  function PrintFields(f: Fields): Text {
    match f
    case NoFields => []
    case Field(k, v, NoFields) => PrintString(k) + [COLON] + Print(v)
    case Field(k, v, rest) => PrintString(k) + [COLON] + Print(v) + [COMMA] + PrintFields(rest)
  }

  // ----- parsing -----

  datatype Parsed<T> = Parsed(value: T, rest: Text)

  predicate IsSpace(c: CodePoint) {
    c == 0x20 || c == 0x09 || c == 0x0A || c == 0x0D
  }

  function SkipSpace(t: Text): (r: Text)
    ensures |r| <= |t|
  {
    if t != [] && IsSpace(t[0]) then SkipSpace(t[1..]) else t
  }

  predicate IsDigit(c: CodePoint) {
    0x30 <= c <= 0x39
  }

  function HexValue(c: CodePoint): Option<nat> {
    if IsDigit(c) then Some(c - 0x30)
    else if 0x41 <= c <= 0x46 then Some(c - 0x37)
    else if 0x61 <= c <= 0x66 then Some(c - 0x57)
    else None
  }

  /** Four hexadecimal digits. */
  function Hex4(t: Text): (r: Option<nat>)
    ensures r.Some? ==> |t| >= 4 && r.value < 0x1_0000
  {
    if |t| < 4 then None
    else match (HexValue(t[0]), HexValue(t[1]), HexValue(t[2]), HexValue(t[3]))
      case (Some(a), Some(b), Some(c), Some(d)) =>
        if a < 16 && b < 16 && c < 16 && d < 16 then Some(((a * 16 + b) * 16 + c) * 16 + d) else None
      case _ => None
  }

  /** The code point of a surrogate pair. */
  function Join(high: int, low: int): CodePoint
    requires 0xD800 <= high <= 0xDBFF && 0xDC00 <= low <= 0xDFFF
  {
    0x1_0000 + (high - 0xD800) * 0x400 + (low - 0xDC00)
  }

  /** The code point that a backslash escape stands for; t starts after the backslash. A high surrogate
      followed by an escaped low one joins it; a lone surrogate stands for itself. */
  function Unescape(t: Text): (r: Option<Parsed<CodePoint>>)
    ensures r.Some? ==> |r.value.rest| < |t|
  {
    if t == [] then None
    else if t[0] == QUOTE || t[0] == BACKSLASH || t[0] == 0x2F then Some(Parsed(t[0], t[1..]))
    else if t[0] == 0x62 then Some(Parsed(0x08, t[1..]))
    else if t[0] == 0x66 then Some(Parsed(0x0C, t[1..]))
    else if t[0] == 0x6E then Some(Parsed(0x0A, t[1..]))
    else if t[0] == 0x72 then Some(Parsed(0x0D, t[1..]))
    else if t[0] == 0x74 then Some(Parsed(0x09, t[1..]))
    else if t[0] == 0x75 then
      match Hex4(t[1..])
      case None => None
      case Some(c) =>
        var after := t[5..];
        if 0xD800 <= c <= 0xDBFF && |after| >= 2 && after[0] == BACKSLASH && after[1] == 0x75 then
          match Hex4(after[2..])
          case None => None
          case Some(d) =>
            if 0xDC00 <= d <= 0xDFFF
            then Some(Parsed(Join(c, d), after[6..]))
            else Some(Parsed(c, after))
        else Some(Parsed(c, after))
    else None
  }

  /** The characters of a string up to its closing quote; t starts after the opening one. */
  function ParseChars(t: Text): (r: Option<Parsed<Text>>)
    ensures r.Some? ==> |r.value.rest| < |t|
    decreases |t|
  {
    if t == [] then None
    else if t[0] == QUOTE then Some(Parsed([], t[1..]))
    else if t[0] == BACKSLASH then
      match Unescape(t[1..])
      case None => None
      case Some(Parsed(c, after)) =>
        match ParseChars(after)
        case None => None
        case Some(Parsed(s, rest)) => Some(Parsed([c] + s, rest))
    else if t[0] < 0x20 then None
    else
      match ParseChars(t[1..])
      case None => None
      case Some(Parsed(s, rest)) => Some(Parsed([t[0]] + s, rest))
  }

  /** The number of digits at the front. */
  function Digits(t: Text): (n: nat)
    ensures n <= |t| && forall i | 0 <= i < n :: IsDigit(t[i])
  {
    if t != [] && IsDigit(t[0]) then 1 + Digits(t[1..]) else 0
  }

  function DigitValue(c: CodePoint): nat
    requires IsDigit(c)
  {
    c - 0x30
  }

  /** The value of a run of digits. */
  function NatValue(t: Text): nat
    requires forall i | 0 <= i < |t| :: IsDigit(t[i])
  {
    if t == [] then 0 else 10 * NatValue(t[..|t| - 1]) + DigitValue(t[|t| - 1])
  }

  /** A fraction or an exponent follows: the token is not an integer. */
  predicate HasFraction(t: Text) {
    |t| >= 2 && t[0] == 0x2E && IsDigit(t[1])
  }

  predicate HasExponent(t: Text) {
    && |t| >= 2 && (t[0] == 0x65 || t[0] == 0x45)
    && (IsDigit(t[1]) || ((t[1] == 0x2B || t[1] == MINUS) && |t| >= 3 && IsDigit(t[2])))
  }

  /** A number, or one of the constants that are not JSON; only integers in range are let through. */
  function ParseNumber(t: Text): (r: Result<Parsed<Json>, JsonError>)
    ensures r.Success? ==> |r.value.rest| < |t|
  {
    var negative := t != [] && t[0] == MINUS;
    var u := if negative then t[1..] else t;
    var n := if u != [] && u[0] == 0x30 then 1 else Digits(u);
    if n == 0 then
      if NAN_TEXT <= t || INFINITY_TEXT <= t || [MINUS] + INFINITY_TEXT <= t then Failure(NumberToken)
      else Failure(ParseError)
    else
      var rest := u[n..];
      if HasFraction(rest) || HasExponent(rest) then Failure(NumberToken)
      else
        var m: int := NatValue(u[..n]);
        if negative && u[0] == 0x30 then Failure(NegativeZero)
        else if !InRange(m) then Failure(IntegerRange)
        else Success(Parsed(Int(if negative then -m else m), rest))
  }

  /** One value at the very front of the text. */
  function ParseValue(t: Text): (r: Result<Parsed<Json>, JsonError>)
    ensures r.Success? ==> |r.value.rest| < |t|
    decreases |t|, 1
  {
    if t == [] then Failure(ParseError)
    else if t[0] == QUOTE then
      match ParseChars(t[1..])
      case None => Failure(ParseError)
      case Some(Parsed(s, rest)) => Success(Parsed(Str(s), rest))
    else if t[0] == LBRACE then
      var u := SkipSpace(t[1..]);
      if u != [] && u[0] == RBRACE then Success(Parsed(Obj(NoFields), u[1..]))
      else
        match ParseFields(u)
        case Failure(e) => Failure(e)
        case Success(Parsed(fields, rest)) =>
          if Repeats(fields) then Failure(DuplicateKey) else Success(Parsed(Obj(fields), rest))
    else if t[0] == LBRACKET then
      var u := SkipSpace(t[1..]);
      if u != [] && u[0] == RBRACKET then Success(Parsed(Arr(NoItems), u[1..]))
      else
        match ParseItems(u)
        case Failure(e) => Failure(e)
        case Success(Parsed(items, rest)) => Success(Parsed(Arr(items), rest))
    else if NULL_TEXT <= t then Success(Parsed(Null, t[4..]))
    else if TRUE_TEXT <= t then Success(Parsed(Bool(true), t[4..]))
    else if FALSE_TEXT <= t then Success(Parsed(Bool(false), t[5..]))
    else ParseNumber(t)
  }

  /** The elements of an array up to its closing bracket. */
  function ParseItems(t: Text): (r: Result<Parsed<Items>, JsonError>)
    ensures r.Success? ==> |r.value.rest| < |t|
    decreases |t|, 2
  {
    match ParseValue(t)
    case Failure(e) => Failure(e)
    case Success(Parsed(v, after)) =>
      var u := SkipSpace(after);
      if u != [] && u[0] == RBRACKET then Success(Parsed(Item(v, NoItems), u[1..]))
      else if u != [] && u[0] == COMMA then
        match ParseItems(SkipSpace(u[1..]))
        case Failure(e) => Failure(e)
        case Success(Parsed(items, rest)) => Success(Parsed(Item(v, items), rest))
      else Failure(ParseError)
  }

  /** The entries of an object up to its closing brace. */
  function ParseFields(t: Text): (r: Result<Parsed<Fields>, JsonError>)
    ensures r.Success? ==> |r.value.rest| < |t|
    decreases |t|, 2
  {
    if t == [] || t[0] != QUOTE then Failure(ParseError)
    else match ParseChars(t[1..])
      case None => Failure(ParseError)
      case Some(Parsed(k, afterKey)) =>
        var c := SkipSpace(afterKey);
        if c == [] || c[0] != COLON then Failure(ParseError)
        else match ParseValue(SkipSpace(c[1..]))
          case Failure(e) => Failure(e)
          case Success(Parsed(v, after)) =>
            var u := SkipSpace(after);
            if u != [] && u[0] == RBRACE then Success(Parsed(Field(k, v, NoFields), u[1..]))
            else if u != [] && u[0] == COMMA then
              match ParseFields(SkipSpace(u[1..]))
              case Failure(e) => Failure(e)
              case Success(Parsed(fields, rest)) => Success(Parsed(Field(k, v, fields), rest))
            else Failure(ParseError)
  }

  /** _pairs refuses an object that names a key twice. */
  predicate Repeats(f: Fields) {
    f.Field? && (f.key in KeysOf(f.rest) || Repeats(f.rest))
  }

  /** json.loads: one value, with whitespace around it and nothing else. */
  function ParseDocument(t: Text): Result<Json, JsonError> {
    match ParseValue(SkipSpace(t))
    case Failure(e) => Failure(e)
    case Success(Parsed(v, rest)) => if SkipSpace(rest) == [] then Success(v) else Failure(ParseError)
  }

  // ----- parsing undoes printing -----

  lemma UnescapeEscape(c: CodePoint, rest: Text)
    requires Escape(c)[0] == BACKSLASH
    ensures Unescape(Escape(c)[1..] + rest) == Some(Parsed(c, rest))
  {
    var t := Escape(c)[1..] + rest;
    if |Escape(c)| == 2 {
      assert t[1..] == rest;
    } else {
      assert t[1..][..4] == [0x30, 0x30, HexDigit(c / 16), HexDigit(c % 16)];
      assert t[1..][0] == 0x30 && t[1..][1] == 0x30;
      assert t[1..][2] == HexDigit(c / 16) && t[1..][3] == HexDigit(c % 16);
      assert HexValue(HexDigit(c / 16)) == Some(c / 16) && HexValue(HexDigit(c % 16)) == Some(c % 16);
      assert Hex4(t[1..]) == Some(c);
      assert t[5..] == rest;
    }
  }

  /** One printed character is read back, whatever follows it. */
  lemma ParseOneChar(c: CodePoint, after: Text)
    ensures ParseChars(Escape(c) + after)
         == match ParseChars(after)
            case None => None
            case Some(Parsed(s, rest)) => Some(Parsed([c] + s, rest))
  {
    var e := Escape(c);
    var t := e + after;
    assert t[0] == e[0];
    if e[0] == BACKSLASH {
      UnescapeEscape(c, after);
      assert t[1..] == e[1..] + after;
    } else {
      assert t[1..] == after;
    }
  }

  lemma {:induction false} ParsePrintedChars(s: Text, rest: Text)
    ensures ParseChars(EscapeAll(s) + [QUOTE] + rest) == Some(Parsed(s, rest))
  {
    hide Escape, Unescape;
    if s == [] {
      assert EscapeAll(s) + [QUOTE] + rest == [QUOTE] + rest;
      assert ([QUOTE] + rest)[1..] == rest;
    } else {
      hide ParseChars;
      var after := EscapeAll(s[1..]) + [QUOTE] + rest;
      assert EscapeAll(s) + [QUOTE] + rest == Escape(s[0]) + after;
      ParsePrintedChars(s[1..], rest);
      ParseOneChar(s[0], after);
      assert [s[0]] + s[1..] == s;
    }
  }

  /** The number at the front ends where the text can only close or go on with a comma. */
  predicate Stops(rest: Text) {
    rest == [] || rest[0] == COMMA || rest[0] == RBRACKET || rest[0] == RBRACE
  }

  lemma {:induction false} PrintedDigits(n: nat)
    ensures var t := PrintNat(n);
            && (forall i | 0 <= i < |t| :: IsDigit(t[i]))
            && NatValue(t) == n
            && (t[0] == 0x30 <==> n == 0)
            && (n == 0 ==> |t| == 1)
  {
    if n >= 10 {
      PrintedDigits(n / 10);
      assert PrintNat(n)[..|PrintNat(n)| - 1] == PrintNat(n / 10);
    } else {
      var t := PrintNat(n);
      assert t[..|t| - 1] == [];
      assert NatValue(t[..|t| - 1]) == 0;
    }
  }

  lemma {:induction false} DigitsOf(t: Text, rest: Text)
    requires forall i | 0 <= i < |t| :: IsDigit(t[i])
    requires Stops(rest)
    ensures Digits(t + rest) == |t|
  {
    if t == [] {
      assert t + rest == rest;
    } else {
      DigitsOf(t[1..], rest);
      assert (t + rest)[1..] == t[1..] + rest;
    }
  }

  lemma ParsePrintedInt(i: int, rest: Text)
    requires InRange(i) && Stops(rest)
    ensures ParseNumber(PrintInt(i) + rest) == Success(Parsed(Int(i), rest))
  {
    hide Digits, NatValue, PrintNat;
    var m: nat := if i < 0 then -i else i;
    var d := PrintNat(m);
    PrintedDigits(m);
    DigitsOf(d, rest);
    var t := PrintInt(i) + rest;
    var u := if i < 0 then t[1..] else t;
    assert u == d + rest;
    assert u[0] == d[0];
    assert u[|d|..] == rest && u[..|d|] == d;
  }

  lemma SpacelessFront(t: Text)
    requires t != [] && !IsSpace(t[0])
    ensures SkipSpace(t) == t
  {
  }

  /** No printed value starts with whitespace or a closing bracket. */
  lemma PrintStarts(v: Json)
    requires Valid(v)
    ensures Print(v) != [] && !IsSpace(Print(v)[0]) && Print(v)[0] != RBRACKET
  {
    if v.Int? {
      PrintedDigits(if v.i < 0 then -v.i else v.i);
    }
  }

  lemma ParsePrintedString(s: Text, rest: Text)
    ensures ParseValue(PrintString(s) + rest) == Success(Parsed(Str(s), rest))
  {
    hide ParseNumber, ParseFields, ParseItems, ParseChars, EscapeAll, SkipSpace;
    assert (PrintString(s) + rest)[1..] == EscapeAll(s) + [QUOTE] + rest;
    ParsePrintedChars(s, rest);
  }

  lemma ParsePrintedLiteral(v: Json, rest: Text)
    requires v.Null? || v.Bool?
    ensures ParseValue(Print(v) + rest) == Success(Parsed(v, rest))
  {
    hide ParseNumber, ParseFields, ParseItems, ParseChars, SkipSpace;
    var p := Print(v);
    var t := p + rest;
    assert t[0] == p[0] && t[..|p|] == p && t[|p|..] == rest;
    if v == Bool(false) {
      assert !(NULL_TEXT <= t) && !(TRUE_TEXT <= t);
    } else if v == Bool(true) {
      assert !(NULL_TEXT <= t);
    }
  }

  lemma ParsePrintedNumber(i: int, rest: Text)
    requires InRange(i) && Stops(rest)
    ensures ParseValue(PrintInt(i) + rest) == Success(Parsed(Int(i), rest))
  {
    hide ParseNumber, ParseFields, ParseItems, ParseChars, SkipSpace;
    ParsePrintedInt(i, rest);
    PrintedDigits(if i < 0 then -i else i);
    var t := PrintInt(i) + rest;
    assert t[0] == PrintInt(i)[0];
    assert t[0] == MINUS || IsDigit(t[0]);
  }

  /** The front of an array or object: the bracket, then the elements. */
  lemma ParseOpened(u: Text)
    requires u != [] && !IsSpace(u[0])
    ensures ParseValue([LBRACKET] + u)
         == if u[0] == RBRACKET then Success(Parsed(Arr(NoItems), u[1..]))
            else match ParseItems(u)
              case Failure(e) => Failure(e)
              case Success(Parsed(items, rest)) => Success(Parsed(Arr(items), rest))
    ensures ParseValue([LBRACE] + u)
         == if u[0] == RBRACE then Success(Parsed(Obj(NoFields), u[1..]))
            else match ParseFields(u)
              case Failure(e) => Failure(e)
              case Success(Parsed(fields, rest)) =>
                if Repeats(fields) then Failure(DuplicateKey) else Success(Parsed(Obj(fields), rest))
  {
    hide ParseNumber, ParseFields, ParseItems, ParseChars;
    assert ([LBRACKET] + u)[1..] == u && ([LBRACE] + u)[1..] == u;
    SpacelessFront(u);
  }

  /** Parsing a printed value gives it back, and stops where it ends. */
  lemma {:induction false} ParsePrinted(v: Json, rest: Text)
    requires Valid(v) && IsValue(v) && Stops(rest)
    ensures ParseValue(Print(v) + rest) == Success(Parsed(v, rest))
    decreases v, 1
  {
    hide ParseValue, ParseItems, ParseFields, PrintString, PrintInt;
    match v
    case Null => ParsePrintedLiteral(v, rest);
    case Bool(_) => ParsePrintedLiteral(v, rest);
    case Int(i) => ParsePrintedNumber(i, rest);
    case Str(s) => ParsePrintedString(s, rest);
    case Arr(items) =>
      if items.Item? {
        ParsePrintedItems(items, rest);
      }
      ParsePrintedArray(items, rest);
    case Obj(fields) =>
      if fields.Field? {
        ParsePrintedFields(fields, rest);
      }
      ParsePrintedObject(fields, rest);
  }

  /** An array, given what its items parse to. */
  lemma ParsePrintedArray(items: Items, rest: Text)
    requires ValidItems(items)
    requires items.Item? ==> ParseItems(PrintItems(items) + [RBRACKET] + rest) == Success(Parsed(items, rest))
    ensures ParseValue(Print(Arr(items)) + rest) == Success(Parsed(Arr(items), rest))
  {
    hide ParseValue, ParseItems, ParseFields;
    var u := PrintItems(items) + [RBRACKET] + rest;
    assert Print(Arr(items)) + rest == [LBRACKET] + u;
    if items.NoItems? {
      assert u == [RBRACKET] + rest;
    } else {
      ItemsStart(items, [RBRACKET] + rest);
      assert u == PrintItems(items) + ([RBRACKET] + rest);
    }
    ParseOpened(u);
  }

  /** An object, given what its entries parse to. */
  lemma ParsePrintedObject(fields: Fields, rest: Text)
    requires IsDict(fields)
    requires fields.Field? ==> ParseFields(PrintFields(fields) + [RBRACE] + rest) == Success(Parsed(fields, rest))
    ensures ParseValue(Print(Obj(fields)) + rest) == Success(Parsed(Obj(fields), rest))
  {
    hide ParseValue, ParseItems, ParseFields;
    var u := PrintFields(fields) + [RBRACE] + rest;
    assert Print(Obj(fields)) + rest == [LBRACE] + u;
    if fields.NoFields? {
      assert u == [RBRACE] + rest;
    } else {
      FieldsStart(fields, [RBRACE] + rest);
      assert u == PrintFields(fields) + ([RBRACE] + rest);
      DictDoesNotRepeat(fields);
    }
    ParseOpened(u);
  }

  lemma ItemsStart(items: Items, rest: Text)
    requires ValidItems(items) && items.Item?
    ensures var u := PrintItems(items) + rest; u != [] && !IsSpace(u[0]) && u[0] != RBRACKET
  {
    PrintStarts(items.value);
    assert (PrintItems(items) + rest)[0] == Print(items.value)[0];
  }

  lemma FieldsStart(f: Fields, rest: Text)
    requires f.Field?
    ensures var u := PrintFields(f) + rest; u != [] && u[0] == QUOTE
  {
    assert (PrintFields(f) + rest)[0] == PrintString(f.key)[0];
  }

  lemma {:induction false} ParsePrintedItems(items: Items, rest: Text)
    requires ValidItems(items) && AreValues(items) && items.Item?
    ensures ParseItems(PrintItems(items) + [RBRACKET] + rest) == Success(Parsed(items, rest))
    decreases items, 2
  {
    var t := PrintItems(items) + [RBRACKET] + rest;
    if items.rest.NoItems? {
      var after := [RBRACKET] + rest;
      assert t == Print(items.value) + after;
      ParsePrinted(items.value, after);
      assert after[1..] == rest;
    } else {
      var more := PrintItems(items.rest) + [RBRACKET] + rest;
      var after := [COMMA] + more;
      assert t == Print(items.value) + after;
      ParsePrinted(items.value, after);
      assert ValidItems(items.rest);
      PrintStarts(items.rest.value);
      assert more[0] == Print(items.rest.value)[0];
      assert after[1..] == more;
      ParsePrintedItems(items.rest, rest);
    }
  }

  /** One entry, given what its key and its value parse to. */
  lemma ParseEntry(k: Text, v: Json, value: Text, after: Text)
    requires value != [] && !IsSpace(value[0])
    requires ParseValue(value + after) == Success(Parsed(v, after))
    requires after != [] && !IsSpace(after[0])
    ensures ParseFields(PrintString(k) + [COLON] + value + after)
         == if after[0] == RBRACE then Success(Parsed(Field(k, v, NoFields), after[1..]))
            else if after[0] == COMMA then
              match ParseFields(SkipSpace(after[1..]))
              case Failure(e) => Failure(e)
              case Success(Parsed(fields, rest)) => Success(Parsed(Field(k, v, fields), rest))
            else Failure(ParseError)
  {
    hide ParseValue, ParseChars, EscapeAll;
    var c := [COLON] + (value + after);
    var t := PrintString(k) + [COLON] + value + after;
    assert t[1..] == EscapeAll(k) + [QUOTE] + c;
    ParsePrintedChars(k, c);
    assert c[1..] == value + after;
    SpacelessFront(c);
    SpacelessFront(value + after);
    SpacelessFront(after);
  }

  lemma {:induction false} ParsePrintedFields(f: Fields, rest: Text)
    requires ValidFields(f) && IsDict(f) && f.Field?
    ensures ParseFields(PrintFields(f) + [RBRACE] + rest) == Success(Parsed(f, rest))
    decreases f, 2
  {
    hide ParseValue, ParseFields, PrintString, Print;
    PrintStarts(f.value);
    if f.rest.NoFields? {
      var after := [RBRACE] + rest;
      assert PrintFields(f) + [RBRACE] + rest == PrintString(f.key) + [COLON] + Print(f.value) + after;
      ParsePrinted(f.value, after);
      ParseEntry(f.key, f.value, Print(f.value), after);
      assert after[1..] == rest;
    } else {
      var more := PrintFields(f.rest) + [RBRACE] + rest;
      var after := [COMMA] + more;
      assert PrintFields(f) + [RBRACE] + rest == PrintString(f.key) + [COLON] + Print(f.value) + after;
      ParsePrinted(f.value, after);
      ParseEntry(f.key, f.value, Print(f.value), after);
      assert after[1..] == more;
      assert more == PrintFields(f.rest) + ([RBRACE] + rest);
      FieldsStart(f.rest, [RBRACE] + rest);
      SpacelessFront(more);
      ParsePrintedFields(f.rest, rest);
    }
  }

  lemma {:induction false} DictDoesNotRepeat(f: Fields)
    requires IsDict(f)
    ensures !Repeats(f)
  {
    if f.Field? {
      DictDoesNotRepeat(f.rest);
    }
  }

  /** A whole document is read back. */
  lemma DocumentRoundTrip(v: Json)
    requires Valid(v) && IsValue(v)
    ensures ParseDocument(Print(v)) == Success(v)
  {
    PrintStarts(v);
    SpacelessFront(Print(v));
    assert Print(v) + [] == Print(v);
    ParsePrinted(v, []);
  }

  // ----- the budget is a lower bound -----

  lemma {:induction false} CostBelowPrint(v: Json)
    requires Valid(v)
    ensures Cost(v) <= |Print(v)|
    decreases v
  {
    match v
    case Arr(items) => CostBelowPrintItems(items);
    case Obj(fields) => CostBelowPrintFields(fields);
    case _ =>
  }

  lemma {:induction false} CostBelowPrintItems(items: Items)
    requires ValidItems(items)
    ensures CostItems(items) <= |PrintItems(items)|
    decreases items
  {
    if items.Item? {
      CostBelowPrint(items.value);
      CostBelowPrintItems(items.rest);
    }
  }

  lemma {:induction false} CostBelowPrintFields(f: Fields)
    requires ValidFields(f)
    ensures CostFields(f) <= |PrintFields(f)|
    decreases f
  {
    if f.Field? {
      CostBelowPrint(f.value);
      CostBelowPrintFields(f.rest);
    }
  }
}

/** The values of core/canonical_json.py, their validation, and the canonical order of dictionaries.

    Text is Python's str: a sequence of code points that may hold surrogates. Lists and dictionaries
    are finite trees; a dictionary is the list of its entries in insertion order. */
module JsonValues {
  import opened Wrappers

  type CodePoint = c: int | 0 <= c < 0x110000
  type Text = seq<CodePoint>

  datatype Json =
    | Null
    | Bool(b: bool)
    | Int(i: int)
    | Str(s: Text)
    | Arr(items: Items)
    | Obj(fields: Fields)
    | Unsupported

  datatype Items = NoItems | Item(value: Json, rest: Items)

  datatype Fields = NoFields | Field(key: Text, value: Json, rest: Fields)

  datatype JsonError =
    | ByteLimit | IntegerRange | Surrogate | AsciiKey | UnsupportedType
    | DuplicateKey | NegativeZero | NumberToken | ParseError

  const MAX_INTEGER := 0x1F_FFFF_FFFF_FFFF

  predicate InRange(i: int) {
    -MAX_INTEGER <= i <= MAX_INTEGER
  }

  predicate NoSurrogate(s: Text) {
    forall i | 0 <= i < |s| :: !(0xD800 <= s[i] <= 0xDFFF)
  }

  predicate IsAscii(s: Text) {
    forall i | 0 <= i < |s| :: s[i] < 0x80
  }

  function KeysOf(f: Fields): set<Text> {
    match f
    case NoFields => {}
    case Field(k, _, rest) => {k} + KeysOf(rest)
  }

  function Length(f: Fields): nat {
    match f
    case NoFields => 0
    case Field(_, _, rest) => 1 + Length(rest)
  }

  /** No dictionary in the value holds a key twice: true of every Python value. */
  predicate IsValue(v: Json) {
    match v
    case Arr(items) => AreValues(items)
    case Obj(fields) => IsDict(fields)
    case _ => true
  }

  predicate AreValues(items: Items) {
    match items
    case NoItems => true
    case Item(v, rest) => IsValue(v) && AreValues(rest)
  }

  predicate IsDict(f: Fields) {
    match f
    case NoFields => true
    case Field(k, v, rest) => k !in KeysOf(rest) && IsValue(v) && IsDict(rest)
  }

  // ----- validation -----

  /** The first offence of a value, in the order of traversal, apart from the budget. */
  function Offence(v: Json): Option<JsonError> {
    match v
    case Int(i) => if InRange(i) then None else Some(IntegerRange)
    case Str(s) => if NoSurrogate(s) then None else Some(Surrogate)
    case Arr(items) => OffenceIn(items)
    case Obj(fields) => OffenceUnder(fields)
    case Unsupported => Some(UnsupportedType)
    case _ => None
  }

  function OffenceIn(items: Items): Option<JsonError> {
    match items
    case NoItems => None
    case Item(v, rest) => if Offence(v).Some? then Offence(v) else OffenceIn(rest)
  }

  function OffenceUnder(f: Fields): Option<JsonError> {
    match f
    case NoFields => None
    case Field(k, v, rest) =>
      if !IsAscii(k) then Some(AsciiKey)
      else if Offence(v).Some? then Offence(v)
      else OffenceUnder(rest)
  }

  /** The values that validation lets through when no budget is set. */
  predicate Valid(v: Json) {
    Offence(v).None?
  }

  predicate ValidItems(items: Items) {
    OffenceIn(items).None?
  }

  predicate ValidFields(f: Fields) {
    OffenceUnder(f).None?
  }

  /** What validation takes from the budget for a valid value. */
  function Cost(v: Json): nat {
    match v
    case Str(s) => 1 + |s|
    case Arr(items) => 1 + CostItems(items)
    case Obj(fields) => 1 + CostFields(fields)
    case _ => 1
  }

  function CostItems(items: Items): nat {
    match items
    case NoItems => 0
    case Item(v, rest) => Cost(v) + CostItems(rest)
  }

  function CostFields(f: Fields): nat {
    match f
    case NoFields => 0
    case Field(k, v, rest) => |k| + 2 + Cost(v) + CostFields(rest)
  }

  /** What it takes before the first offence comes up. */
  function Spent(v: Json): nat {
    match v
    case Str(s) => 1 + |s|
    case Arr(items) => 1 + SpentIn(items)
    case Obj(fields) => 1 + SpentUnder(fields)
    case _ => 1
  }

  function SpentIn(items: Items): nat {
    match items
    case NoItems => 0
    case Item(v, rest) => Spent(v) + if Valid(v) then SpentIn(rest) else 0
  }

  function SpentUnder(f: Fields): nat {
    match f
    case NoFields => 0
    case Field(k, v, rest) =>
      if !IsAscii(k) then 0 else |k| + 2 + Spent(v) + if Valid(v) then SpentUnder(rest) else 0
  }

  lemma {:induction false} SpentIsCost(v: Json)
    ensures Spent(v) <= Cost(v) && (Valid(v) ==> Spent(v) == Cost(v))
    decreases v
  {
    match v
    case Arr(items) => SpentIsCostIn(items);
    case Obj(fields) => SpentIsCostUnder(fields);
    case _ =>
  }

  lemma {:induction false} SpentIsCostIn(items: Items)
    ensures SpentIn(items) <= CostItems(items) && (ValidItems(items) ==> SpentIn(items) == CostItems(items))
    decreases items
  {
    if items.Item? {
      SpentIsCost(items.value);
      SpentIsCostIn(items.rest);
    }
  }

  lemma {:induction false} SpentIsCostUnder(f: Fields)
    ensures SpentUnder(f) <= CostFields(f) && (ValidFields(f) ==> SpentUnder(f) == CostFields(f))
    decreases f
  {
    if f.Field? {
      SpentIsCost(f.value);
      SpentIsCostUnder(f.rest);
    }
  }

  /** _validate: the traversal, which stops at the first offence, or where the budget, if there is one, runs out
      before. */
  method Validate(v: Json, budget: array?<int>) returns (r: Option<JsonError>)
    requires budget != null ==> budget.Length == 1 && budget[0] >= 0
    modifies budget
    ensures r == if budget != null && Spent(v) > old(budget[0]) then Some(ByteLimit) else Offence(v)
    ensures budget != null && r.None? ==> budget[0] == old(budget[0]) - Cost(v) && budget[0] >= 0
    decreases v
  {
    SpentIsCost(v);
    if budget != null {
      budget[0] := budget[0] - (1 + if v.Str? then |v.s| else 0);
      if budget[0] < 0 {
        return Some(ByteLimit);
      }
    }
    match v
    case Null => return None;
    case Bool(_) => return None;
    case Int(i) => return if InRange(i) then None else Some(IntegerRange);
    case Str(s) => return if NoSurrogate(s) then None else Some(Surrogate);
    case Unsupported => return Some(UnsupportedType);
    case Arr(items) =>
      r := ValidateItems(items, budget);
    case Obj(fields) =>
      r := ValidateFields(fields, budget);
  }

  method ValidateItems(items: Items, budget: array?<int>) returns (r: Option<JsonError>)
    requires budget != null ==> budget.Length == 1 && budget[0] >= 0
    modifies budget
    ensures r == if budget != null && SpentIn(items) > old(budget[0]) then Some(ByteLimit) else OffenceIn(items)
    ensures budget != null && r.None? ==> budget[0] == old(budget[0]) - CostItems(items) && budget[0] >= 0
    decreases items
  {
    SpentIsCostIn(items);
    if items.NoItems? {
      return None;
    }
    SpentIsCost(items.value);
    r := Validate(items.value, budget);
    if r.None? {
      r := ValidateItems(items.rest, budget);
    }
  }

  method ValidateFields(f: Fields, budget: array?<int>) returns (r: Option<JsonError>)
    requires budget != null ==> budget.Length == 1 && budget[0] >= 0
    modifies budget
    ensures r == if budget != null && SpentUnder(f) > old(budget[0]) then Some(ByteLimit) else OffenceUnder(f)
    ensures budget != null && r.None? ==> budget[0] == old(budget[0]) - CostFields(f) && budget[0] >= 0
    decreases f
  {
    SpentIsCostUnder(f);
    if f.NoFields? {
      return None;
    }
    if !IsAscii(f.key) {
      return Some(AsciiKey);
    }
    if budget != null {
      budget[0] := budget[0] - (|f.key| + 2);
      if budget[0] < 0 {
        return Some(ByteLimit);
      }
    }
    SpentIsCost(f.value);
    r := Validate(f.value, budget);
    if r.None? {
      r := ValidateFields(f.rest, budget);
    }
  }

  // ----- equality of values -----

  predicate HasKey(f: Fields, k: Text) {
    f.Field? && (f.key == k || HasKey(f.rest, k))
  }

  function Lookup(f: Fields, k: Text): Json
    requires HasKey(f, k)
  {
    if f.key == k then f.value else Lookup(f.rest, k)
  }

  /** Equality of values, dictionaries compared without regard to insertion order. */
  predicate SameValue(v: Json, w: Json) {
    match v
    case Arr(items) => w.Arr? && SameItems(items, w.items)
    case Obj(fields) => w.Obj? && Length(fields) == Length(w.fields) && Included(fields, w.fields)
    case _ => v == w
  }

  predicate SameItems(a: Items, b: Items) {
    match a
    case NoItems => b.NoItems?
    case Item(v, rest) => b.Item? && SameValue(v, b.value) && SameItems(rest, b.rest)
  }

  /** Every entry of f has an equal one in g. */
  predicate Included(f: Fields, g: Fields) {
    match f
    case NoFields => true
    case Field(k, v, rest) => HasKey(g, k) && SameValue(v, Lookup(g, k)) && Included(rest, g)
  }

  // ----- the canonical order -----

  predicate Before(a: Text, b: Text) {
    b != [] && (a == [] || a[0] < b[0] || (a[0] == b[0] && Before(a[1..], b[1..])))
  }

  lemma {:induction false} BeforeTotal(a: Text, b: Text)
    ensures a == b || Before(a, b) || Before(b, a)
  {
    if a != [] && b != [] {
      BeforeTotal(a[1..], b[1..]);
      if a[0] == b[0] && a[1..] == b[1..] {
        assert a == [a[0]] + a[1..] == b;
      }
    }
  }

  lemma {:induction false} BeforeAsymmetric(a: Text, b: Text)
    requires Before(a, b)
    ensures !Before(b, a) && a != b
  {
    if a != [] && a[0] == b[0] {
      BeforeAsymmetric(a[1..], b[1..]);
    }
  }

  lemma {:induction false} BeforeTransitive(a: Text, b: Text, c: Text)
    requires Before(a, b) && Before(b, c)
    ensures Before(a, c)
  {
    if a != [] && a[0] == b[0] == c[0] {
      BeforeTransitive(a[1..], b[1..], c[1..]);
    }
  }

  /** Keys strictly ascend, every one above low when low is given. */
  ghost predicate Sorted(f: Fields) {
    f.NoFields? || (Sorted(f.rest) && forall k :: k in KeysOf(f.rest) ==> Before(f.key, k))
  }

  function Insert(k: Text, v: Json, f: Fields): (r: Fields)
    ensures KeysOf(r) == {k} + KeysOf(f)
  {
    if f.NoFields? || Before(k, f.key) then Field(k, v, f) else Field(f.key, f.value, Insert(k, v, f.rest))
  }

  /** The value with every dictionary's entries in ascending order of their keys. */
  function Canon(v: Json): Json {
    match v
    case Arr(items) => Arr(CanonItems(items))
    case Obj(fields) => Obj(CanonFields(fields))
    case _ => v
  }

  function CanonItems(items: Items): Items {
    match items
    case NoItems => NoItems
    case Item(v, rest) => Item(Canon(v), CanonItems(rest))
  }

  function CanonFields(f: Fields): (r: Fields)
    ensures KeysOf(r) == KeysOf(f)
  {
    match f
    case NoFields => NoFields
    case Field(k, v, rest) => Insert(k, Canon(v), CanonFields(rest))
  }

  lemma {:induction false} InsertSorted(k: Text, v: Json, f: Fields)
    requires Sorted(f) && k !in KeysOf(f)
    ensures Sorted(Insert(k, v, f))
  {
    if f.Field? {
      BeforeTotal(k, f.key);
      if Before(k, f.key) {
        forall j | j in KeysOf(f)
          ensures Before(k, j)
        {
          if j != f.key {
            BeforeTransitive(k, f.key, j);
          }
        }
      } else {
        InsertSorted(k, v, f.rest);
      }
    }
  }

  lemma {:induction false} CanonSorted(f: Fields)
    requires IsDict(f)
    ensures Sorted(CanonFields(f))
  {
    if f.Field? {
      CanonSorted(f.rest);
      InsertSorted(f.key, Canon(f.value), CanonFields(f.rest));
    }
  }

  // ----- canonical form decides equality -----

  /** The dictionary as a map; of a repeated key, the first entry. */
  ghost function MapOf(f: Fields): (m: map<Text, Json>)
    ensures m.Keys == KeysOf(f)
  {
    match f
    case NoFields => map[]
    case Field(k, v, rest) => MapOf(rest)[k := v]
  }

  lemma {:induction false} InsertMap(k: Text, v: Json, f: Fields)
    requires k !in KeysOf(f)
    ensures MapOf(Insert(k, v, f)) == MapOf(f)[k := v]
    ensures Length(Insert(k, v, f)) == Length(f) + 1
  {
    if f.Field? && !Before(k, f.key) {
      InsertMap(k, v, f.rest);
    }
  }

  lemma {:induction false} LookupMap(f: Fields, k: Text)
    ensures HasKey(f, k) <==> k in KeysOf(f)
    ensures HasKey(f, k) ==> MapOf(f)[k] == Lookup(f, k)
  {
    if f.Field? {
      LookupMap(f.rest, k);
    }
  }

  lemma {:induction false} LengthIsSize(f: Fields)
    requires IsDict(f)
    ensures |KeysOf(f)| == Length(f)
  {
    if f.Field? {
      LengthIsSize(f.rest);
    }
  }

  /** The canonical entries map each key to the canonical form of its value. */
  lemma {:induction false} CanonMap(f: Fields, k: Text)
    requires IsDict(f) && k in KeysOf(f)
    ensures HasKey(f, k) && MapOf(CanonFields(f))[k] == Canon(Lookup(f, k))
  {
    InsertMap(f.key, Canon(f.value), CanonFields(f.rest));
    if k != f.key {
      CanonMap(f.rest, k);
    }
  }

  /** Entries in ascending order are determined by the map they denote. */
  lemma {:induction false} SortedUnique(f: Fields, g: Fields)
    requires Sorted(f) && Sorted(g) && MapOf(f) == MapOf(g)
    ensures f == g
  {
    assert KeysOf(f) == MapOf(f).Keys == MapOf(g).Keys == KeysOf(g);
    assert g.Field? ==> g.key in KeysOf(g);
    if f.Field? {
      assert f.key in KeysOf(g);
      assert g.key in KeysOf(f);
      if f.key != g.key {
        BeforeAsymmetric(f.key, g.key);
        assert false;
      }
      NotAgain(f);
      NotAgain(g);
      assert MapOf(f.rest) == MapOf(f) - {f.key};
      assert MapOf(g.rest) == MapOf(g) - {g.key};
      assert f.value == MapOf(f)[f.key] == g.value;
      SortedUnique(f.rest, g.rest);
    }
  }

  lemma NotAgain(f: Fields)
    requires Sorted(f) && f.Field?
    ensures f.key !in KeysOf(f.rest)
  {
    if f.key in KeysOf(f.rest) {
      BeforeAsymmetric(f.key, f.key);
    }
  }

  /** Two values are equal exactly when their canonical forms are identical. */
  lemma {:induction false} SameIffCanon(v: Json, w: Json)
    requires IsValue(v) && IsValue(w)
    ensures SameValue(v, w) <==> Canon(v) == Canon(w)
    decreases v
  {
    match v
    case Arr(items) =>
      if w.Arr? {
        SameItemsIffCanon(items, w.items);
      }
    case Obj(fields) =>
      if w.Obj? {
        SameFieldsIffCanon(fields, w.fields);
      }
    case _ =>
  }

  lemma {:induction false} SameItemsIffCanon(a: Items, b: Items)
    requires AreValues(a) && AreValues(b)
    ensures SameItems(a, b) <==> CanonItems(a) == CanonItems(b)
    decreases a
  {
    if a.Item? && b.Item? {
      SameIffCanon(a.value, b.value);
      SameItemsIffCanon(a.rest, b.rest);
    }
  }

  lemma {:induction false} SameFieldsIffCanon(f: Fields, g: Fields)
    requires IsDict(f) && IsDict(g)
    ensures Length(f) == Length(g) && Included(f, g) <==> CanonFields(f) == CanonFields(g)
    decreases f, 1
  {
    IncludedIffCanon(f, g);
    LengthIsSize(f);
    LengthIsSize(g);
    if Length(f) == Length(g) && Included(f, g) {
      forall k | k in KeysOf(f)
        ensures k in KeysOf(g)
      {
        LookupMap(g, k);
      }
      SubsetOfSameSize(KeysOf(f), KeysOf(g));
      forall k | k in KeysOf(f)
        ensures MapOf(CanonFields(f))[k] == MapOf(CanonFields(g))[k]
      {
        CanonMap(f, k);
        CanonMap(g, k);
      }
      CanonSorted(f);
      CanonSorted(g);
      SortedUnique(CanonFields(f), CanonFields(g));
    }
    if CanonFields(f) == CanonFields(g) {
      assert KeysOf(f) == KeysOf(g);
      forall k | k in KeysOf(f)
        ensures SameUnder(f, g, k)
      {
        CanonMap(f, k);
        CanonMap(g, k);
      }
    }
  }

  ghost predicate SameUnder(f: Fields, g: Fields, k: Text) {
    HasKey(f, k) && HasKey(g, k) && Canon(Lookup(f, k)) == Canon(Lookup(g, k))
  }

  lemma {:induction false} IncludedIffCanon(f: Fields, g: Fields)
    requires IsDict(f) && IsDict(g)
    ensures Included(f, g) <==> forall k :: k in KeysOf(f) ==> SameUnder(f, g, k)
    decreases f, 0
  {
    if f.Field? {
      IncludedIffCanon(f.rest, g);
      if HasKey(g, f.key) {
        LookupIsValue(g, f.key);
        SameIffCanon(f.value, Lookup(g, f.key));
      }
      assert SameUnder(f, g, f.key) <==> HasKey(g, f.key) && SameValue(f.value, Lookup(g, f.key));
      assert forall k :: k in KeysOf(f.rest) ==> (SameUnder(f, g, k) <==> SameUnder(f.rest, g, k));
    }
  }

  lemma {:induction false} LookupIsValue(f: Fields, k: Text)
    requires IsDict(f) && HasKey(f, k)
    ensures IsValue(Lookup(f, k))
  {
    if f.key != k {
      LookupIsValue(f.rest, k);
    }
  }

  lemma SubsetOfSameSize(a: set<Text>, b: set<Text>)
    requires a <= b && |a| == |b|
    ensures a == b
  {
    assert |b - a| == |b| - |a|;
  }

  // ----- canonical form keeps what validation and the budget see -----

  lemma {:induction false} InsertKeeps(k: Text, v: Json, f: Fields)
    ensures CostFields(Insert(k, v, f)) == |k| + 2 + Cost(v) + CostFields(f)
    ensures ValidFields(Insert(k, v, f)) <==> IsAscii(k) && Valid(v) && ValidFields(f)
    ensures k !in KeysOf(f) ==> (IsDict(Insert(k, v, f)) <==> IsValue(v) && IsDict(f))
  {
    if f.Field? && !Before(k, f.key) {
      InsertKeeps(k, v, f.rest);
    }
  }

  lemma {:induction false} CanonKeeps(v: Json)
    requires IsValue(v)
    ensures Cost(Canon(v)) == Cost(v)
    ensures Valid(Canon(v)) <==> Valid(v)
    ensures IsValue(Canon(v)) && IsSorted(Canon(v))
    decreases v
  {
    match v
    case Arr(items) => CanonItemsKeep(items);
    case Obj(fields) =>
      CanonFieldsKeep(fields);
      CanonSorted(fields);
    case _ =>
  }

  lemma {:induction false} CanonItemsKeep(items: Items)
    requires AreValues(items)
    ensures CostItems(CanonItems(items)) == CostItems(items)
    ensures ValidItems(CanonItems(items)) <==> ValidItems(items)
    ensures AreValues(CanonItems(items)) && AreSorted(CanonItems(items))
    decreases items
  {
    if items.Item? {
      CanonKeeps(items.value);
      CanonItemsKeep(items.rest);
    }
  }

  lemma {:induction false} CanonFieldsKeep(f: Fields)
    requires IsDict(f)
    ensures CostFields(CanonFields(f)) == CostFields(f)
    ensures ValidFields(CanonFields(f)) <==> ValidFields(f)
    ensures IsDict(CanonFields(f)) && FieldsSorted(CanonFields(f))
    decreases f
  {
    if f.Field? {
      CanonKeeps(f.value);
      CanonFieldsKeep(f.rest);
      InsertKeeps(f.key, Canon(f.value), CanonFields(f.rest));
      InsertSortedDeep(f.key, Canon(f.value), CanonFields(f.rest));
    }
  }

  /** Every dictionary in the value has its entries in ascending order. */
  ghost predicate IsSorted(v: Json) {
    match v
    case Arr(items) => AreSorted(items)
    case Obj(fields) => Sorted(fields) && FieldsSorted(fields)
    case _ => true
  }

  ghost predicate AreSorted(items: Items) {
    match items
    case NoItems => true
    case Item(v, rest) => IsSorted(v) && AreSorted(rest)
  }

  ghost predicate FieldsSorted(f: Fields) {
    match f
    case NoFields => true
    case Field(_, v, rest) => IsSorted(v) && FieldsSorted(rest)
  }

  lemma {:induction false} InsertSortedDeep(k: Text, v: Json, f: Fields)
    requires IsSorted(v) && FieldsSorted(f)
    ensures FieldsSorted(Insert(k, v, f))
  {
    if f.Field? && !Before(k, f.key) {
      InsertSortedDeep(k, v, f.rest);
    }
  }

  /** Canonical form is its own canonical form. */
  lemma {:induction false} CanonFixed(v: Json)
    requires IsSorted(v)
    ensures Canon(v) == v
    decreases v
  {
    match v
    case Arr(items) => CanonItemsFixed(items);
    case Obj(fields) => CanonFieldsFixed(fields);
    case _ =>
  }

  lemma {:induction false} CanonItemsFixed(items: Items)
    requires AreSorted(items)
    ensures CanonItems(items) == items
    decreases items
  {
    if items.Item? {
      CanonFixed(items.value);
      CanonItemsFixed(items.rest);
    }
  }

  lemma {:induction false} CanonFieldsFixed(f: Fields)
    requires Sorted(f) && FieldsSorted(f)
    ensures CanonFields(f) == f
    decreases f
  {
    if f.Field? {
      CanonFixed(f.value);
      CanonFieldsFixed(f.rest);
      if f.rest.Field? {
        assert f.rest.key in KeysOf(f.rest);
      }
    }
  }

  /** A value equals its canonical form. */
  lemma CanonSame(v: Json)
    requires IsValue(v)
    ensures SameValue(Canon(v), v)
  {
    CanonKeeps(v);
    CanonFixed(Canon(v));
    SameIffCanon(Canon(v), v);
  }
}

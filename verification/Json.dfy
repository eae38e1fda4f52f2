/** JSON values, their canonical form, and the strict object codecs of the protocol. */
module Json {
  import opened Wrappers
  import opened Sequences
  import opened Ordering
  import opened Duplicates

  datatype Value =
    | Null
    | Bool(b: bool)
    | Int(n: int)
    | Number(text: string)
    | String(s: string)
    | List(items: seq<Value>)
    | Assoc(fields: seq<Field>)

  datatype Field = Field(key: string, value: Value)

  predicate KeyLess(a: Field, b: Field) {
    StringLess(a.key, b.key)
  }

  // ----- canonical form

  /** Object keys sorted at every level; list order kept. */
  function Canonical(j: Value): Value
    decreases j, 0
  {
    match j
    case List(items) => List(CanonicalItems(items))
    case Assoc(fields) => Assoc(Sort(KeyLess, CanonicalFields(fields)))
    case _ => j
  }

  function CanonicalItems(items: seq<Value>): (r: seq<Value>)
    ensures |r| == |items|
    ensures forall i :: 0 <= i < |items| ==> r[i] == Canonical(items[i])
    decreases items, 1
  {
    if items == [] then [] else [Canonical(items[0])] + CanonicalItems(items[1..])
  }

  function CanonicalFields(fields: seq<Field>): (r: seq<Field>)
    ensures |r| == |fields|
    ensures forall i :: 0 <= i < |fields| ==> r[i] == Field(fields[i].key, Canonical(fields[i].value))
    decreases fields, 1
  {
    if fields == [] then []
    else [Field(fields[0].key, Canonical(fields[0].value))] + CanonicalFields(fields[1..])
  }

  ghost predicate DistinctKeys(fields: seq<Field>) {
    forall i, j :: 0 <= i < j < |fields| ==> fields[i].key != fields[j].key
  }

  /** Every object lists its keys in strictly increasing order. */
  ghost predicate Ordered(j: Value)
    decreases j
  {
    match j
    case List(items) => forall i :: 0 <= i < |items| ==> Ordered(items[i])
    case Assoc(fields) =>
      && StrictlySorted(KeyLess, fields)
      && forall i :: 0 <= i < |fields| ==> Ordered(fields[i].value)
    case _ => true
  }

  lemma KeyOrder()
    ensures StrictOrder(KeyLess)
  {
    StringOrder();
  }

  lemma KeysTotal(fields: seq<Field>)
    requires DistinctKeys(fields)
    ensures TotalOn(KeyLess, Elements(fields))
  {
    StringOrder();
    forall a, b | a in Elements(fields) && b in Elements(fields) && a != b
      ensures KeyLess(a, b) || KeyLess(b, a)
    {
      var i :| 0 <= i < |fields| && fields[i] == a;
      var j :| 0 <= j < |fields| && fields[j] == b;
      assert a.key != b.key;
    }
  }

  lemma SortedKeys(fields: seq<Field>)
    requires DistinctKeys(fields)
    ensures StrictlySorted(KeyLess, Sort(KeyLess, fields))
    ensures DistinctKeys(Sort(KeyLess, fields))
  {
    KeyOrder();
    KeysTotal(fields);
    SortSorted(KeyLess, fields);
    var s := Sort(KeyLess, fields);
    DistinctFields(fields);
    PermutationDistinct(fields, s);
    StringOrder();
    assert forall f :: f in s ==> f in Elements(fields);
    assert Sorted(KeyLess, s) && Distinct(s);
  }

  lemma DistinctFields(fields: seq<Field>)
    requires DistinctKeys(fields)
    ensures Distinct(fields)
  {
  }

  lemma StrictKeys(fields: seq<Field>)
    requires StrictlySorted(KeyLess, fields)
    ensures DistinctKeys(fields) && Sort(KeyLess, fields) == fields
  {
    StringOrder();
    assert DistinctKeys(fields);
    KeyOrder();
    SortedKeys(fields);
    StrictlySortedEqual(KeyLess, Sort(KeyLess, fields), fields);
  }

  /** What is ordered at every level is its own canonical form. */
  lemma {:induction false} OrderedIsCanonical(j: Value)
    requires Ordered(j)
    ensures Canonical(j) == j
    decreases j
  {
    match j
    case List(items) =>
      forall i | 0 <= i < |items|
        ensures CanonicalItems(items)[i] == items[i]
      {
        OrderedIsCanonical(items[i]);
      }
      assert CanonicalItems(items) == items;
    case Assoc(fields) =>
      forall i | 0 <= i < |fields|
        ensures CanonicalFields(fields)[i] == fields[i]
      {
        OrderedIsCanonical(fields[i].value);
      }
      assert CanonicalFields(fields) == fields;
      StrictKeys(fields);
    case _ =>
  }

  // ----- lookup

  /** List.assoc_opt: the first field with the key. */
  function AssocOpt(key: string, fields: seq<Field>): (r: Option<Value>)
    ensures r.Some? ==> Field(key, r.value) in fields
    ensures r.None? ==> forall f :: f in fields ==> f.key != key
  {
    if fields == [] then None
    else if fields[0].key == key then Some(fields[0].value)
    else AssocOpt(key, fields[1..])
  }

  lemma AssocUnique(key: string, fields: seq<Field>, v: Value)
    requires DistinctKeys(fields)
    ensures AssocOpt(key, fields) == Some(v) <==> Field(key, v) in fields
  {
    if Field(key, v) in fields {
      var i :| 0 <= i < |fields| && fields[i] == Field(key, v);
      var found := AssocOpt(key, fields);
      assert found.Some?;
      var j :| 0 <= j < |fields| && fields[j] == Field(key, found.value);
      assert fields[i].key == fields[j].key;
    }
  }

  // ----- objects from entries

  /** A field that may be absent. */
  datatype Entry = Entry(key: string, value: Option<Value>)

  /** The fields that are present, in order. */
  function Present(entries: seq<Entry>): (r: seq<Field>)
    ensures forall f :: f in r <==> Entry(f.key, Some(f.value)) in entries
  {
    if entries == [] then []
    else
      (if entries[0].value.Some? then [Field(entries[0].key, entries[0].value.value)] else [])
      + Present(entries[1..])
  }

  function Object(entries: seq<Entry>): Value {
    Assoc(Sort(KeyLess, Present(entries)))
  }

  ghost predicate DistinctEntries(entries: seq<Entry>) {
    forall i, j :: 0 <= i < j < |entries| ==> entries[i].key != entries[j].key
  }

  lemma {:induction false} PresentDistinct(entries: seq<Entry>)
    requires DistinctEntries(entries)
    ensures DistinctKeys(Present(entries))
  {
    if entries != [] {
      PresentDistinct(entries[1..]);
      forall f | f in Present(entries[1..])
        ensures f.key != entries[0].key
      {
        var i :| 0 <= i < |entries[1..]| && entries[1..][i] == Entry(f.key, Some(f.value));
        assert entries[i + 1].key == f.key;
      }
    }
  }

  /** An object built from entries with distinct keys is ordered when its values are. */
  lemma ObjectOrdered(entries: seq<Entry>)
    requires DistinctEntries(entries)
    requires forall e :: e in entries && e.value.Some? ==> Ordered(e.value.value)
    ensures Ordered(Object(entries))
  {
    PresentDistinct(entries);
    SortedKeys(Present(entries));
    var s := Sort(KeyLess, Present(entries));
    forall i | 0 <= i < |s|
      ensures Ordered(s[i].value)
    {
      assert s[i] in Present(entries);
    }
  }

  function CanonicalOption(v: Option<Value>): Option<Value> {
    if v.Some? then Some(Canonical(v.value)) else None
  }

  /** Looking the entry's key up gives, up to canonical form, what the entry says. */
  ghost predicate Reads(fields: seq<Field>, entry: Entry) {
    CanonicalOption(AssocOpt(entry.key, fields)) == entry.value
  }

  ghost predicate Answers(fields: seq<Field>, entries: seq<Entry>) {
    forall i :: 0 <= i < |entries| ==> Reads(fields, entries[i])
  }

  ghost predicate OnlyKeys(fields: seq<Field>, entries: seq<Entry>) {
    forall f :: f in fields ==> exists e :: e in entries && e.key == f.key
  }

  lemma CanonicalMembers(fields: seq<Field>, key: string, v: Value)
    ensures Field(key, v) in CanonicalFields(fields) <==>
            exists w :: Field(key, w) in fields && Canonical(w) == v
  {
    var c := CanonicalFields(fields);
    if Field(key, v) in c {
      var i :| 0 <= i < |c| && c[i] == Field(key, v);
      assert fields[i] in fields && fields[i] == Field(key, fields[i].value);
    }
    if w :| Field(key, w) in fields && Canonical(w) == v {
      var i :| 0 <= i < |fields| && fields[i] == Field(key, w);
      assert c[i] == Field(key, v);
    }
  }

  lemma AnswersMembers(fields: seq<Field>, entries: seq<Entry>)
    requires DistinctKeys(fields) && OnlyKeys(fields, entries) && Answers(fields, entries)
    ensures forall f :: f in CanonicalFields(fields) <==> f in Present(entries)
  {
    forall key, v
      ensures Field(key, v) in CanonicalFields(fields) <==> Entry(key, Some(v)) in entries
    {
      CanonicalMembers(fields, key, v);
      if w :| Field(key, w) in fields && Canonical(w) == v {
        AssocUnique(key, fields, w);
        var e :| e in entries && e.key == key;
        var i :| 0 <= i < |entries| && entries[i] == e;
        assert e == Entry(key, Some(v));
      }
      if Entry(key, Some(v)) in entries {
        var i :| 0 <= i < |entries| && entries[i] == Entry(key, Some(v));
        var w := AssocOpt(entries[i].key, fields);
        assert w.Some? && Canonical(w.value) == v;
      }
    }
    forall f
      ensures f in CanonicalFields(fields) <==> f in Present(entries)
    {
      assert f == Field(f.key, f.value);
    }
  }

  lemma MembersAnswer(fields: seq<Field>, entries: seq<Entry>)
    requires DistinctKeys(fields) && DistinctEntries(entries)
    requires forall f :: f in CanonicalFields(fields) <==> f in Present(entries)
    ensures OnlyKeys(fields, entries) && Answers(fields, entries)
  {
    forall f | f in fields
      ensures exists e :: e in entries && e.key == f.key
    {
      assert f == Field(f.key, f.value);
      CanonicalMembers(fields, f.key, Canonical(f.value));
      assert Entry(f.key, Some(Canonical(f.value))) in entries;
    }
    forall i | 0 <= i < |entries|
      ensures Reads(fields, entries[i])
    {
      var key := entries[i].key;
      var found := AssocOpt(key, fields);
      if found.Some? {
        CanonicalMembers(fields, key, Canonical(found.value));
        assert Field(key, Canonical(found.value)) in Present(entries);
        var j :| 0 <= j < |entries| && entries[j] == Entry(key, Some(Canonical(found.value)));
        assert i == j;
      } else if entries[i].value.Some? {
        var v := entries[i].value.value;
        assert entries[i] == Entry(key, Some(v)) && entries[i] in entries;
        assert Field(key, v) in Present(entries);
        CanonicalMembers(fields, key, v);
      }
    }
  }

  lemma SortedSameKeys(fields: seq<Field>, entries: seq<Entry>)
    requires DistinctEntries(entries)
    requires Sort(KeyLess, CanonicalFields(fields)) == Sort(KeyLess, Present(entries))
    ensures DistinctKeys(fields)
    ensures forall f :: f in CanonicalFields(fields) <==> f in Present(entries)
  {
    var c, p := CanonicalFields(fields), Present(entries);
    PresentDistinct(entries);
    forall f
      ensures f in c <==> f in p
    {
      assert f in c <==> f in Sort(KeyLess, c);
      assert f in p <==> f in Sort(KeyLess, p);
    }
    assert multiset(c) == multiset(p);
    DistinctFields(p);
    PermutationDistinct(p, c);
    forall i, j | 0 <= i < j < |fields|
      ensures fields[i].key != fields[j].key
    {
      assert c[i] in c && c[j] in c;
      assert c[i] != c[j];
      var a :| 0 <= a < |p| && p[a] == c[i];
      var b :| 0 <= b < |p| && p[b] == c[j];
      assert a != b;
      assert p[a].key != p[b].key;
    }
  }

  lemma AnswersSort(fields: seq<Field>, entries: seq<Entry>)
    requires DistinctEntries(entries)
    requires DistinctKeys(fields) && OnlyKeys(fields, entries) && Answers(fields, entries)
    ensures Sort(KeyLess, CanonicalFields(fields)) == Sort(KeyLess, Present(entries))
  {
    var c, p := CanonicalFields(fields), Present(entries);
    assert forall f :: f in c <==> f in p by { AnswersMembers(fields, entries); }
    assert StrictlySorted(KeyLess, Sort(KeyLess, c)) by { SortedKeys(c); }
    assert StrictlySorted(KeyLess, Sort(KeyLess, p)) by {
      PresentDistinct(entries);
      SortedKeys(p);
    }
    KeyOrder();
    StrictlySortedEqual(KeyLess, Sort(KeyLess, c), Sort(KeyLess, p));
  }

  /** An object has the canonical form of the entries exactly when it has no repeated and no
      other key and each entry's lookup agrees. */
  lemma ObjectExact(fields: seq<Field>, entries: seq<Entry>)
    requires DistinctEntries(entries)
    ensures Canonical(Assoc(fields)) == Object(entries) <==>
            DistinctKeys(fields) && OnlyKeys(fields, entries) && Answers(fields, entries)
  {
    if Canonical(Assoc(fields)) == Object(entries) {
      SortedSameKeys(fields, entries);
      MembersAnswer(fields, entries);
    } else if DistinctKeys(fields) && OnlyKeys(fields, entries) && Answers(fields, entries) {
      AnswersSort(fields, entries);
    }
  }

  // ----- decoders

  /** Why a value was refused. */
  datatype Refusal =
    | Expected(context: string, expected: string)
    | DuplicateField(context: string, key: string)
    | UnknownField(context: string, key: string)
    | MissingField(context: string, key: string)
    | Within(context: string, key: string, detail: Refusal)

  /** The text the kernel reports. */
  function Message(refusal: Refusal): string {
    match refusal
    case Expected(context, expected) => context + ": expected " + expected
    case DuplicateField(context, key) => context + ": duplicate field `" + key + "`"
    case UnknownField(context, key) => context + ": unknown field `" + key + "`"
    case MissingField(context, key) => context + ": missing field `" + key + "`"
    case Within(context, key, detail) => context + "." + key + ": " + Message(detail)
  }

  type Decoded<+T> = Result<T, Refusal>

  function DecodeString(j: Value): Decoded<string> {
    match j
    case String(s) => Ok(s)
    case _ => Err(Expected("value", "string"))
  }

  function DecodeInteger(j: Value): Decoded<int> {
    match j
    case Int(n) => Ok(n)
    case _ => Err(Expected("value", "integer"))
  }

  /** Decodes items in order; the first failure is reported. */
  function DecodeItems<T>(decode: Value -> Decoded<T>, items: seq<Value>): Decoded<seq<T>> {
    if items == [] then Ok([])
    else
      match decode(items[0])
      case Err(detail) => Err(detail)
      case Ok(first) =>
        match DecodeItems(decode, items[1..])
        case Err(detail) => Err(detail)
        case Ok(rest) => Ok([first] + rest)
  }

  function DecodeList<T>(decode: Value -> Decoded<T>, j: Value): Decoded<seq<T>> {
    match j
    case List(items) => DecodeItems(decode, items)
    case _ => Err(Expected("value", "array"))
  }

  function KeysOf(fields: seq<Field>): (r: seq<string>) {
    Map((f: Field) => f.key, fields)
  }

  lemma DuplicateKeyMeaning(fields: seq<Field>)
    ensures Duplicate(KeysOf(fields)).None? <==> DistinctKeys(fields)
  {
    var keys := KeysOf(fields);
    DuplicateMeaning(keys);
    assert forall i :: 0 <= i < |keys| ==> keys[i] == fields[i].key;
  }

  function UnknownKey(allowed: seq<string>, fields: seq<Field>): (r: Option<string>)
    ensures r.None? <==> forall f :: f in fields ==> f.key in allowed
    ensures r.Some? ==> r.value !in allowed && exists f :: f in fields && f.key == r.value
  {
    if fields == [] then None
    else if fields[0].key !in allowed then Some(fields[0].key)
    else UnknownKey(allowed, fields[1..])
  }

  /** Accepts an object without repeated or unknown keys. */
  function Fields(context: string, allowed: seq<string>, j: Value): Decoded<seq<Field>> {
    match j
    case Assoc(fields) =>
      var duplicate := Duplicate(KeysOf(fields));
      if duplicate.Some? then Err(DuplicateField(context, duplicate.value))
      else
        var unknown := UnknownKey(allowed, fields);
        if unknown.Some? then Err(UnknownField(context, unknown.value)) else Ok(fields)
    case _ => Err(Expected(context, "object"))
  }

  function Required<T>(context: string, name: string, decode: Value -> Decoded<T>, fields: seq<Field>)
    : Decoded<T>
  {
    match AssocOpt(name, fields)
    case None => Err(MissingField(context, name))
    case Some(value) =>
      match decode(value)
      case Ok(decoded) => Ok(decoded)
      case Err(detail) => Err(Within(context, name, detail))
  }

  function Optional<T>(context: string, name: string, decode: Value -> Decoded<T>, fields: seq<Field>)
    : Decoded<Option<T>>
  {
    match AssocOpt(name, fields)
    case None => Ok(None)
    case Some(value) =>
      match decode(value)
      case Ok(decoded) => Ok(Some(decoded))
      case Err(detail) => Err(Within(context, name, detail))
  }

  // ----- exact codecs

  /** The decoder accepts exactly the reorderings of encodings. */
  ghost predicate Exact<T(!new)>(encode: T -> Value, decode: Value -> Decoded<T>) {
    forall j, x :: decode(j) == Ok(x) <==> Canonical(j) == encode(x)
  }

  function EncodeList<T(!new)>(encode: T -> Value, items: seq<T>): Value {
    List(Map(encode, items))
  }

  function EncodeOption<T>(encode: T -> Value, x: Option<T>): Option<Value> {
    if x.Some? then Some(encode(x.value)) else None
  }

  lemma {:induction false} ItemsExact<T(!new)>(
    encode: T -> Value, decode: Value -> Decoded<T>, items: seq<Value>, xs: seq<T>)
    requires Exact(encode, decode)
    ensures DecodeItems(decode, items) == Ok(xs) <==> CanonicalItems(items) == Map(encode, xs)
    decreases |items|
  {
    if items == [] || xs == [] {
      assert CanonicalItems(items) == Map(encode, xs) <==> |items| == |xs|;
      if items != [] && DecodeItems(decode, items).Ok? {
        assert DecodeItems(decode, items).value != [];
      }
    } else {
      var a, b := CanonicalItems(items), Map(encode, xs);
      ItemsExact(encode, decode, items[1..], xs[1..]);
      assert a == [Canonical(items[0])] + CanonicalItems(items[1..]);
      assert b == [encode(xs[0])] + Map(encode, xs[1..]);
      assert a == b <==> a[0] == b[0] && a[1..] == b[1..];
      assert a[1..] == CanonicalItems(items[1..]) && b[1..] == Map(encode, xs[1..]);
      assert decode(items[0]) == Ok(xs[0]) <==> a[0] == b[0];
      assert xs == [xs[0]] + xs[1..];
      if DecodeItems(decode, items) == Ok(xs) {
        var first, rest := decode(items[0]).value, DecodeItems(decode, items[1..]).value;
        assert xs[0] == ([first] + rest)[0] && xs[1..] == ([first] + rest)[1..] == rest;
      }
    }
  }

  lemma ListExact<T(!new)>(encode: T -> Value, decode: Value -> Decoded<T>, j: Value, xs: seq<T>)
    requires Exact(encode, decode)
    ensures DecodeList(decode, j) == Ok(xs) <==> Canonical(j) == EncodeList(encode, xs)
  {
    if j.List? {
      ItemsExact(encode, decode, j.items, xs);
    }
  }

  function EncodeString(s: string): Value {
    String(s)
  }

  function EncodeInteger(n: int): Value {
    Int(n)
  }

  lemma FieldsExact(context: string, allowed: seq<string>, j: Value)
    ensures Fields(context, allowed, j).Ok? <==>
            j.Assoc? && DistinctKeys(j.fields) && forall f :: f in j.fields ==> f.key in allowed
    ensures Fields(context, allowed, j).Ok? ==> Fields(context, allowed, j).value == j.fields
  {
    if j.Assoc? {
      DuplicateKeyMeaning(j.fields);
    }
  }

  /** What makes an encoder and a decoder a codec: encodings are ordered at every level and
      the decoder accepts exactly the reorderings of encodings. */
  ghost predicate IsCodec<T(!new)>(encode: T -> Value, decode: Value -> Decoded<T>) {
    && (forall x :: Ordered(encode(x)))
    && Exact(encode, decode)
  }

  lemma StringCodec()
    ensures IsCodec(EncodeString, DecodeString)
  {
  }

  lemma IntegerCodec()
    ensures IsCodec(EncodeInteger, DecodeInteger)
  {
  }

  /** A field that is not read: a required one is reported missing, and one that does not decode is
      reported with the reason and the place. */
  lemma RefusedField<T(!new)>(context: string, name: string, decode: Value -> Decoded<T>, fields: seq<Field>)
    ensures (forall f :: f in fields ==> f.key != name) ==>
              && Required(context, name, decode, fields) == Err(MissingField(context, name))
              && Optional(context, name, decode, fields) == Ok(None)
    ensures forall v :: AssocOpt(name, fields) == Some(v) && decode(v).Err? ==>
              && Required(context, name, decode, fields) == Err(Within(context, name, decode(v).error))
              && Optional(context, name, decode, fields) == Err(Within(context, name, decode(v).error))
  {
  }

  lemma RequiredExact<T(!new)>(
    context: string, name: string, encode: T -> Value, decode: Value -> Decoded<T>,
    fields: seq<Field>, x: T)
    requires IsCodec(encode, decode)
    ensures Required(context, name, decode, fields) == Ok(x) <==> Reads(fields, Entry(name, Some(encode(x))))
  {
  }

  lemma OptionalExact<T(!new)>(
    context: string, name: string, encode: T -> Value, decode: Value -> Decoded<T>,
    fields: seq<Field>, x: Option<T>)
    requires IsCodec(encode, decode)
    ensures Optional(context, name, decode, fields) == Ok(x) <==>
            Reads(fields, Entry(name, EncodeOption(encode, x)))
  {
  }

  /** The entries' lookups, spelled out for an object of at most seven fields. */
  lemma AnswersEach(fields: seq<Field>, entries: seq<Entry>)
    requires |entries| <= 7
    ensures Answers(fields, entries) <==>
            && (|entries| > 0 ==> Reads(fields, entries[0]))
            && (|entries| > 1 ==> Reads(fields, entries[1]))
            && (|entries| > 2 ==> Reads(fields, entries[2]))
            && (|entries| > 3 ==> Reads(fields, entries[3]))
            && (|entries| > 4 ==> Reads(fields, entries[4]))
            && (|entries| > 5 ==> Reads(fields, entries[5]))
            && (|entries| > 6 ==> Reads(fields, entries[6]))
  {
  }

  ghost predicate KeysAre(allowed: seq<string>, entries: seq<Entry>) {
    && |allowed| == |entries|
    && forall i :: 0 <= i < |allowed| ==> entries[i].key == allowed[i]
  }

  /** Two keys told apart by their length or first character. */
  predicate Apart(a: string, b: string) {
    |a| != |b| || (a != "" && b != "" && a[0] != b[0])
  }

  ghost predicate AllApart(keys: seq<string>) {
    forall i, j :: 0 <= i < j < |keys| ==> Apart(keys[i], keys[j])
  }

  lemma ApartEntries(allowed: seq<string>, entries: seq<Entry>)
    requires AllApart(allowed) && KeysAre(allowed, entries)
    ensures DistinctEntries(entries)
  {
    forall i, j | 0 <= i < j < |entries|
      ensures entries[i].key != entries[j].key
    {
      assert Apart(allowed[i], allowed[j]);
    }
  }

  /** A value has the canonical form of the entries exactly when it passes the key check and
      each entry's lookup agrees. */
  lemma AcceptedExact(context: string, allowed: seq<string>, j: Value, entries: seq<Entry>)
    requires AllApart(allowed) && KeysAre(allowed, entries)
    ensures Canonical(j) == Object(entries) <==>
            Fields(context, allowed, j).Ok? && Answers(Fields(context, allowed, j).value, entries)
  {
    ApartEntries(allowed, entries);
    FieldsExact(context, allowed, j);
    if j.Assoc? {
      ObjectExact(j.fields, entries);
      assert (forall f :: f in j.fields ==> f.key in allowed) <==> OnlyKeys(j.fields, entries) by {
        KnownKeys(allowed, j.fields, entries);
      }
    }
  }

  lemma KnownKeys(allowed: seq<string>, fields: seq<Field>, entries: seq<Entry>)
    requires KeysAre(allowed, entries)
    ensures (forall f :: f in fields ==> f.key in allowed) <==> OnlyKeys(fields, entries)
  {
    forall key
      ensures key in allowed <==> exists e :: e in entries && e.key == key
    {
      if key in allowed {
        var i :| 0 <= i < |allowed| && allowed[i] == key;
        assert entries[i] in entries;
      }
      if e :| e in entries && e.key == key {
        var i :| 0 <= i < |entries| && entries[i] == e;
        assert allowed[i] == key;
      }
    }
  }

  ghost predicate OrderedEntries(entries: seq<Entry>) {
    forall i :: 0 <= i < |entries| && entries[i].value.Some? ==> Ordered(entries[i].value.value)
  }

  /** Checks the keys, then reads the fields. */
  function DecodeRecord<T>(
    context: string, allowed: seq<string>, ofFields: seq<Field> -> Decoded<T>, j: Value): Decoded<T>
  {
    var values :- Fields(context, allowed, j);
    ofFields(values)
  }

  /** A record whose fields are read exactly is coded exactly. */
  lemma RecordCodec<T(!new)>(
    context: string, allowed: seq<string>, entriesOf: T -> seq<Entry>,
    ofFields: seq<Field> -> Decoded<T>, encode: T -> Value, decode: Value -> Decoded<T>)
    requires AllApart(allowed)
    requires forall x :: KeysAre(allowed, entriesOf(x)) && OrderedEntries(entriesOf(x))
    requires forall values, x :: ofFields(values) == Ok(x) <==> Answers(values, entriesOf(x))
    requires forall x :: encode(x) == Object(entriesOf(x))
    requires forall j :: decode(j) == DecodeRecord(context, allowed, ofFields, j)
    ensures IsCodec(encode, decode)
  {
    forall x
      ensures Ordered(encode(x))
    {
      ApartEntries(allowed, entriesOf(x));
      ObjectOrdered(entriesOf(x));
    }
    forall j, x
      ensures decode(j) == Ok(x) <==> Canonical(j) == encode(x)
    {
      AcceptedExact(context, allowed, j, entriesOf(x));
    }
  }

  lemma ListCodec<T(!new)>(
    encode: T -> Value, decode: Value -> Decoded<T>,
    encodeAll: seq<T> -> Value, decodeAll: Value -> Decoded<seq<T>>)
    requires IsCodec(encode, decode)
    requires forall xs :: encodeAll(xs) == EncodeList(encode, xs)
    requires forall j :: decodeAll(j) == DecodeList(decode, j)
    ensures IsCodec(encodeAll, decodeAll)
  {
    forall j, xs
      ensures decodeAll(j) == Ok(xs) <==> Canonical(j) == encodeAll(xs)
    {
      ListExact(encode, decode, j, xs);
    }
  }

  lemma RoundTrip<T(!new)>(encode: T -> Value, decode: Value -> Decoded<T>, x: T)
    requires IsCodec(encode, decode)
    ensures decode(encode(x)) == Ok(x)
  {
    assert Ordered(encode(x));
    OrderedIsCanonical(encode(x));
  }
}

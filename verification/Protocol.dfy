/** What the protocol's codecs guarantee, and the host's in-place canonicalisation. */
module Protocol {
  import opened Wrappers
  import opened Sequences
  import opened Ordering
  import opened Duplicates
  import opened Model
  import opened Json
  import opened Codec

  /** No object of the value, at any depth, repeats a key. */
  ghost predicate Unrepeated(j: Value)
    decreases j
  {
    match j
    case List(items) => forall i :: 0 <= i < |items| ==> Unrepeated(items[i])
    case Assoc(fields) => DistinctKeys(fields) && forall i :: 0 <= i < |fields| ==> Unrepeated(fields[i].value)
    case _ => true
  }

  lemma SortedDistinctKeys(fields: seq<Field>)
    requires StrictlySorted(KeyLess, Sort(KeyLess, CanonicalFields(fields)))
    ensures DistinctKeys(fields)
  {
    var c := CanonicalFields(fields);
    var s := Sort(KeyLess, c);
    StrictKeys(s);
    DistinctFields(s);
    PermutationDistinct(s, c);
    forall i, j | 0 <= i < j < |fields|
      ensures fields[i].key != fields[j].key
    {
      assert c[i] != c[j] && c[i] in s && c[j] in s;
      var a :| 0 <= a < |s| && s[a] == c[i];
      var b :| 0 <= b < |s| && s[b] == c[j];
      assert s[a].key != s[b].key;
    }
  }

  lemma SortedChildren(fields: seq<Field>)
    requires forall i :: 0 <= i < |fields| ==> (Ordered(Canonical(fields[i].value)) <==> Unrepeated(fields[i].value))
    ensures (forall f :: f in Sort(KeyLess, CanonicalFields(fields)) ==> Ordered(f.value)) <==>
            forall i :: 0 <= i < |fields| ==> Unrepeated(fields[i].value)
  {
    var c := CanonicalFields(fields);
    if forall f :: f in Sort(KeyLess, c) ==> Ordered(f.value) {
      forall i | 0 <= i < |fields|
        ensures Unrepeated(fields[i].value)
      {
        assert c[i] in Sort(KeyLess, c) && c[i].value == Canonical(fields[i].value);
      }
    }
    if forall i :: 0 <= i < |fields| ==> Unrepeated(fields[i].value) {
      forall f | f in Sort(KeyLess, c)
        ensures Ordered(f.value)
      {
        var i :| 0 <= i < |c| && c[i] == f;
      }
    }
  }

  lemma SortedExactly(fields: seq<Field>)
    ensures StrictlySorted(KeyLess, Sort(KeyLess, CanonicalFields(fields))) <==> DistinctKeys(fields)
  {
    if DistinctKeys(fields) {
      SortedKeys(CanonicalFields(fields));
    } else if StrictlySorted(KeyLess, Sort(KeyLess, CanonicalFields(fields))) {
      SortedDistinctKeys(fields);
    }
  }

  lemma ObjectCanonicalOrdered(fields: seq<Field>)
    requires forall i :: 0 <= i < |fields| ==> (Ordered(Canonical(fields[i].value)) <==> Unrepeated(fields[i].value))
    ensures Ordered(Canonical(Assoc(fields))) <==> Unrepeated(Assoc(fields))
  {
    SortedChildren(fields);
    SortedExactly(fields);
  }

  /** Canonicalising makes a value ordered at every level exactly when no object in it
      repeats a key. */
  lemma {:induction false} CanonicalOrdered(j: Value)
    ensures Ordered(Canonical(j)) <==> Unrepeated(j)
    decreases j
  {
    match j
    case List(items) =>
      forall i | 0 <= i < |items|
        ensures Ordered(CanonicalItems(items)[i]) <==> Unrepeated(items[i])
      {
        CanonicalOrdered(items[i]);
      }
    case Assoc(fields) =>
      forall i | 0 <= i < |fields|
        ensures Ordered(Canonical(fields[i].value)) <==> Unrepeated(fields[i].value)
      {
        CanonicalOrdered(fields[i].value);
      }
      ObjectCanonicalOrdered(fields);
    case _ =>
  }

  /** Rearranging the fields of an object without repeated keys does not change its
      canonical form. */
  lemma RearrangedCanonical(fields: seq<Field>, rearranged: seq<Field>)
    requires DistinctKeys(fields)
    requires multiset(fields) == multiset(rearranged)
    ensures Canonical(Assoc(rearranged)) == Canonical(Assoc(fields))
  {
    var f := (x: Field) => Field(x.key, Canonical(x.value));
    var c, d := CanonicalFields(fields), CanonicalFields(rearranged);
    assert c == Map(f, fields) && d == Map(f, rearranged);
    MapPermutation(f, fields, rearranged);
    KeyOrder();
    KeysTotal(c);
    SortPermutation(KeyLess, c, d);
  }

  lemma {:induction false} CanonicalIdempotent(j: Value)
    requires Unrepeated(j)
    ensures Canonical(Canonical(j)) == Canonical(j)
  {
    CanonicalOrdered(j);
    OrderedIsCanonical(Canonical(j));
  }

  // ----- the host's canonicalisation

  lemma SortedFieldsCanonical(fields: seq<Field>)
    requires DistinctKeys(fields)
    ensures CanonicalFields(Sort(KeyLess, fields)) == Sort(KeyLess, CanonicalFields(fields))
  {
    var f := (x: Field) => Field(x.key, Canonical(x.value));
    var s := Sort(KeyLess, fields);
    var c, d := CanonicalFields(fields), CanonicalFields(s);
    assert c == Map(f, fields) && d == Map(f, s);
    MapPermutation(f, fields, s);
    SortedKeys(fields);
    assert StrictlySorted(KeyLess, d);
    KeyOrder();
    KeysTotal(c);
    SortPermutation(KeyLess, c, d);
    StrictKeys(d);
  }

  lemma EntryFits(fields: seq<Field>, entry: Field)
    requires Unrepeated(Assoc(fields)) && entry in fields
    ensures Unrepeated(entry.value)
    ensures entry.value < Assoc(fields)
  {
    var i :| 0 <= i < |fields| && fields[i] == entry;
    assert fields[i] < Assoc(fields);
  }

  /** Takes every object's fields out, sorts them by key, canonicalises the children and puts
      them back. A host object never repeats a key. */
  method CanonicalizeValue(value: Value) returns (r: Value)
    requires Unrepeated(value)
    ensures r == Canonical(value)
    decreases value
  {
    match value
    case List(items) =>
      var done: seq<Value> := [];
      for i := 0 to |items|
        invariant |done| == i && forall k :: 0 <= k < i ==> done[k] == Canonical(items[k])
      {
        var item := CanonicalizeValue(items[i]);
        done := done + [item];
      }
      assert done == CanonicalItems(items);
      return List(done);
    case Assoc(fields) =>
      var entries := Sort(KeyLess, fields);
      var sorted: seq<Field> := [];
      for i := 0 to |entries|
        invariant |sorted| == i
        invariant forall k :: 0 <= k < i ==> sorted[k] == Field(entries[k].key, Canonical(entries[k].value))
      {
        EntryFits(fields, entries[i]);
        var child := CanonicalizeValue(entries[i].value);
        sorted := sorted + [Field(entries[i].key, child)];
      }
      assert sorted == CanonicalFields(entries);
      SortedFieldsCanonical(fields);
      return Assoc(sorted);
    case _ =>
      return value;
  }

  // ----- requests

  lemma RequestRoundTrip(request: Request)
    ensures DecodeRequest(EncodeRequest(request)) == Ok(request)
    ensures Ordered(EncodeRequest(request))
  {
    RequestCodec();
    RoundTrip(EncodeRequest, DecodeRequest, request);
  }

  /** Exactly the values that canonicalise to some request's encoding are accepted, whatever
      the order of their fields; in particular no object of an accepted value, at any depth,
      has a repeated, unknown or missing field. */
  lemma RequestDecoding(j: Value, request: Request)
    ensures DecodeRequest(j) == Ok(request) <==> Canonical(j) == EncodeRequest(request)
    ensures DecodeRequest(j) == Ok(request) ==> Unrepeated(j)
  {
    RequestCodec();
    if DecodeRequest(j) == Ok(request) {
      CanonicalOrdered(j);
    }
  }

  /** Whether and as what a value is accepted depends on its canonical form only. */
  lemma RequestFieldOrder(j: Value, k: Value, request: Request)
    requires Canonical(j) == Canonical(k)
    ensures DecodeRequest(j) == Ok(request) <==> DecodeRequest(k) == Ok(request)
  {
    RequestDecoding(j, request);
    RequestDecoding(k, request);
  }

  /** Canonical content identifies a record: the store's comparison of stored and offered
      content is a comparison of the records themselves. */
  lemma ContentIdentifies(a: Node, b: Node, e: Edge, f: Edge)
    ensures EncodeNode(a) == EncodeNode(b) <==> a == b
    ensures EncodeEdge(e) == EncodeEdge(f) <==> e == f
  {
    NodeCodec();
    EdgeCodec();
    RoundTrip(EncodeNode, DecodeNode, a);
    RoundTrip(EncodeNode, DecodeNode, b);
    RoundTrip(EncodeEdge, DecodeEdge, e);
    RoundTrip(EncodeEdge, DecodeEdge, f);
  }

  // ----- responses

  lemma ResponseRoundTrip(response: Response)
    ensures DecodeResponse(EncodeResponse(response)) == Ok(response)
    ensures Ordered(EncodeResponse(response))
  {
    ResponseCodec();
    RoundTrip(EncodeResponse, DecodeResponse, response);
  }

  lemma ResponseDecoding(j: Value, response: Response)
    ensures DecodeResponse(j) == Ok(response) <==> Canonical(j) == EncodeResponse(response)
    ensures DecodeResponse(j) == Ok(response) ==> Unrepeated(j)
  {
    ResponseCodec();
    if DecodeResponse(j) == Ok(response) {
      CanonicalOrdered(j);
    }
  }

  /** Objects with a repeated or an unknown key are refused, and the key is named. */
  lemma StrictObjects(context: string, allowed: seq<string>, fields: seq<Field>)
    ensures Fields(context, allowed, Assoc(fields)).Ok? <==>
            DistinctKeys(fields) && forall f :: f in fields ==> f.key in allowed
    ensures !DistinctKeys(fields) ==>
            exists key :: multiset(KeysOf(fields))[key] >= 2 &&
              Fields(context, allowed, Assoc(fields)) == Err(DuplicateField(context, key))
    ensures DistinctKeys(fields) && (exists f :: f in fields && f.key !in allowed) ==>
            exists f :: f in fields && f.key !in allowed &&
              Fields(context, allowed, Assoc(fields)) == Err(UnknownField(context, f.key))
  {
    FieldsExact(context, allowed, Assoc(fields));
    DuplicateKeyMeaning(fields);
    if !DistinctKeys(fields) {
      DuplicateTwice(KeysOf(fields));
    }
  }
}

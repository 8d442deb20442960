/**
 JSON values and their protobuf form: encoding, decoding with type inference,
 and the normal form the two leave behind.
 */
module JsonWire {
  import opened Option
  import opened Integers
  import opened BTree
  import T = JsonType

  datatype JsonNumber = PosInt(u: U64) | NegInt(i: I64) | Float(f: F64)

  /** `JsonVariant`; the borrowed `JsonVariantRef` has the same shape. */
  datatype Json =
    | Null
    | Bool(b: bool)
    | Number(n: JsonNumber)
    | String(s: string)
    | Array(items: seq<Json>)
    | Object(fields: map<string, Json>)
    | Variant(bytes: Bytes)

  datatype PbJson = PbJson(value: Option<PbValue>)

  datatype PbValue =
    | Boolean(b: bool)
    | Int(i: I64)
    | Uint(u: U64)
    | Float(f: F64)
    | Str(s: string)
    | Array(items: seq<PbJson>)
    | Object(entries: seq<Entry>)
    | Variant(bytes: Bytes)

  datatype Entry = Entry(key: string, value: Option<PbJson>)

  // ---------- Encoding ----------

  function Encode(j: Json): PbJson {
    match j
    case Null => PbJson(None)
    case Bool(b) => PbJson(Some(Boolean(b)))
    case Number(PosInt(u)) => PbJson(Some(Uint(u)))
    case Number(NegInt(i)) => PbJson(Some(Int(i)))
    case Number(Float(f)) => PbJson(Some(PbValue.Float(f)))
    case String(s) => PbJson(Some(Str(s)))
    case Array(items) =>
      PbJson(Some(PbValue.Array(seq(|items|, i requires 0 <= i < |items| => Encode(items[i])))))
    case Object(fields) =>
      var keys := Sorted(fields.Keys);
      PbJson(Some(PbValue.Object(
        seq(|keys|, i requires 0 <= i < |keys| =>
          Entry(keys[i], Some(Encode(fields[keys[i]])))))))
    case Variant(bytes) => PbJson(Some(PbValue.Variant(bytes)))
  }

  // ---------- Decoding ----------

  /** The entries of an object that carry a value, in order. */
  function Valued(entries: seq<Entry>): (r: seq<(string, PbJson)>)
    ensures forall p :: p in r <==> Entry(p.0, Some(p.1)) in entries
  {
    if entries == [] then []
    else
      var init, last := entries[..|entries| - 1], entries[|entries| - 1];
      assert entries == init + [last];
      if last.value.None? then Valued(init) else Valued(init) + [(last.key, last.value.value)]
  }

  function Decode(p: PbJson): Json {
    if p.value.None? then Null
    else
      match p.value.value
      case Boolean(b) => Bool(b)
      case Int(i) => Number(NegInt(i))
      case Uint(u) => Number(PosInt(u))
      case Float(f) => Number(JsonNumber.Float(f))
      case Str(s) => String(s)
      case Array(items) => Json.Array(seq(|items|, i requires 0 <= i < |items| => Decode(items[i])))
      case Object(entries) =>
        var vs := Valued(entries);
        Json.Object(Collect(seq(|vs|, i requires 0 <= i < |vs| =>
                                  assert vs[i] in vs;
                                  (vs[i].0, Decode(vs[i].1)))))
      case Variant(bytes) => Json.Variant(bytes)
  }

  function DecodedPairs(entries: seq<Entry>): seq<(string, Json)> {
    var vs := Valued(entries);
    seq(|vs|, i requires 0 <= i < |vs| => (vs[i].0, Decode(vs[i].1)))
  }

  lemma DecodeObjectIs(entries: seq<Entry>)
    ensures Decode(PbJson(Some(PbValue.Object(entries)))) == Json.Object(Collect(DecodedPairs(entries)))
  {
    var vs := Valued(entries);
    assert DecodedPairs(entries) ==
           seq(|vs|, i requires 0 <= i < |vs| => assert vs[i] in vs; (vs[i].0, Decode(vs[i].1)));
  }

  function NumberType(n: JsonNumber): T.NativeType {
    match n
    case PosInt(_) => T.Number(T.U64)
    case NegInt(_) => T.Number(T.I64)
    case Float(_) => T.Number(T.F64)
  }

  /** The type decoding assigns to a variant; an object without fields counts as `Null`. */
  function DecodedType(j: Json): T.NativeType {
    match j
    case Null => T.Null
    case Bool(_) => T.Bool
    case Number(n) => NumberType(n)
    case String(_) => T.String
    case Array(items) =>
      T.Array(T.Join(seq(|items|, i requires 0 <= i < |items| => DecodedType(items[i]))))
    case Object(fields) =>
      if fields == map[] then T.Null else T.Object(map k | k in fields :: DecodedType(fields[k]))
    case Variant(_) => T.Variant
  }

  /** Collecting the types of the pairs gives, for each key, the type of the surviving value. */
  lemma {:induction false} CollectTypes(vs: seq<(string, Json)>, ts: seq<(string, T.NativeType)>)
    requires |vs| == |ts|
    requires forall i :: 0 <= i < |vs| ==> ts[i] == (vs[i].0, DecodedType(vs[i].1))
    ensures Collect(ts).Keys == Collect(vs).Keys
    ensures forall k :: k in Collect(vs) ==> Collect(ts)[k] == DecodedType(Collect(vs)[k])
  {
    if vs == [] {
    } else {
      CollectTypes(vs[..|vs| - 1], ts[..|ts| - 1]);
    }
  }

  lemma CollectedType(vs: seq<(string, Json)>, ts: seq<(string, T.NativeType)>)
    requires |vs| == |ts|
    requires forall i :: 0 <= i < |vs| ==> ts[i] == (vs[i].0, DecodedType(vs[i].1))
    ensures DecodedType(Json.Object(Collect(vs))) ==
            if Collect(ts) == map[] then T.Null else T.Object(Collect(ts))
  {
    CollectTypes(vs, ts);
    var fields := Collect(vs);
    assert Collect(ts) == map k | k in fields :: DecodedType(fields[k]);
    if fields == map[] {
      assert Collect(ts).Keys == {};
    } else {
      assert Collect(ts).Keys != {};
    }
  }

  /**
   `decode_json_value_parts`. The type returned next to the variant is a function
   of that variant alone, whatever duplicates and value-less entries the message had.
   */
  method DecodeParts(p: PbJson) returns (variant: Json, ty: T.NativeType)
    ensures variant == Decode(p)
    ensures ty == DecodedType(variant)
    decreases p
  {
    if p.value.None? {
      return Null, T.Null;
    }
    match p.value.value
    case Boolean(b) => variant, ty := Bool(b), T.Bool;
    case Int(i) => variant, ty := Number(NegInt(i)), T.Number(T.I64);
    case Uint(u) => variant, ty := Number(PosInt(u)), T.Number(T.U64);
    case Float(f) => variant, ty := Number(JsonNumber.Float(f)), T.Number(T.F64);
    case Str(s) => variant, ty := String(s), T.String;
    case Array(items) => variant, ty := DecodeArray(items);
    case Object(entries) => variant, ty := DecodeObject(entries);
    case Variant(bytes) => variant, ty := Json.Variant(bytes), T.Variant;
  }

  method DecodeArray(items: seq<PbJson>) returns (variant: Json, ty: T.NativeType)
    ensures variant == Decode(PbJson(Some(PbValue.Array(items))))
    ensures ty == DecodedType(variant)
    decreases items
  {
    var variants: seq<Json>, itemType := [], T.Null;
    ghost var types: seq<T.NativeType> := [];
    for i := 0 to |items|
      invariant |variants| == |types| == i
      invariant forall j :: 0 <= j < i ==> variants[j] == Decode(items[j]) && types[j] == DecodedType(variants[j])
      invariant itemType == T.Join(types)
    {
      var v, t := DecodeParts(items[i]);
      variants := variants + [v];
      assert (types + [t])[..i] == types;
      T.MergeBounds(t);
      types := types + [t];
      if !itemType.Variant? {
        itemType := T.Merge(itemType, t);
      }
    }
    variant, ty := Json.Array(variants), T.Array(itemType);
    assert types == seq(|variants|, i requires 0 <= i < |variants| => DecodedType(variants[i]));
  }

  method DecodeObject(entries: seq<Entry>) returns (variant: Json, ty: T.NativeType)
    ensures variant == Decode(PbJson(Some(PbValue.Object(entries))))
    ensures ty == DecodedType(variant)
    decreases entries
  {
    var variants: seq<(string, Json)>, fields: seq<(string, T.NativeType)> := [], [];
    for i := 0 to |entries|
      invariant variants == DecodedPairs(entries[..i])
      invariant |fields| == |variants|
      invariant forall j :: 0 <= j < |variants| ==> fields[j] == (variants[j].0, DecodedType(variants[j].1))
    {
      var entry := entries[i];
      DecodedPairsNext(entries, i);
      if entry.value.Some? {
        var v, t := DecodeParts(entry.value.value);
        variants := variants + [(entry.key, v)];
        fields := fields + [(entry.key, t)];
      }
    }
    assert entries[..|entries|] == entries;
    DecodeObjectIs(entries);
    variant := Json.Object(Collect(variants));
    var types := Collect(fields);
    CollectedType(variants, fields);
    ty := if types == map[] then T.Null else T.Object(types);
  }

  lemma DecodedPairsNext(entries: seq<Entry>, i: nat)
    requires i < |entries|
    ensures DecodedPairs(entries[..i + 1]) == DecodedPairs(entries[..i]) +
            (if entries[i].value.Some? then [(entries[i].key, Decode(entries[i].value.value))] else [])
  {
    assert entries[..i + 1][..i] == entries[..i];
  }

  // ---------- Round trip and normal form ----------

  lemma {:induction false} ValuedAll(entries: seq<Entry>)
    requires forall i :: 0 <= i < |entries| ==> entries[i].value.Some?
    ensures |Valued(entries)| == |entries|
    ensures forall i :: 0 <= i < |entries| ==> Valued(entries)[i] == (entries[i].key, entries[i].value.value)
  {
    if entries == [] {
    } else {
      var n := |entries| - 1;
      var init, last := entries[..n], entries[n];
      ValuedAll(init);
      var vs := Valued(init);
      assert Valued(entries) == vs + [(last.key, last.value.value)];
      forall i | 0 <= i < |entries| ensures Valued(entries)[i] == (entries[i].key, entries[i].value.value) {
        if i < n { assert vs[i] == (init[i].key, init[i].value.value); }
      }
    }
  }

  /** Decoding an encoded value gives the value back, nulls inside objects included. */
  lemma {:induction false} DecodeEncode(j: Json)
    ensures Decode(Encode(j)) == j
  {
    match j
    case Array(items) =>
      forall i | 0 <= i < |items| ensures Decode(Encode(items[i])) == items[i] {
        DecodeEncode(items[i]);
      }
    case Object(fields) =>
      forall k | k in fields ensures Decode(Encode(fields[k])) == fields[k] {
        DecodeEncode(fields[k]);
      }
      DecodeEncodeObject(fields);
    case _ =>
  }

  lemma DecodeEncodeObject(fields: map<string, Json>)
    requires forall k :: k in fields ==> Decode(Encode(fields[k])) == fields[k]
    ensures Decode(Encode(Json.Object(fields))) == Json.Object(fields)
  {
    var keys := Sorted(fields.Keys);
    var entries := Encode(Json.Object(fields)).value.value.entries;
    forall i | 0 <= i < |keys| ensures entries[i] == Entry(keys[i], Some(Encode(fields[keys[i]]))) {
    }
    PairsOfEncoded(fields, entries);
    DecodeObjectIs(entries);
  }

  lemma PairsOfEncoded(fields: map<string, Json>, entries: seq<Entry>)
    requires forall k :: k in fields ==> Decode(Encode(fields[k])) == fields[k]
    requires |entries| == |Sorted(fields.Keys)|
    requires forall i :: 0 <= i < |entries| ==>
      var k := Sorted(fields.Keys)[i];
      k in fields && entries[i] == Entry(k, Some(Encode(fields[k])))
    ensures Collect(DecodedPairs(entries)) == fields
  {
    ValuedAll(entries);
    assert DecodedPairs(entries) == Entries(fields);
    CollectEntries(fields);
  }

  /** No value-less entries, and the keys of every object strictly ascend. */
  predicate Normal(p: PbJson) {
    p.value.Some? ==>
      match p.value.value
      case Array(items) => forall i :: 0 <= i < |items| ==> Normal(items[i])
      case Object(entries) =>
        && (forall i, j :: 0 <= i < j < |entries| ==> Less(entries[i].key, entries[j].key))
        && forall i :: 0 <= i < |entries| ==> entries[i].value.Some? && Normal(entries[i].value.value)
      case _ => true
  }

  lemma {:induction false} EncodeIsNormal(j: Json)
    ensures Normal(Encode(j))
  {
    match j
    case Array(items) =>
      forall i | 0 <= i < |items| ensures Normal(Encode(items[i])) { EncodeIsNormal(items[i]); }
    case Object(fields) =>
      var keys := Sorted(fields.Keys);
      SortedIsAscending(fields.Keys);
      forall i | 0 <= i < |keys| ensures Normal(Encode(fields[keys[i]])) {
        EncodeIsNormal(fields[keys[i]]);
      }
    case _ =>
  }

  lemma {:induction false} NormalIsFixed(p: PbJson)
    requires Normal(p)
    ensures Encode(Decode(p)) == p
  {
    if p.value.Some? {
      match p.value.value
      case Array(items) =>
        forall i | 0 <= i < |items| ensures Encode(Decode(items[i])) == items[i] { NormalIsFixed(items[i]); }
        assert Encode(Decode(p)).value.value.items == items;
      case Object(entries) =>
        forall i | 0 <= i < |entries| ensures Encode(Decode(entries[i].value.value)) == entries[i].value.value {
          NormalIsFixed(entries[i].value.value);
        }
        NormalObjectIsFixed(entries);
      case _ =>
    }
  }

  lemma NormalObjectIsFixed(entries: seq<Entry>)
    requires forall i, j :: 0 <= i < j < |entries| ==> Less(entries[i].key, entries[j].key)
    requires forall i :: 0 <= i < |entries| ==> entries[i].value.Some?
    requires forall i :: 0 <= i < |entries| ==> Encode(Decode(entries[i].value.value)) == entries[i].value.value
    ensures Encode(Decode(PbJson(Some(PbValue.Object(entries))))) == PbJson(Some(PbValue.Object(entries)))
  {
    DecodeObjectIs(entries);
    AscendingKeys(entries);
    AscendingValues(entries);
    EncodedObject(Collect(DecodedPairs(entries)), entries);
  }

  lemma AscendingKeys(entries: seq<Entry>)
    requires forall i, j :: 0 <= i < j < |entries| ==> Less(entries[i].key, entries[j].key)
    requires forall i :: 0 <= i < |entries| ==> entries[i].value.Some?
    ensures Sorted(Collect(DecodedPairs(entries)).Keys) ==
            seq(|entries|, i requires 0 <= i < |entries| => entries[i].key)
  {
    ValuedAll(entries);
    var pairs := DecodedPairs(entries);
    CollectKeys(pairs);
    var fields := Collect(pairs);
    var keys := seq(|entries|, i requires 0 <= i < |entries| => entries[i].key);
    forall k ensures k in keys <==> k in fields.Keys {
      if k in keys {
        var i :| 0 <= i < |keys| && keys[i] == k;
        assert pairs[i].0 == k;
      }
      if k in fields {
        var i :| 0 <= i < |pairs| && pairs[i].0 == k;
        assert keys[i] == k;
      }
    }
    SortedUnique(keys, fields.Keys);
  }

  lemma AscendingValues(entries: seq<Entry>)
    requires forall i, j :: 0 <= i < j < |entries| ==> Less(entries[i].key, entries[j].key)
    requires forall i :: 0 <= i < |entries| ==> entries[i].value.Some?
    ensures forall i :: 0 <= i < |entries| ==>
      && entries[i].key in Collect(DecodedPairs(entries))
      && Collect(DecodedPairs(entries))[entries[i].key] == Decode(entries[i].value.value)
  {
    ValuedAll(entries);
    var pairs := DecodedPairs(entries);
    forall i | 0 <= i < |entries|
      ensures entries[i].key in Collect(pairs) && Collect(pairs)[entries[i].key] == Decode(entries[i].value.value)
    {
      CollectLast(pairs, i);
    }
  }

  lemma EncodedObject(fields: map<string, Json>, entries: seq<Entry>)
    requires |entries| == |Sorted(fields.Keys)|
    requires forall i :: 0 <= i < |entries| ==> entries[i].key in fields && entries[i].key == Sorted(fields.Keys)[i]
    requires forall i :: 0 <= i < |entries| ==> entries[i].value == Some(Encode(fields[entries[i].key]))
    ensures Encode(Json.Object(fields)) == PbJson(Some(PbValue.Object(entries)))
  {
    var keys := Sorted(fields.Keys);
    forall i | 0 <= i < |entries| ensures entries[i] == Entry(keys[i], Some(Encode(fields[keys[i]]))) {
    }
    assert Encode(Json.Object(fields)).value.value.entries == entries;
  }

  /**
   Encode-after-decode is an idempotent normaliser: its results are exactly the
   messages it leaves unchanged, and these are the messages in normal form.
   */
  lemma Normaliser(p: PbJson)
    ensures Normal(Encode(Decode(p)))
    ensures Encode(Decode(p)) == p <==> Normal(p)
    ensures Encode(Decode(Encode(Decode(p)))) == Encode(Decode(p))
    ensures Decode(Encode(Decode(p))) == Decode(p)
  {
    EncodeIsNormal(Decode(p));
    DecodeEncode(Decode(p));
    if Normal(p) { NormalIsFixed(p); }
  }

  /**
   What decoding an object keeps: the keys of the entries with a value, each with
   the value of the last such entry.
   */
  lemma DecodedObject(entries: seq<Entry>)
    ensures var j := Decode(PbJson(Some(PbValue.Object(entries))));
      && j.Object?
      && (forall k :: k in j.fields <==> exists v :: Entry(k, Some(v)) in entries)
      && (forall i :: 0 <= i < |entries| && entries[i].value.Some?
             && (forall j' :: i < j' < |entries| && entries[j'].value.Some? ==> entries[j'].key != entries[i].key)
             ==> entries[i].key in j.fields && j.fields[entries[i].key] == Decode(entries[i].value.value))
  {
    var j := Decode(PbJson(Some(PbValue.Object(entries))));
    DecodeObjectIs(entries);
    forall k ensures k in j.fields <==> exists v :: Entry(k, Some(v)) in entries {
      DecodedKey(entries, k);
    }
    forall i | 0 <= i < |entries| && entries[i].value.Some?
      && (forall j' :: i < j' < |entries| && entries[j'].value.Some? ==> entries[j'].key != entries[i].key)
      ensures entries[i].key in j.fields && j.fields[entries[i].key] == Decode(entries[i].value.value)
    {
      DecodedLast(entries, i);
    }
  }

  lemma DecodedKey(entries: seq<Entry>, k: string)
    ensures k in Collect(DecodedPairs(entries)) <==> exists v :: Entry(k, Some(v)) in entries
  {
    var vs, pairs := Valued(entries), DecodedPairs(entries);
    CollectKeys(pairs);
    if k in Collect(pairs) {
      var i :| 0 <= i < |pairs| && pairs[i].0 == k;
      assert vs[i] in vs;
      assert Entry(k, Some(vs[i].1)) in entries;
    }
    if v :| Entry(k, Some(v)) in entries {
      assert (k, v) in vs;
      var i :| 0 <= i < |vs| && vs[i] == (k, v);
      assert pairs[i].0 == k;
    }
  }

  lemma DecodedLast(entries: seq<Entry>, i: nat)
    requires i < |entries| && entries[i].value.Some?
    requires forall j :: i < j < |entries| && entries[j].value.Some? ==> entries[j].key != entries[i].key
    ensures var m := Collect(DecodedPairs(entries));
      entries[i].key in m && m[entries[i].key] == Decode(entries[i].value.value)
  {
    var vs := Valued(entries);
    var n := ValuedSplit(entries, i);
    forall m | n < m < |vs| ensures vs[m].0 != vs[n].0 {
      assert vs[m] == Valued(entries[i + 1..])[m - n - 1];
      assert vs[m] in Valued(entries[i + 1..]);
    }
    CollectLast(DecodedPairs(entries), n);
  }

  lemma {:induction false} ValuedConcat(xs: seq<Entry>, ys: seq<Entry>)
    ensures Valued(xs + ys) == Valued(xs) + Valued(ys)
  {
    if ys == [] {
      assert xs + ys == xs;
    } else {
      assert (xs + ys)[..|xs + ys| - 1] == xs + ys[..|ys| - 1];
      ValuedConcat(xs, ys[..|ys| - 1]);
    }
  }

  lemma ValuedSplit(entries: seq<Entry>, i: nat) returns (n: nat)
    requires i < |entries| && entries[i].value.Some?
    ensures n < |Valued(entries)| && Valued(entries)[n] == (entries[i].key, entries[i].value.value)
    ensures Valued(entries)[n + 1..] == Valued(entries[i + 1..])
  {
    assert entries == entries[..i + 1] + entries[i + 1..];
    ValuedConcat(entries[..i + 1], entries[i + 1..]);
    assert entries[..i + 1][..i] == entries[..i];
    n := |Valued(entries[..i])|;
    assert Valued(entries[..i + 1]) == Valued(entries[..i]) + [(entries[i].key, entries[i].value.value)];
  }
}

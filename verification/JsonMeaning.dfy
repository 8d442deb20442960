/**
 What types and messages say about JSON values, independently of how they are
 computed: the values a native type admits, and the value a message stands for.
 */
module JsonMeaning {
  import opened JsonCache
  import opened JsonWire
  import opened Option
  import T = JsonType

  // ---------- Types ----------

  /**
   The type admits the value. `Null` is admitted everywhere, and everything by
   `Variant`. An object without fields is admitted everywhere unless `strict`.
   */
  predicate Describes(strict: bool, ty: T.NativeType, j: Json)
    decreases j
  {
    || ty.Variant?
    || j.Null?
    || (!strict && IsEmptyObject(j))
    || match j
       case Bool(_) => ty.Bool?
       case Number(PosInt(_)) => ty == T.Number(T.U64)
       case Number(NegInt(_)) => ty == T.Number(T.I64)
       case Number(Float(_)) => ty == T.Number(T.F64)
       case String(_) => ty.String?
       case Array(items) => ty.Array? && forall i :: 0 <= i < |items| ==> Describes(strict, ty.item, items[i])
       case Object(fields) =>
         ty.Object? && forall k :: k in fields ==> k in ty.fields && Describes(strict, ty.fields[k], fields[k])
       case _ => false
  }

  /** The type that the inference gives to an object without fields. */
  function EmptyType(strict: bool): T.NativeType {
    if strict then NATIVE else DECODING
  }

  /** Merging a type with another only admits more. */
  lemma {:induction false} MergeDescribes(strict: bool, t: T.NativeType, u: T.NativeType, j: Json)
    requires Describes(strict, t, j)
    ensures Describes(strict, T.Merge(t, u), j) && Describes(strict, T.Merge(u, t), j)
    decreases j
  {
    T.MergeHead(t, u);
    T.MergeCommutes(t, u);
    if t.Array? && u.Array? && j.Array? {
      forall i | 0 <= i < |j.items| ensures Describes(strict, T.Merge(t.item, u.item), j.items[i]) {
        MergeDescribes(strict, t.item, u.item, j.items[i]);
      }
    } else if t.Object? && u.Object? && j.Object? && !(!strict && IsEmptyObject(j)) {
      forall k | k in j.fields && k in u.fields
        ensures Describes(strict, T.Merge(t.fields[k], u.fields[k]), j.fields[k])
      {
        MergeDescribes(strict, t.fields[k], u.fields[k], j.fields[k]);
      }
    }
  }

  /** The merged type of values at one position admits each of them. */
  lemma GroupDescribes(strict: bool, vs: seq<Json>, i: nat)
    requires i < |vs| && Describes(strict, Infer(EmptyType(strict), vs[i]), vs[i])
    ensures Describes(strict, GroupType(EmptyType(strict), vs), vs[i])
  {
    var empty := EmptyType(strict);
    GroupAbove(empty, vs, i);
    MergeDescribes(strict, Infer(empty, vs[i]), GroupType(empty, vs), vs[i]);
  }

  /** An inferred type admits the value it was inferred from. */
  lemma {:induction false} InferDescribes(strict: bool, j: Json)
    ensures Describes(strict, Infer(EmptyType(strict), j), j)
  {
    match j
    case Array(items) =>
      forall i | 0 <= i < |items| ensures Describes(strict, GroupType(EmptyType(strict), items), items[i]) {
        InferDescribes(strict, items[i]);
        GroupDescribes(strict, items, i);
      }
    case Object(fields) =>
      forall k | k in fields ensures Describes(strict, Infer(EmptyType(strict), fields[k]), fields[k]) {
        InferDescribes(strict, fields[k]);
      }
    case _ =>
  }

  lemma {:induction false} GroupBelow(empty: T.NativeType, vs: seq<Json>, u: T.NativeType)
    requires forall i :: 0 <= i < |vs| ==> T.Merge(Infer(empty, vs[i]), u) == u
    ensures T.Merge(GroupType(empty, vs), u) == u
  {
    if vs == [] {
      T.MergeBounds(u);
    } else {
      var init, last := vs[..|vs| - 1], vs[|vs| - 1];
      GroupBelow(empty, init, u);
      T.MergeAssociates(GroupType(empty, init), Infer(empty, last), u);
    }
  }

  /** An inferred type lies below every type that admits the value. */
  lemma {:induction false} InferIsLeast(strict: bool, u: T.NativeType, j: Json)
    requires Describes(strict, u, j)
    ensures T.Merge(Infer(EmptyType(strict), j), u) == u
    decreases j
  {
    var empty := EmptyType(strict);
    T.MergeHead(Infer(empty, j), u);
    if j.Array? && u.Array? {
      forall i | 0 <= i < |j.items| ensures T.Merge(Infer(empty, j.items[i]), u.item) == u.item {
        InferIsLeast(strict, u.item, j.items[i]);
      }
      GroupBelow(empty, j.items, u.item);
    } else if j.Object? && u.Object? && j.fields != map[] {
      forall k | k in j.fields ensures T.Merge(Infer(empty, j.fields[k]), u.fields[k]) == u.fields[k] {
        InferIsLeast(strict, u.fields[k], j.fields[k]);
      }
      assert T.MergeFields(Infer(empty, j).fields, u.fields) == u.fields;
    }
  }

  /** The types that admit a value are exactly those at or above its inferred type. */
  lemma InferredIsExact(strict: bool, u: T.NativeType, j: Json)
    ensures Describes(strict, u, j) <==> T.Merge(Infer(EmptyType(strict), j), u) == u
  {
    if Describes(strict, u, j) {
      InferIsLeast(strict, u, j);
    } else {
      InferDescribes(strict, j);
      if T.Merge(Infer(EmptyType(strict), j), u) == u {
        MergeDescribes(strict, Infer(EmptyType(strict), j), u, j);
        assert false;
      }
    }
  }

  /**
   The type found while decoding admits the value, and is the least that does, where
   an object without fields says nothing about its position.
   */
  lemma DecodedTypeDescribes(j: Json, u: T.NativeType)
    ensures Describes(false, DecodedType(j), j)
    ensures Describes(false, u, j) <==> T.Merge(DecodedType(j), u) == u
  {
    DecodedTypeIsInferred(j);
    InferDescribes(false, j);
    InferredIsExact(false, u, j);
  }

  /** The type a value computes admits it, and is the least that does, where an object is always an object. */
  lemma NativeTypeDescribes(j: Json, u: T.NativeType)
    ensures Describes(true, NativeTypeOf(j), j)
    ensures Describes(true, u, j) <==> T.Merge(NativeTypeOf(j), u) == u
  {
    NativeTypeIsInferred(j);
    InferDescribes(true, j);
    InferredIsExact(true, u, j);
  }

  // ---------- Messages ----------

  /** The entry carries a value, and no later entry carries one under the same key. */
  predicate Counts(entries: seq<Entry>, i: nat)
    requires i < |entries|
  {
    && entries[i].value.Some?
    && forall j :: i < j < |entries| && entries[j].value.Some? ==> entries[j].key != entries[i].key
  }

  /** The message stands for the value. */
  ghost predicate Means(p: PbJson, j: Json)
    decreases p
  {
    if p.value.None? then j.Null?
    else
      match p.value.value
      case Boolean(b) => j == Bool(b)
      case Int(i) => j == Number(NegInt(i))
      case Uint(u) => j == Number(PosInt(u))
      case Float(f) => j == Number(JsonNumber.Float(f))
      case Str(s) => j == Json.String(s)
      case Array(items) =>
        j.Array? && |j.items| == |items| && forall i :: 0 <= i < |items| ==> Means(items[i], j.items[i])
      case Object(entries) =>
        && j.Object?
        && (forall k :: k in j.fields <==> exists v :: Entry(k, Some(v)) in entries)
        && (forall i :: 0 <= i < |entries| && Counts(entries, i) ==>
              entries[i].key in j.fields && Means(entries[i].value.value, j.fields[entries[i].key]))
      case Variant(bytes) => j == Json.Variant(bytes)
  }

  lemma {:induction false} DecodeMeans(p: PbJson)
    ensures Means(p, Decode(p))
    decreases p
  {
    if p.value.Some? {
      match p.value.value
      case Array(items) =>
        forall i | 0 <= i < |items| ensures Means(items[i], Decode(items[i])) { DecodeMeans(items[i]); }
      case Object(entries) =>
        DecodedObject(entries);
        forall i | 0 <= i < |entries| && Counts(entries, i)
          ensures entries[i].key in Decode(p).fields
          ensures Means(entries[i].value.value, Decode(p).fields[entries[i].key])
        {
          DecodeMeans(entries[i].value.value);
        }
      case _ =>
    }
  }

  /** Encoding a value gives a message that stands for it. */
  lemma EncodeMeans(j: Json)
    ensures Means(Encode(j), j)
  {
    DecodeEncode(j);
    DecodeMeans(Encode(j));
  }
}

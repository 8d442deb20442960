/**
 A decoded JSON value caches the type inferred while decoding, and the cached
 type is meant to describe the value exactly, that is, to be the type the value
 would compute for itself. The two inferences differ on objects without fields.
 This module says exactly when the difference shows.
 */
module JsonCache {
  import opened JsonWire
  import opened Option
  import T = JsonType

  /** `JsonVariantRef::native_type`: the type a value computes when none is cached. */
  function NativeTypeOf(j: Json): T.NativeType {
    match j
    case Null => T.Null
    case Bool(_) => T.Bool
    case Number(n) => NumberType(n)
    case String(_) => T.String
    case Array(items) =>
      T.Array(T.Join(seq(|items|, i requires 0 <= i < |items| => NativeTypeOf(items[i]))))
    case Object(fields) => T.Object(map k | k in fields :: NativeTypeOf(fields[k]))
    case Variant(_) => T.Variant
  }

  predicate IsEmptyObject(j: Json) {
    j.Object? && j.fields == map[]
  }

  /** Values that say nothing about the type of their position, as far as decoding is concerned. */
  predicate Silent(j: Json) {
    j.Null? || IsEmptyObject(j)
  }

  predicate SameKind(a: Json, b: Json) {
    match a
    case Bool(_) => b.Bool?
    case Number(n) => b.Number? && NumberType(n) == NumberType(b.n)
    case String(_) => b.String?
    case Array(_) => b.Array?
    case Object(_) => b.Object?
    case _ => false
  }

  /** The values at one position already disagree, so that the position is lifted to `Variant`. */
  predicate Conflict(vs: seq<Json>) {
    || (exists i :: 0 <= i < |vs| && vs[i].Variant?)
    || exists i, j :: 0 <= i < |vs| && 0 <= j < |vs| && !Silent(vs[i]) && !Silent(vs[j]) && !SameKind(vs[i], vs[j])
  }

  predicate HasFields(vs: seq<Json>) {
    exists i :: 0 <= i < |vs| && vs[i].Object? && vs[i].fields != map[]
  }

  predicate HasEmptyObject(vs: seq<Json>) {
    exists i :: 0 <= i < |vs| && IsEmptyObject(vs[i])
  }

  predicate HasArray(vs: seq<Json>) {
    exists i :: 0 <= i < |vs| && vs[i].Array?
  }

  /** The items of all arrays among the values. */
  function Flatten(vs: seq<Json>): seq<Json> {
    if vs == [] then []
    else
      Flatten(vs[..|vs| - 1]) + (if vs[|vs| - 1].Array? then vs[|vs| - 1].items else [])
  }

  /** The values that the objects among the values hold under a key. */
  function At(vs: seq<Json>, k: string): seq<Json> {
    if vs == [] then []
    else
      var last := vs[|vs| - 1];
      At(vs[..|vs| - 1], k) + (if last.Object? && k in last.fields then [last.fields[k]] else [])
  }

  function Keys(vs: seq<Json>): set<string> {
    if vs == [] then {}
    else Keys(vs[..|vs| - 1]) + (if vs[|vs| - 1].Object? then vs[|vs| - 1].fields.Keys else {})
  }

  /**
   Whether the two inferences agree on values that share a position. An object
   without fields is harmless only where its position is in conflict anyway, or
   where another object at the position has fields.
   */
  ghost predicate Agrees(vs: seq<Json>)
    decreases DepthAll(vs)
  {
    if Conflict(vs) then true
    else if HasFields(vs) then
      forall k :: k in Keys(vs) ==> (AtIsShallower(vs, k); Agrees(At(vs, k)))
    else if HasEmptyObject(vs) then false
    else if HasArray(vs) then (FlattenIsShallower(vs); Agrees(Flatten(vs)))
    else true
  }

  // ---------- Depth ----------

  ghost function Max(s: set<nat>): (r: nat)
    ensures forall x :: x in s ==> x <= r
    ensures s != {} ==> r in s
  {
    if s == {} then 0
    else
      var x :| x in s;
      var rest := Max(s - {x});
      assert forall y :: y in s ==> y == x || y in s - {x};
      if x < rest && s - {x} != {} then rest else x
  }

  ghost function Depth(j: Json): (r: nat)
    ensures j.Array? ==> forall i :: 0 <= i < |j.items| ==> Depth(j.items[i]) < r
    ensures j.Object? ==> forall k :: k in j.fields ==> Depth(j.fields[k]) < r
  {
    match j
    case Array(items) =>
      var s := set i | 0 <= i < |items| :: Depth(items[i]);
      assert forall i :: 0 <= i < |items| ==> Depth(items[i]) in s;
      1 + Max(s)
    case Object(fields) =>
      var s := set k | k in fields :: Depth(fields[k]);
      assert forall k :: k in fields ==> Depth(fields[k]) in s;
      1 + Max(s)
    case _ => 0
  }

  ghost function DepthAll(vs: seq<Json>): (r: nat)
    ensures forall i :: 0 <= i < |vs| ==> Depth(vs[i]) <= r
    ensures vs == [] ==> r == 0
    ensures vs != [] ==> exists i :: 0 <= i < |vs| && Depth(vs[i]) == r
  {
    var s := set i | 0 <= i < |vs| :: Depth(vs[i]);
    assert forall i :: 0 <= i < |vs| ==> Depth(vs[i]) in s;
    assert vs != [] ==> Depth(vs[0]) in s;
    Max(s)
  }

  lemma DepthAllBounds(vs: seq<Json>, d: nat)
    requires forall j :: j in vs ==> Depth(j) <= d
    ensures DepthAll(vs) <= d
  {
    if vs != [] {
      var i :| 0 <= i < |vs| && Depth(vs[i]) == DepthAll(vs);
      assert vs[i] in vs;
    }
  }

  lemma {:induction false} FlattenFrom(vs: seq<Json>, j: Json)
    requires j in Flatten(vs)
    ensures exists a :: a in vs && a.Array? && j in a.items
  {
    var init, last := vs[..|vs| - 1], vs[|vs| - 1];
    assert last in vs;
    if j in Flatten(init) {
      FlattenFrom(init, j);
      var a :| a in init && a.Array? && j in a.items;
      assert a in vs;
    }
  }

  lemma {:induction false} AtFrom(vs: seq<Json>, k: string, j: Json)
    requires j in At(vs, k)
    ensures exists o :: o in vs && o.Object? && k in o.fields && o.fields[k] == j
  {
    var init, last := vs[..|vs| - 1], vs[|vs| - 1];
    assert last in vs;
    if j in At(init, k) {
      AtFrom(init, k, j);
      var o :| o in init && o.Object? && k in o.fields && o.fields[k] == j;
      assert o in vs;
    }
  }

  lemma FlattenIsShallower(vs: seq<Json>)
    requires HasArray(vs)
    ensures DepthAll(Flatten(vs)) < DepthAll(vs)
  {
    var i :| 0 <= i < |vs| && vs[i].Array?;
    assert Depth(vs[i]) > 0;
    forall j | j in Flatten(vs) ensures Depth(j) <= DepthAll(vs) - 1 {
      FlattenFrom(vs, j);
      var a :| a in vs && a.Array? && j in a.items;
      assert Depth(j) < Depth(a) <= DepthAll(vs);
    }
    DepthAllBounds(Flatten(vs), DepthAll(vs) - 1);
  }

  lemma AtIsShallower(vs: seq<Json>, k: string)
    requires HasFields(vs)
    ensures DepthAll(At(vs, k)) < DepthAll(vs)
  {
    var i :| 0 <= i < |vs| && vs[i].Object? && vs[i].fields != map[];
    assert Depth(vs[i]) > 0;
    forall j | j in At(vs, k) ensures Depth(j) <= DepthAll(vs) - 1 {
      AtFrom(vs, k, j);
      var o :| o in vs && o.Object? && k in o.fields && o.fields[k] == j;
      assert Depth(j) < Depth(o) <= DepthAll(vs);
    }
    DepthAllBounds(At(vs, k), DepthAll(vs) - 1);
  }

  // ---------- Inference over the values at one position ----------

  /** Both inferences at once: `empty` is the type they give to an object without fields. */
  function Infer(empty: T.NativeType, j: Json): T.NativeType
    decreases j, 0
  {
    match j
    case Null => T.Null
    case Bool(_) => T.Bool
    case Number(n) => NumberType(n)
    case String(_) => T.String
    case Array(items) => T.Array(GroupType(empty, items))
    case Object(fields) =>
      if fields == map[] then empty else T.Object(map k | k in fields :: Infer(empty, fields[k]))
    case Variant(_) => T.Variant
  }

  /** The merged type of the values at one position. */
  function GroupType(empty: T.NativeType, vs: seq<Json>): T.NativeType
    decreases vs, 1
  {
    if vs == [] then T.Null
    else T.Merge(GroupType(empty, vs[..|vs| - 1]), Infer(empty, vs[|vs| - 1]))
  }

  const DECODING := T.Null
  const NATIVE := T.Object(map[])

  lemma {:induction false} GroupIsJoin(empty: T.NativeType, vs: seq<Json>, ts: seq<T.NativeType>)
    requires |ts| == |vs|
    requires forall i :: 0 <= i < |vs| ==> ts[i] == Infer(empty, vs[i])
    ensures GroupType(empty, vs) == T.Join(ts)
  {
    if vs == [] {
    } else {
      GroupIsJoin(empty, vs[..|vs| - 1], ts[..|ts| - 1]);
    }
  }

  lemma {:induction false} DecodedTypeIsInferred(j: Json)
    ensures DecodedType(j) == Infer(DECODING, j)
  {
    match j
    case Array(items) =>
      forall i | 0 <= i < |items| ensures DecodedType(items[i]) == Infer(DECODING, items[i]) {
        DecodedTypeIsInferred(items[i]);
      }
      GroupIsJoin(DECODING, items, seq(|items|, i requires 0 <= i < |items| => DecodedType(items[i])));
    case Object(fields) =>
      forall k | k in fields ensures DecodedType(fields[k]) == Infer(DECODING, fields[k]) {
        DecodedTypeIsInferred(fields[k]);
      }
    case _ =>
  }

  lemma {:induction false} NativeTypeIsInferred(j: Json)
    ensures NativeTypeOf(j) == Infer(NATIVE, j)
  {
    match j
    case Array(items) =>
      forall i | 0 <= i < |items| ensures NativeTypeOf(items[i]) == Infer(NATIVE, items[i]) {
        NativeTypeIsInferred(items[i]);
      }
      GroupIsJoin(NATIVE, items, seq(|items|, i requires 0 <= i < |items| => NativeTypeOf(items[i])));
    case Object(fields) =>
      forall k | k in fields ensures NativeTypeOf(fields[k]) == Infer(NATIVE, fields[k]) {
        NativeTypeIsInferred(fields[k]);
      }
      assert NativeTypeOf(j).fields == map k | k in fields :: Infer(NATIVE, fields[k]);
    case _ =>
  }

  lemma {:induction false} GroupConcat(empty: T.NativeType, xs: seq<Json>, ys: seq<Json>)
    ensures GroupType(empty, xs + ys) == T.Merge(GroupType(empty, xs), GroupType(empty, ys))
  {
    if ys == [] {
      assert xs + ys == xs;
      T.MergeBounds(GroupType(empty, xs));
    } else {
      var init, last := ys[..|ys| - 1], ys[|ys| - 1];
      assert (xs + ys)[..|xs + ys| - 1] == xs + init;
      GroupConcat(empty, xs, init);
      T.MergeAssociates(GroupType(empty, xs), GroupType(empty, init), Infer(empty, last));
    }
  }

  lemma GroupSingle(empty: T.NativeType, j: Json)
    ensures GroupType(empty, [j]) == Infer(empty, j)
  {
    assert [j][..0] == [];
    T.MergeBounds(Infer(empty, j));
  }

  /** The merged type is an upper bound of the type of each value. */
  lemma {:induction false} GroupAbove(empty: T.NativeType, vs: seq<Json>, i: nat)
    requires i < |vs|
    ensures T.Merge(GroupType(empty, vs), Infer(empty, vs[i])) == GroupType(empty, vs)
  {
    var init, last := vs[..|vs| - 1], vs[|vs| - 1];
    var g, t := GroupType(empty, init), Infer(empty, last);
    if i == |vs| - 1 {
      T.MergeAssociates(g, t, t);
      T.MergeBounds(t);
    } else {
      GroupAbove(empty, init, i);
      var u := Infer(empty, vs[i]);
      T.MergeAssociates(g, t, u);
      T.MergeCommutes(t, u);
      T.MergeAssociates(g, u, t);
    }
  }

  lemma ConflictIsVariant(empty: T.NativeType, vs: seq<Json>)
    requires Conflict(vs)
    ensures GroupType(empty, vs) == T.Variant
  {
    var t := GroupType(empty, vs);
    if i :| 0 <= i < |vs| && vs[i].Variant? {
      GroupAbove(empty, vs, i);
      T.MergeBounds(t);
    } else {
      var i, j :| 0 <= i < |vs| && 0 <= j < |vs| && !Silent(vs[i]) && !Silent(vs[j]) && !SameKind(vs[i], vs[j]);
      GroupAbove(empty, vs, i);
      GroupAbove(empty, vs, j);
      KindsConflict(empty, vs[i], vs[j], t);
    }
  }

  lemma KindsConflict(empty: T.NativeType, a: Json, b: Json, t: T.NativeType)
    requires !Silent(a) && !Silent(b) && !SameKind(a, b) && !a.Variant? && !b.Variant?
    requires T.Merge(t, Infer(empty, a)) == t && T.Merge(t, Infer(empty, b)) == t
    ensures t == T.Variant
  {
    KindsDiffer(empty, a, b);
    OnlyVariantAbove(Infer(empty, a), Infer(empty, b), t);
  }

  lemma KindsDiffer(empty: T.NativeType, a: Json, b: Json)
    requires !Silent(a) && !Silent(b) && !SameKind(a, b) && !a.Variant? && !b.Variant?
    ensures var x, y := Infer(empty, a), Infer(empty, b);
      !x.Null? && !y.Null? && x != y && !(x.Array? && y.Array?) && !(x.Object? && y.Object?)
  {
  }

  lemma OnlyVariantAbove(a: T.NativeType, b: T.NativeType, t: T.NativeType)
    requires !a.Null? && !b.Null? && a != b && !(a.Array? && b.Array?) && !(a.Object? && b.Object?)
    requires T.Merge(t, a) == t && T.Merge(t, b) == t
    ensures t == T.Variant
  {
    T.MergeHead(t, a);
    T.MergeHead(t, b);
  }

  /** Arrays at one position merge to the array of their merged items. */
  lemma {:induction false} ArraysGroup(empty: T.NativeType, vs: seq<Json>)
    requires forall i :: 0 <= i < |vs| ==> vs[i].Array? || Infer(empty, vs[i]) == T.Null
    ensures GroupType(empty, vs) == if HasArray(vs) then T.Array(GroupType(empty, Flatten(vs))) else T.Null
  {
    if vs == [] {
    } else {
      var init, last := vs[..|vs| - 1], vs[|vs| - 1];
      ArraysGroup(empty, init);
      assert HasArray(init) ==> HasArray(vs);
      if last.Array? {
        T.MergeHead(GroupType(empty, init), Infer(empty, last));
        if HasArray(init) {
          GroupConcat(empty, Flatten(init), last.items);
        } else {
          NoArraysFlatten(init);
          assert Flatten(vs) == last.items;
        }
      } else {
        T.MergeBounds(GroupType(empty, init));
        assert Flatten(vs) == Flatten(init);
        assert HasArray(vs) ==> HasArray(init);
      }
    }
  }

  lemma {:induction false} NoArraysFlatten(vs: seq<Json>)
    requires forall i :: 0 <= i < |vs| ==> !vs[i].Array?
    ensures Flatten(vs) == []
  {
    if vs == [] {
    } else {
      NoArraysFlatten(vs[..|vs| - 1]);
    }
  }

  predicate HasField(t: T.NativeType, k: string) {
    t.Object? && k in t.fields
  }

  function Field(t: T.NativeType, k: string): T.NativeType {
    if HasField(t, k) then t.fields[k] else T.Null
  }

  lemma FieldOfMerge(a: T.NativeType, b: T.NativeType, k: string)
    requires (a.Null? || a.Object?) && (b.Null? || b.Object?)
    ensures T.Merge(a, b).Null? || T.Merge(a, b).Object?
    ensures HasField(T.Merge(a, b), k) <==> HasField(a, k) || HasField(b, k)
    ensures Field(T.Merge(a, b), k) == T.Merge(Field(a, k), Field(b, k))
  {
    T.MergeBounds(Field(a, k));
    T.MergeBounds(Field(b, k));
    if a.Null? {
      T.MergeBounds(b);
    } else if b.Null? {
      T.MergeBounds(a);
    } else {
      T.MergeHead(a, b);
      var m := T.MergeFields(a.fields, b.fields);
      assert k in m <==> k in a.fields || k in b.fields;
    }
  }

  lemma FieldOfInferred(empty: T.NativeType, j: Json, k: string)
    requires empty in {DECODING, NATIVE} && (j.Object? || j.Null?)
    ensures Infer(empty, j).Null? || Infer(empty, j).Object?
    ensures HasField(Infer(empty, j), k) <==> j.Object? && k in j.fields
    ensures HasField(Infer(empty, j), k) ==> Field(Infer(empty, j), k) == Infer(empty, j.fields[k])
  {
  }

  /** Objects at one position merge field by field. */
  lemma {:induction false} ObjectsGroup(empty: T.NativeType, vs: seq<Json>, k: string)
    requires empty in {DECODING, NATIVE}
    requires forall i :: 0 <= i < |vs| ==> vs[i].Object? || vs[i].Null?
    ensures GroupType(empty, vs).Null? || GroupType(empty, vs).Object?
    ensures k in Keys(vs) <==> HasField(GroupType(empty, vs), k)
    ensures Field(GroupType(empty, vs), k) == GroupType(empty, At(vs, k))
  {
    if vs == [] {
    } else {
      var init, last := vs[..|vs| - 1], vs[|vs| - 1];
      ObjectsGroup(empty, init, k);
      FieldOfInferred(empty, last, k);
      FieldOfMerge(GroupType(empty, init), Infer(empty, last), k);
      if last.Object? && k in last.fields {
        GroupSingle(empty, last.fields[k]);
        GroupConcat(empty, At(init, k), [last.fields[k]]);
      } else {
        T.MergeBounds(GroupType(empty, At(init, k)));
        assert At(vs, k) == At(init, k);
      }
    }
  }

  lemma {:induction false} FieldsHaveKeys(vs: seq<Json>)
    requires HasFields(vs)
    ensures Keys(vs) != {}
  {
    var init, last := vs[..|vs| - 1], vs[|vs| - 1];
    if last.Object? && last.fields != map[] {
      assert last.fields.Keys != {};
    } else {
      assert HasFields(init);
      FieldsHaveKeys(init);
    }
  }

  lemma {:induction false} UniformGroup(empty: T.NativeType, vs: seq<Json>, t: T.NativeType)
    requires forall i :: 0 <= i < |vs| ==> Infer(empty, vs[i]) in {T.Null, t}
    ensures GroupType(empty, vs) in {T.Null, t}
  {
    if vs == [] {
    } else {
      UniformGroup(empty, vs[..|vs| - 1], t);
      T.MergeBounds(t);
      T.MergeBounds(T.Null);
    }
  }

  // ---------- The exact condition ----------

  /** The two inferences merge the values of a position to the same type exactly when `Agrees` says so. */
  lemma {:induction false} GroupsAgree(vs: seq<Json>)
    ensures GroupType(DECODING, vs) == GroupType(NATIVE, vs) <==> Agrees(vs)
    decreases DepthAll(vs)
  {
    if Conflict(vs) {
      ConflictIsVariant(DECODING, vs);
      ConflictIsVariant(NATIVE, vs);
    } else if HasFields(vs) {
      forall k | k in Keys(vs) ensures FieldAgrees(vs, k) <==> Agrees(At(vs, k)) {
        AtIsShallower(vs, k);
        GroupsAgree(At(vs, k));
      }
      ObjectsAgree(vs);
    } else if HasEmptyObject(vs) {
      EmptyObjectShows(vs);
    } else if HasArray(vs) {
      FlattenIsShallower(vs);
      GroupsAgree(Flatten(vs));
      OnlyArrays(vs);
      ArraysGroup(DECODING, vs);
      ArraysGroup(NATIVE, vs);
    } else {
      ScalarsAgree(vs);
    }
  }

  ghost predicate FieldAgrees(vs: seq<Json>, k: string) {
    GroupType(DECODING, At(vs, k)) == GroupType(NATIVE, At(vs, k))
  }

  lemma ObjectsAgree(vs: seq<Json>)
    requires !Conflict(vs) && HasFields(vs)
    ensures GroupType(DECODING, vs) == GroupType(NATIVE, vs) <==> forall k :: k in Keys(vs) ==> FieldAgrees(vs, k)
  {
    OnlyObjects(vs);
    FieldsHaveKeys(vs);
    var d, n := GroupType(DECODING, vs), GroupType(NATIVE, vs);
    var k0 :| k0 in Keys(vs);
    ObjectsGroup(DECODING, vs, k0);
    ObjectsGroup(NATIVE, vs, k0);
    forall k
      ensures k in Keys(vs) <==> k in d.fields
      ensures k in Keys(vs) <==> k in n.fields
      ensures k in Keys(vs) ==> (d.fields[k] == n.fields[k] <==> FieldAgrees(vs, k))
    {
      ObjectsGroup(DECODING, vs, k);
      ObjectsGroup(NATIVE, vs, k);
    }
    SameFields(d.fields, n.fields);
  }

  lemma SameFields(x: map<string, T.NativeType>, y: map<string, T.NativeType>)
    requires forall k :: k in x <==> k in y
    ensures T.Object(x) == T.Object(y) <==> forall k :: k in x ==> x[k] == y[k]
  {
    if forall k :: k in x ==> x[k] == y[k] { assert x == y; }
  }

  lemma {:induction false} ScalarsAgree(vs: seq<Json>)
    requires forall i :: 0 <= i < |vs| ==> !vs[i].Object? && !vs[i].Array?
    ensures GroupType(DECODING, vs) == GroupType(NATIVE, vs)
  {
    if vs == [] {
    } else {
      ScalarsAgree(vs[..|vs| - 1]);
    }
  }

  lemma OnlyObjects(vs: seq<Json>)
    requires !Conflict(vs) && HasFields(vs)
    ensures forall i :: 0 <= i < |vs| ==> vs[i].Object? || vs[i].Null?
  {
    var j :| 0 <= j < |vs| && vs[j].Object? && vs[j].fields != map[];
    forall i | 0 <= i < |vs| ensures vs[i].Object? || vs[i].Null? {
      assert !Silent(vs[j]);
      assert Silent(vs[i]) || SameKind(vs[i], vs[j]);
    }
  }

  lemma OnlyArrays(vs: seq<Json>)
    requires !Conflict(vs) && HasArray(vs) && !HasEmptyObject(vs)
    ensures forall i :: 0 <= i < |vs| ==> vs[i].Array? || vs[i].Null?
  {
    var j :| 0 <= j < |vs| && vs[j].Array?;
    forall i | 0 <= i < |vs| ensures vs[i].Array? || vs[i].Null? {
      assert !Silent(vs[j]);
      assert Silent(vs[i]) || SameKind(vs[i], vs[j]);
    }
  }

  lemma EmptyObjectShows(vs: seq<Json>)
    requires !Conflict(vs) && !HasFields(vs) && HasEmptyObject(vs)
    ensures GroupType(DECODING, vs) != GroupType(NATIVE, vs)
  {
    EmptyObjectIsSilent(vs);
    var e :| 0 <= e < |vs| && IsEmptyObject(vs[e]);
    GroupAbove(NATIVE, vs, e);
    T.MergeHead(GroupType(NATIVE, vs), NATIVE);
  }

  /** Decoding gives a position without conflict and without fields neither an object nor the variant type. */
  lemma EmptyObjectIsSilent(vs: seq<Json>)
    requires !Conflict(vs) && !HasFields(vs)
    ensures !GroupType(DECODING, vs).Object? && !GroupType(DECODING, vs).Variant?
  {
    if j :| 0 <= j < |vs| && !Silent(vs[j]) {
      forall i | 0 <= i < |vs|
        ensures Silent(vs[i]) || SameKind(vs[i], vs[j])
        ensures vs[j].Array? ==> vs[i].Array? || Infer(DECODING, vs[i]) == T.Null
        ensures !vs[j].Array? ==> Infer(DECODING, vs[i]) in {T.Null, Infer(DECODING, vs[j])}
      {
      }
      if vs[j].Array? {
        ArraysGroup(DECODING, vs);
      } else {
        UniformGroup(DECODING, vs, Infer(DECODING, vs[j]));
      }
    } else {
      UniformGroup(DECODING, vs, T.Null);
    }
  }

  /**
   The type cached by decoding is the type the value computes for itself exactly
   when the value, taken alone at its position, meets `Agrees`.
   */
  lemma CachedTypeIsExact(j: Json)
    ensures DecodedType(j) == NativeTypeOf(j) <==> Agrees([j])
  {
    GroupsAgree([j]);
    GroupSingle(DECODING, j);
    GroupSingle(NATIVE, j);
    DecodedTypeIsInferred(j);
    NativeTypeIsInferred(j);
  }

  /** The failing inputs exist: the message of an object without entries is one. */
  lemma CachedTypeCanDiffer()
    ensures var j := Decode(PbJson(Some(PbValue.Object([]))));
      DecodedType(j) == T.Null && NativeTypeOf(j) == T.Object(map[]) && !Agrees([j])
  {
    var j := Decode(PbJson(Some(PbValue.Object([]))));
    DecodeObjectIs([]);
    assert j == Json.Object(map[]);
    CachedTypeIsExact(j);
  }
}

/**
 The native type lattice of JSON values: `JsonNativeType` and its `merge`, and
 the inference of the item type of an array as a fold of `merge`.
 */
module JsonType {
  datatype NumberType = U64 | I64 | F64

  datatype NativeType =
    | Null
    | Bool
    | Number(number: NumberType)
    | String
    | Array(item: NativeType)
    | Object(fields: map<string, NativeType>)
    | Variant

  /** Merges `b` into `a`; conflicting types are lifted to `Variant`. */
  function Merge(a: NativeType, b: NativeType): NativeType {
    if a == b then a
    else
      match (a, b)
      case (Object(x), Object(y)) =>
        Object(map k | k in x.Keys + y.Keys ::
                 if k in x && k in y then Merge(x[k], y[k]) else if k in x then x[k] else y[k])
      case (Array(x), Array(y)) => Array(Merge(x, y))
      case (Null, _) => b
      case (_, Null) => a
      case _ => Variant
  }

  function MergeFields(x: map<string, NativeType>, y: map<string, NativeType>): map<string, NativeType> {
    map k | k in x.Keys + y.Keys ::
      if k in x && k in y then Merge(x[k], y[k]) else if k in x then x[k] else y[k]
  }

  /** What `merge` computes, without its early return on equal types. */
  lemma MergeHead(a: NativeType, b: NativeType)
    ensures Merge(a, b) ==
            if a.Null? then b
            else if b.Null? then a
            else if a.Array? && b.Array? then Array(Merge(a.item, b.item))
            else if a.Object? && b.Object? then Object(MergeFields(a.fields, b.fields))
            else if a == b then a
            else Variant
  {
    if a.Object? && b.Object? {
      if a == b {
        assert MergeFields(a.fields, b.fields) == a.fields;
      } else {
        assert Merge(a, b).fields == MergeFields(a.fields, b.fields);
      }
    }
  }

  lemma {:induction false} MergeCommutes(a: NativeType, b: NativeType)
    ensures Merge(a, b) == Merge(b, a)
  {
    MergeHead(a, b);
    MergeHead(b, a);
    if a.Array? && b.Array? {
      MergeCommutes(a.item, b.item);
    } else if a.Object? && b.Object? {
      var x, y := a.fields, b.fields;
      forall k | k in x && k in y ensures Merge(x[k], y[k]) == Merge(y[k], x[k]) {
        MergeCommutes(x[k], y[k]);
      }
      assert MergeFields(x, y) == MergeFields(y, x);
    }
  }

  lemma {:induction false} MergeAssociates(a: NativeType, b: NativeType, c: NativeType)
    ensures Merge(Merge(a, b), c) == Merge(a, Merge(b, c))
    decreases a, 1
  {
    MergeBounds(a);
    MergeBounds(b);
    MergeBounds(c);
    MergeBounds(Merge(a, b));
    MergeBounds(Merge(b, c));
    if a.Object? && b.Object? && c.Object? {
      FieldsAssociate(a.fields, b.fields, c.fields, a);
      MergeHead(a, b);
      MergeHead(b, c);
      MergeHead(Merge(a, b), c);
      MergeHead(a, Merge(b, c));
    } else if a.Array? && b.Array? && c.Array? {
      MergeAssociates(a.item, b.item, c.item);
      MergeHead(a, b);
      MergeHead(b, c);
      MergeHead(Merge(a, b), c);
      MergeHead(a, Merge(b, c));
    }
  }

  lemma {:induction false} FieldsAssociate(
    x: map<string, NativeType>, y: map<string, NativeType>, z: map<string, NativeType>, a: NativeType)
    requires a == Object(x)
    ensures MergeFields(MergeFields(x, y), z) == MergeFields(x, MergeFields(y, z))
    decreases a, 0
  {
    forall k | k in x && k in y && k in z
      ensures Merge(Merge(x[k], y[k]), z[k]) == Merge(x[k], Merge(y[k], z[k]))
    {
      MergeAssociates(x[k], y[k], z[k]);
    }
  }

  /** `Variant` absorbs, `Null` is neutral, and merging a type with itself changes nothing. */
  lemma MergeBounds(a: NativeType)
    ensures Merge(Variant, a) == Variant && Merge(a, Variant) == Variant
    ensures Merge(Null, a) == a && Merge(a, Null) == a
    ensures Merge(a, a) == a
  {
  }

  /** The full left fold of `merge` over the item types, starting from `Null`. */
  function Join(ts: seq<NativeType>): NativeType {
    if ts == [] then Null else Merge(Join(ts[..|ts| - 1]), ts[|ts| - 1])
  }

  lemma {:induction false} JoinConcat(xs: seq<NativeType>, ys: seq<NativeType>)
    ensures Join(xs + ys) == Merge(Join(xs), Join(ys))
  {
    if ys == [] {
      assert xs + ys == xs;
    } else {
      var init, last := ys[..|ys| - 1], ys[|ys| - 1];
      assert (xs + ys)[..|xs + ys| - 1] == xs + init;
      JoinConcat(xs, init);
      MergeAssociates(Join(xs), Join(init), last);
    }
  }

  lemma JoinSingle(t: NativeType)
    ensures Join([t]) == t
  {
    assert [t][..0] == [];
    MergeBounds(t);
  }

  lemma JoinAbsorbs(xs: seq<NativeType>, ys: seq<NativeType>)
    requires Join(xs) == Variant
    ensures Join(xs + ys) == Variant
  {
    JoinConcat(xs, ys);
    MergeBounds(Join(ys));
  }

  /** The inferred item type does not depend on the order of the items. */
  lemma {:induction false} JoinPermutation(xs: seq<NativeType>, ys: seq<NativeType>)
    requires multiset(xs) == multiset(ys)
    ensures Join(xs) == Join(ys)
    decreases |xs|
  {
    if xs == [] {
      assert |multiset(ys)| == |ys|;
    } else {
      var x := xs[0];
      assert x in multiset(ys);
      var i :| 0 <= i < |ys| && ys[i] == x;
      assert xs == [x] + xs[1..];
      SameRest(x, xs[1..], ys, i);
      JoinPermutation(xs[1..], ys[..i] + ys[i + 1..]);
      JoinConcat([x], xs[1..]);
      JoinMoveToFront(ys[..i], x, ys[i + 1..]);
      JoinConcat([x], ys[..i] + ys[i + 1..]);
    }
  }

  lemma SameRest(x: NativeType, xs: seq<NativeType>, ys: seq<NativeType>, i: nat)
    requires i < |ys| && ys[i] == x && multiset([x] + xs) == multiset(ys)
    ensures ys == ys[..i] + [x] + ys[i + 1..]
    ensures multiset(xs) == multiset(ys[..i] + ys[i + 1..])
  {
    assert ys == ys[..i] + [x] + ys[i + 1..];
    assert multiset(ys) == multiset(ys[..i]) + multiset{x} + multiset(ys[i + 1..]);
    assert multiset(ys[..i] + ys[i + 1..]) == multiset(ys) - multiset{x};
    assert multiset(xs) == multiset([x] + xs) - multiset{x};
  }

  lemma JoinMoveToFront(xs: seq<NativeType>, t: NativeType, ys: seq<NativeType>)
    ensures Join(xs + [t] + ys) == Join([t] + (xs + ys))
  {
    var behind, before := xs + [t], [t] + xs;
    JoinSwaps(xs, t);
    JoinConcat(behind, ys);
    JoinConcat(before, ys);
    assert before + ys == [t] + (xs + ys);
  }

  lemma JoinSwaps(xs: seq<NativeType>, t: NativeType)
    ensures Join(xs + [t]) == Join([t] + xs)
  {
    JoinConcat(xs, [t]);
    JoinConcat([t], xs);
    MergeCommutes(Join(xs), Join([t]));
  }

  /** `json_array_native_type`: starts from the first item and stops once `Variant` is reached. */
  method ArrayNativeType(items: seq<NativeType>) returns (t: NativeType)
    ensures t == Array(Join(items))
  {
    if |items| == 0 {
      return Array(Null);
    }
    var itemType := items[0];
    JoinSingle(items[0]);
    assert items[..1] == [items[0]];
    var i := 1;
    while i < |items| && !itemType.Variant?
      invariant 1 <= i <= |items|
      invariant itemType == Join(items[..i])
    {
      assert items[..i + 1][..i] == items[..i];
      itemType := Merge(itemType, items[i]);
      i := i + 1;
    }
    if itemType.Variant? {
      JoinAbsorbs(items[..i], items[i..]);
      assert items[..i] + items[i..] == items;
    } else {
      assert items[..i] == items;
    }
    t := Array(itemType);
  }
}

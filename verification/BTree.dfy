/**
 `BTreeMap<String, _>` as a map: iteration in ascending key order, where strings
 are ordered by their code points, and collection from a sequence of pairs.
 */
module BTree {

  predicate Leq(a: string, b: string) {
    a == [] || (b != [] && (a[0] < b[0] || (a[0] == b[0] && Leq(a[1..], b[1..]))))
  }

  predicate Less(a: string, b: string) {
    Leq(a, b) && a != b
  }

  predicate StrictlyAscending(ks: seq<string>) {
    forall i, j :: 0 <= i < j < |ks| ==> Less(ks[i], ks[j])
  }

  lemma {:induction false} LeqReflexive(a: string)
    ensures Leq(a, a)
  {
    if a == [] {
    } else {
      LeqReflexive(a[1..]);
    }
  }

  lemma {:induction false} LeqTotal(a: string, b: string)
    ensures Leq(a, b) || Leq(b, a)
  {
    if a == [] || b == [] {
    } else {
      LeqTotal(a[1..], b[1..]);
    }
  }

  lemma {:induction false} LeqAntisymmetric(a: string, b: string)
    requires Leq(a, b) && Leq(b, a)
    ensures a == b
  {
    if a != [] && b != [] {
      LeqAntisymmetric(a[1..], b[1..]);
      assert a == [a[0]] + a[1..] && b == [b[0]] + b[1..];
    }
  }

  lemma {:induction false} LeqTransitive(a: string, b: string, c: string)
    requires Leq(a, b) && Leq(b, c)
    ensures Leq(a, c)
  {
    if a != [] && b != [] && c != [] && a[0] == b[0] == c[0] {
      LeqTransitive(a[1..], b[1..], c[1..]);
    }
  }

  /** By code points: a prefix comes first, and otherwise the first difference decides. */
  lemma {:induction false} LeqByCodePoints(a: string, b: string)
    ensures Leq(a, b) <==> a <= b || exists i: nat :: FirstDifference(a, b, i) && a[i] < b[i]
  {
    if a == [] || b == [] {
    } else {
      assert a == [a[0]] + a[1..] && b == [b[0]] + b[1..];
      if a[0] == b[0] {
        LeqByCodePoints(a[1..], b[1..]);
        if i: nat :| FirstDifference(a[1..], b[1..], i) && a[1..][i] < b[1..][i] {
          assert FirstDifference(a, b, i + 1);
        }
        if i: nat :| FirstDifference(a, b, i) && a[i] < b[i] {
          assert FirstDifference(a[1..], b[1..], i - 1);
        }
      } else {
        assert FirstDifference(a, b, 0);
      }
    }
  }

  predicate FirstDifference(a: string, b: string, i: nat) {
    i < |a| && i < |b| && a[i] != b[i] && forall j :: 0 <= j < i ==> a[j] == b[j]
  }

  predicate IsLeast(k: string, ks: set<string>) {
    k in ks && forall x :: x in ks ==> Leq(k, x)
  }

  lemma {:induction false} LeastExists(ks: set<string>)
    requires ks != {}
    ensures exists k :: IsLeast(k, ks)
    decreases |ks|
  {
    var x :| x in ks;
    LeqReflexive(x);
    if ks == {x} {
      assert IsLeast(x, ks);
    } else {
      var rest := ks - {x};
      assert rest != {};
      LeastExists(rest);
      var k :| IsLeast(k, rest);
      LeqTotal(k, x);
      if Leq(k, x) {
        assert IsLeast(k, ks);
      } else {
        forall y | y in ks ensures Leq(x, y) {
          if y != x { LeqTransitive(x, k, y); }
        }
        assert IsLeast(x, ks);
      }
    }
  }

  lemma LeastUnique(ks: set<string>)
    ensures forall a, b :: IsLeast(a, ks) && IsLeast(b, ks) ==> a == b
  {
    forall a, b | IsLeast(a, ks) && IsLeast(b, ks) ensures a == b {
      LeqAntisymmetric(a, b);
    }
  }

  /** The keys in ascending order: the order in which a `BTreeMap` is iterated. */
  function Sorted(ks: set<string>): (r: seq<string>)
    ensures forall i :: 0 <= i < |r| ==> r[i] in ks
    decreases |ks|
  {
    if ks == {} then []
    else
      LeastExists(ks);
      LeastUnique(ks);
      var k :| k in ks && IsLeast(k, ks);
      [k] + Sorted(ks - {k})
  }

  lemma {:induction false} SortedIsAscending(ks: set<string>)
    ensures StrictlyAscending(Sorted(ks))
    decreases |ks|
  {
    if ks != {} {
      var r := Sorted(ks);
      LeastExists(ks);
      SortedIsAscending(ks - {r[0]});
      forall i, j | 0 <= i < j < |r| ensures Less(r[i], r[j]) {
        assert r[j] == Sorted(ks - {r[0]})[j - 1];
        if i > 0 { assert r[i] == Sorted(ks - {r[0]})[i - 1]; }
      }
    }
  }

  lemma {:induction false} SortedIndex(ks: set<string>, k: string) returns (i: nat)
    requires k in ks
    ensures i < |Sorted(ks)| && Sorted(ks)[i] == k
    decreases |ks|
  {
    var r := Sorted(ks);
    LeastExists(ks);
    if r[0] == k {
      i := 0;
    } else {
      i := SortedIndex(ks - {r[0]}, k);
      i := i + 1;
    }
  }

  /** A strictly ascending listing of a set is the listing: sortedness leaves no choice. */
  lemma {:induction false} SortedUnique(r: seq<string>, ks: set<string>)
    requires StrictlyAscending(r)
    requires forall k :: k in r <==> k in ks
    ensures r == Sorted(ks)
    decreases |r|
  {
    if r == [] {
      assert ks == {};
    } else {
      assert r[0] in ks;
      LeqReflexive(r[0]);
      assert IsLeast(r[0], ks);
      LeastUnique(ks);
      var rest := r[1..];
      assert forall i :: 0 < i < |r| ==> r[i] != r[0];
      assert forall k :: k in rest <==> k in ks - {r[0]} by {
        assert r == [r[0]] + rest;
      }
      SortedUnique(rest, ks - {r[0]});
    }
  }

  // ---------- Collecting ----------

  /** Collecting pairs into a `BTreeMap`: a later pair replaces an earlier one with its key. */
  function Collect<V>(pairs: seq<(string, V)>): map<string, V> {
    if pairs == [] then map[]
    else Collect(pairs[..|pairs| - 1])[pairs[|pairs| - 1].0 := pairs[|pairs| - 1].1]
  }

  lemma {:induction false} CollectKeys<V>(pairs: seq<(string, V)>)
    ensures forall k :: k in Collect(pairs) <==> exists i :: 0 <= i < |pairs| && pairs[i].0 == k
  {
    if pairs == [] {
    } else {
      var init := pairs[..|pairs| - 1];
      CollectKeys(init);
      forall k ensures k in Collect(pairs) <==> exists i :: 0 <= i < |pairs| && pairs[i].0 == k {
        if k in Collect(init) {
          var i :| 0 <= i < |init| && init[i].0 == k;
          assert pairs[i].0 == k;
        }
        if i :| 0 <= i < |pairs| && pairs[i].0 == k {
          assert i == |pairs| - 1 || init[i].0 == k;
        }
      }
    }
  }

  /** The pair that survives under a key is the last one pushed for it. */
  lemma {:induction false} CollectLast<V>(pairs: seq<(string, V)>, i: nat)
    requires i < |pairs|
    requires forall j :: i < j < |pairs| ==> pairs[j].0 != pairs[i].0
    ensures pairs[i].0 in Collect(pairs) && Collect(pairs)[pairs[i].0] == pairs[i].1
  {
    if i < |pairs| - 1 {
      assert pairs[|pairs| - 1].0 != pairs[i].0;
      CollectLast(pairs[..|pairs| - 1], i);
    }
  }

  lemma {:induction false} CollectDistinct<V>(pairs: seq<(string, V)>, m: map<string, V>)
    requires forall i, j :: 0 <= i < j < |pairs| ==> pairs[i].0 != pairs[j].0
    requires forall i :: 0 <= i < |pairs| ==> pairs[i].0 in m && pairs[i].1 == m[pairs[i].0]
    requires forall k :: k in m ==> exists i :: 0 <= i < |pairs| && pairs[i].0 == k
    ensures Collect(pairs) == m
  {
    CollectKeys(pairs);
    forall i | 0 <= i < |pairs| ensures pairs[i].0 in Collect(pairs) && Collect(pairs)[pairs[i].0] == m[pairs[i].0] {
      CollectLast(pairs, i);
    }
    assert Collect(pairs).Keys == m.Keys;
  }

  /** What iteration yields: the keys in ascending order, each with its value. */
  function Entries<V>(m: map<string, V>): (r: seq<(string, V)>)
    ensures |r| == |Sorted(m.Keys)|
    ensures forall i :: 0 <= i < |r| ==> r[i] == (Sorted(m.Keys)[i], m[Sorted(m.Keys)[i]])
  {
    seq(|Sorted(m.Keys)|, i requires 0 <= i < |Sorted(m.Keys)| => (Sorted(m.Keys)[i], m[Sorted(m.Keys)[i]]))
  }

  /** Collecting what iteration yields gives the map back. */
  lemma CollectEntries<V>(m: map<string, V>)
    ensures Collect(Entries(m)) == m
  {
    var pairs := Entries(m);
    SortedIsAscending(m.Keys);
    forall k | k in m ensures exists i :: 0 <= i < |pairs| && pairs[i].0 == k {
      var i := SortedIndex(m.Keys, k);
      assert pairs[i].0 == k;
    }
    CollectDistinct(pairs, m);
  }
}

/**
 Integer partition bounds of the fuzz tests: `generate_values!` and
 `generate_partition_value`, for a signed type whose largest value is `max`.
 Arithmetic is checked: an overflow or a division by zero panics, modelled as `None`.
 */
module PartitionBounds {
  import opened Option

  const I16_MAX := 0x7fff
  const I32_MAX := 0x7fff_ffff
  const I64_MAX := 0x7fff_ffff_ffff_ffff

  /** `n as iN`: the low bits of an unsigned number, read as two's complement. */
  function Cast(n: nat, max: nat): int {
    var low := n % (2 * (max + 1));
    if low <= max then low else low - 2 * (max + 1)
  }

  predicate Fits(x: int, max: nat) {
    -(max + 1) <= x <= max
  }

  /** Division that truncates toward zero, for a non-negative dividend. */
  function Quotient(x: nat, d: int): int
    requires d != 0
  {
    if d > 0 then x / d else -(x / -d)
  }

  /** `step * i` for every `i` in `1..=n`. */
  function Multiples(step: int, n: nat, max: nat): Option<seq<int>> {
    if n == 0 then Some([])
    else
      var init, last := Multiples(step, n - 1, max), step * Cast(n, max);
      if init.None? || !Fits(last, max) then None else Some(init.value + [last])
  }

  /** `generate_values!`: `n` bounds at multiples of `max / (n + 1)`. */
  function Bounds(n: nat, max: nat): Option<seq<int>> {
    var d := Cast(n, max) + 1;
    if d > max || d == 0 then None else Multiples(Quotient(max, d), n, max)
  }

  predicate StrictlyIncreasing(s: seq<int>) {
    forall i, j :: 0 <= i < j < |s| ==> s[i] < s[j]
  }

  lemma CastSmall(n: nat, max: nat)
    requires n <= max
    ensures Cast(n, max) == n
  {
    SmallMod(n, 2 * (max + 1));
  }

  lemma SmallMod(x: nat, m: nat)
    requires x < m
    ensures x % m == x
  {
  }

  lemma {:induction false} MultiplesSmall(step: nat, n: nat, max: nat)
    requires n <= max && step * n <= max
    ensures Multiples(step, n, max).Some?
    ensures var r := Multiples(step, n, max).value;
      |r| == n && forall i :: 0 <= i < n ==> r[i] == step * (i + 1)
  {
    if n == 0 {
    } else {
      CastSmall(n, max);
      assert step * (n - 1) <= step * n;
      MultiplesSmall(step, n - 1, max);
    }
  }

  lemma {:induction false} MultiplesAt(step: int, n: nat, max: nat, i: nat)
    requires 1 <= i <= n && Multiples(step, n, max).Some?
    ensures |Multiples(step, n, max).value| == n
    ensures Multiples(step, n, max).value[i - 1] == step * Cast(i, max)
    ensures Fits(step * Cast(i, max), max)
  {
    if n > 1 {
      MultiplesAt(step, n - 1, max, if i < n then i else 1);
    }
  }

  lemma StepFits(n: nat, max: nat)
    requires n + 1 <= max
    ensures max / (n + 1) >= 1 && (max / (n + 1)) * n < (max / (n + 1)) * (n + 1) <= max
  {
    var d, q, r := n + 1, max / (n + 1), max % (n + 1);
    assert max == d * q + r;
    SignOfProduct(d, q);
  }

  lemma Distributes(a: int, b: int, c: int)
    ensures a * (b + c) == a * b + a * c
  {
  }

  lemma SignOfProduct(a: int, b: int)
    requires a > 0
    ensures a * b > 0 <==> b > 0
    ensures a * b < 0 <==> b < 0
  {
  }

  /** The bounds in range: no overflow, and equally spaced. */
  lemma BoundsSmall(n: nat, max: nat)
    requires n + 1 <= max
    ensures Bounds(n, max).Some?
    ensures var b, step := Bounds(n, max).value, max / (n + 1);
      step >= 1 && |b| == n && forall i :: 0 <= i < n ==> b[i] == step * (i + 1)
  {
    CastSmall(n, max);
    StepFits(n, max);
    MultiplesSmall(max / (n + 1), n, max);
  }

  lemma CastBeyond(max: nat)
    ensures Cast(max, max) == max && Cast(max + 1, max) == -(max + 1)
  {
    SmallMod(max, 2 * (max + 1));
    SmallMod(max + 1, 2 * (max + 1));
  }

  lemma CastFits(n: nat, max: nat)
    ensures Fits(Cast(n, max), max)
  {
  }

  /** Beyond the range the generation panics or the bounds are out of order. */
  lemma BoundsLarge(n: nat, max: nat)
    requires max >= 3 && n + 1 > max && Bounds(n, max).Some?
    ensures !StrictlyIncreasing(Bounds(n, max).value)
  {
    CastBeyond(max);
    CastFits(n, max);
    if n > max {
      var d := Cast(n, max) + 1;
      var step := Quotient(max, d);
      var b := Bounds(n, max).value;
      QuotientNonZero(max, d);
      CastSmall(1, max);
      CastSmall(2, max);
      MultiplesAt(step, n, max, 1);
      MultiplesAt(step, n, max, 2);
      MultiplesAt(step, n, max, max + 1);
      if step > 0 {
        SignOfProduct(step, -(max + 1));
        assert b[max] == step * -(max + 1) < 0 < b[0];
      } else {
        assert b[1] < b[0];
      }
    }
  }

  lemma QuotientNonZero(x: nat, d: int)
    requires d != 0 && 0 - x <= d <= x
    ensures Quotient(x, d) != 0
  {
    var e := if d > 0 then d else -d;
    assert x == e * (x / e) + x % e;
    SignOfProduct(e, x / e);
  }

  /**
   Beyond the range, when the generation still does not panic: the divisor has
   wrapped into the upper half of the type, which makes the step 1.
   */
  lemma BoundsBeyond(n: nat, max: nat)
    requires max >= 3 && n >= max
    ensures Bounds(n, max).Some? <==> n > max && max < 2 * (Cast(n, max) + 1) <= 2 * max
  {
    CastBeyond(max);
    CastFits(n, max);
    var d := Cast(n, max) + 1;
    if n > max && d <= max && d != 0 {
      var step := Quotient(max, d);
      if Bounds(n, max).Some? {
        MultiplesAt(step, n, max, max + 1);
        QuotientNonZero(max, d);
        if step != 1 {
          StepOverflows(step, max);
          assert false;
        }
        QuotientOne(max, d);
      }
      if max < 2 * d {
        QuotientOne(max, d);
        MultiplesOfOne(n, max);
      }
    }
  }

  lemma StepOverflows(step: int, max: nat)
    requires step < 0 || step > 1
    ensures !Fits(step * -(max + 1), max)
  {
    if step > 1 {
      Distributes(max + 1, 1, step - 1);
      SignOfProduct(max + 1, step - 1);
      assert (max + 1) * step > max + 1;
      assert step * -(max + 1) == -((max + 1) * step);
    } else {
      Distributes(max + 1, 1, -step - 1);
      SignOfProduct(max + 1, -step - 1);
      assert step * -(max + 1) == (max + 1) * -step;
    }
  }

  lemma QuotientOne(max: nat, d: int)
    requires d != 0 && 0 - max <= d <= max
    ensures Quotient(max, d) == 1 <==> max < 2 * d
  {
    if d > 0 {
      assert max == d * (max / d) + max % d;
      if max < 2 * d {
        assert d * (max / d) < 2 * d;
        assert max / d < 2;
        assert max / d >= 1;
      }
    }
  }

  lemma {:induction false} MultiplesOfOne(n: nat, max: nat)
    ensures Multiples(1, n, max).Some?
  {
    if n == 0 {
    } else {
      MultiplesOfOne(n - 1, max);
      CastFits(n, max);
    }
  }

  /**
   For every number of bounds: they are generated without a panic and strictly
   increase exactly when one more than their number still fits the type.
   */
  lemma BoundsExactly(n: nat, max: nat)
    requires max >= 3
    ensures (Bounds(n, max).Some? && StrictlyIncreasing(Bounds(n, max).value)) <==> n + 1 <= max
  {
    if n + 1 <= max {
      BoundsSmall(n, max);
      SpacedIncreases(Bounds(n, max).value, max / (n + 1));
    } else if Bounds(n, max).Some? {
      BoundsLarge(n, max);
    }
  }

  lemma SpacedIncreases(b: seq<int>, step: int)
    requires step >= 1 && forall i :: 0 <= i < |b| ==> b[i] == step * (i + 1)
    ensures StrictlyIncreasing(b)
  {
    forall i, j | 0 <= i < j < |b| ensures b[i] < b[j] {
      Distributes(step, i + 1, j - i);
      SignOfProduct(step, j - i);
    }
  }

  // ---------- Values for a partition ----------

  function SaturatingPred(x: int, max: nat): int {
    if x <= -(max + 1) then -(max + 1) else x - 1
  }

  /** `generate_partition_value`; without bounds any value will do. */
  function PartitionValue(bounds: seq<int>, k: nat, max: nat, any: int): int {
    if bounds == [] then any
    else if k == 0 then SaturatingPred(bounds[0], max)
    else if k < |bounds| then bounds[k - 1]
    else bounds[|bounds| - 1]
  }

  /** Partition `k`: from bound `k - 1` up to, but not including, bound `k`, where these exist. */
  predicate InPartition(bounds: seq<int>, v: int, k: nat) {
    && (0 < k <= |bounds| ==> bounds[k - 1] <= v)
    && (k < |bounds| ==> v < bounds[k])
  }

  lemma OnePartition(bounds: seq<int>, v: int, k: nat, j: nat)
    requires StrictlyIncreasing(bounds) && k <= |bounds| && j <= |bounds| && InPartition(bounds, v, k)
    ensures InPartition(bounds, v, j) <==> j == k
  {
    if j < k {
      assert j < k - 1 ==> bounds[j] < bounds[k - 1];
    } else if k < j {
      assert k < j - 1 ==> bounds[k] < bounds[j - 1];
    }
  }

  lemma ValueInPartition(bounds: seq<int>, k: nat, max: nat, any: int)
    requires StrictlyIncreasing(bounds) && k <= |bounds| && Fits(any, max)
    requires forall i :: 0 <= i < |bounds| ==> 0 < bounds[i] <= max
    ensures var v := PartitionValue(bounds, k, max, any); Fits(v, max) && InPartition(bounds, v, k)
  {
  }

  lemma SpacedInRange(b: seq<int>, step: int, max: nat)
    requires step >= 1 && step * |b| <= max && forall i :: 0 <= i < |b| ==> b[i] == step * (i + 1)
    ensures forall i :: 0 <= i < |b| ==> 0 < b[i] <= max
  {
    forall i | 0 <= i < |b| ensures 0 < b[i] <= max {
      Distributes(step, i + 1, |b| - i - 1);
      SignOfProduct(step, i + 1);
      SignOfProduct(step, |b| - i - 1);
    }
  }

  /** The value generated for a partition fits the type and lies in that partition and in no other. */
  lemma ValueHitsItsPartition(n: nat, max: nat, k: nat, any: int, j: nat)
    requires n + 1 <= max && k <= n && j <= n && Fits(any, max)
    ensures Bounds(n, max).Some?
    ensures var v := PartitionValue(Bounds(n, max).value, k, max, any);
      Fits(v, max) && (InPartition(Bounds(n, max).value, v, j) <==> j == k)
  {
    BoundsSmall(n, max);
    var b, step := Bounds(n, max).value, max / (n + 1);
    StepFits(n, max);
    SpacedIncreases(b, step);
    SpacedInRange(b, step, max);
    ValueInPartition(b, k, max, any);
    OnePartition(b, PartitionValue(b, k, max, any), k, j);
  }

  /**
   The value generated is the one at the edge of its partition: the largest of the
   first, the least of any other; without bounds it is any value.
   */
  lemma ValueIsAtTheEdge(n: nat, max: nat, k: nat, any: int)
    requires n + 1 <= max && k <= n
    ensures Bounds(n, max).Some?
    ensures var b := Bounds(n, max).value;
      var v := PartitionValue(b, k, max, any);
      && (n == 0 ==> v == any)
      && (n > 0 && k == 0 ==> !InPartition(b, v + 1, k))
      && (n > 0 && k > 0 ==> !InPartition(b, v - 1, k))
  {
    BoundsSmall(n, max);
    var b, step := Bounds(n, max).value, max / (n + 1);
    StepFits(n, max);
    SpacedInRange(b, step, max);
    if n > 0 { assert 0 < b[0] <= max; }
  }

  /** The three integer types of the fuzz tests. */
  lemma BoundsOfIntegerTypes(n: nat)
    ensures (Bounds(n, I16_MAX).Some? && StrictlyIncreasing(Bounds(n, I16_MAX).value)) <==> n < I16_MAX
    ensures (Bounds(n, I32_MAX).Some? && StrictlyIncreasing(Bounds(n, I32_MAX).value)) <==> n < I32_MAX
    ensures (Bounds(n, I64_MAX).Some? && StrictlyIncreasing(Bounds(n, I64_MAX).value)) <==> n < I64_MAX
  {
    BoundsExactly(n, I16_MAX);
    BoundsExactly(n, I32_MAX);
    BoundsExactly(n, I64_MAX);
  }
}

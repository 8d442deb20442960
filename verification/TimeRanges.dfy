/**
 Time ranges on the wire: `to_pb_time_ranges` sends one unit for all ranges, after
 a sliding-window test that the units agree; `from_pb_time_ranges` reads them back.
 */
module TimeRanges {
  import opened Integers
  import opened ConcreteTypes

  datatype Stamp = Stamp(value: I64, unit: TimeUnit)

  type Range = (Stamp, Stamp)

  datatype Error = InconsistentTimeUnit(units: set<TimeUnit>) | InvalidTimeUnit(code: I32)

  datatype Result<T> = Ok(value: T) | Err(error: Error)

  /** The message: the unit as its protobuf number, and the bare start and end values. */
  datatype PbTimeRanges = PbTimeRanges(unit: I32, ranges: seq<(I64, I64)>)

  function UnitToPb(unit: TimeUnit): I32 {
    match unit
    case Second => 0
    case Millisecond => 1
    case Microsecond => 2
    case Nanosecond => 3
  }

  function UnitFromPb(code: I32): Result<TimeUnit> {
    if code == 0 then Ok(Second)
    else if code == 1 then Ok(Millisecond)
    else if code == 2 then Ok(Microsecond)
    else if code == 3 then Ok(Nanosecond)
    else Err(InvalidTimeUnit(code))
  }

  function Power(base: nat, n: nat): nat {
    if n == 0 then 1 else base * Power(base, n - 1)
  }

  /** The number of a unit is the power of a thousand that its ticks are; other numbers are refused. */
  lemma UnitNumbers(unit: TimeUnit, code: I32)
    ensures 0 <= UnitToPb(unit) < 4 && Power(1000, UnitToPb(unit)) == Ticks(unit)
    ensures UnitFromPb(code) == Ok(unit) <==> code == UnitToPb(unit)
    ensures !(0 <= code < 4) ==> UnitFromPb(code) == Err(InvalidTimeUnit(code))
  {
    assert Power(1000, 2) == 1_000_000;
    assert Power(1000, 3) == 1000 * Power(1000, 2);
  }

  /** The test of `windows(2)`: neighbours agree, and the first of each pair agrees with itself. */
  predicate WindowsAgree(rs: seq<Range>) {
    forall i :: 0 <= i < |rs| - 1 ==>
      && rs[i].0.unit == rs[i + 1].0.unit
      && rs[i].1.unit == rs[i + 1].1.unit
      && rs[i].0.unit == rs[i].1.unit
  }

  /** Every start and every end has the unit of the first start. */
  predicate SameUnit(rs: seq<Range>) {
    forall i :: 0 <= i < |rs| ==> rs[i].0.unit == rs[0].0.unit && rs[i].1.unit == rs[0].0.unit
  }

  function Units(rs: seq<Range>): set<TimeUnit> {
    (set r | r in rs :: r.0.unit) + (set r | r in rs :: r.1.unit)
  }

  /** For two or more ranges the sliding window decides whether all units are equal. */
  lemma WindowsDecide(rs: seq<Range>)
    requires |rs| >= 2
    ensures WindowsAgree(rs) <==> SameUnit(rs)
  {
    if WindowsAgree(rs) {
      WindowsSpread(rs, |rs|);
    }
  }

  lemma {:induction false} WindowsSpread(rs: seq<Range>, n: nat)
    requires |rs| >= 2 && WindowsAgree(rs) && n <= |rs|
    ensures forall i :: 0 <= i < n ==> rs[i].0.unit == rs[0].0.unit && rs[i].1.unit == rs[0].0.unit
  {
    if n == 0 {
    } else {
      WindowsSpread(rs, n - 1);
      if n > 1 {
        assert rs[n - 2].0.unit == rs[n - 1].0.unit && rs[n - 2].1.unit == rs[n - 1].1.unit;
      } else {
        assert rs[0].0.unit == rs[0].1.unit;
      }
    }
  }

  /** A list is rejected with exactly the units in it, of which there are at least two. */
  lemma RejectionNamesTwoUnits(rs: seq<Range>)
    requires !WindowsAgree(rs)
    ensures Sent(rs) == Err(InconsistentTimeUnit(Units(rs)))
    ensures forall u :: u in Units(rs) <==> exists r :: r in rs && (r.0.unit == u || r.1.unit == u)
    ensures exists u, v :: u != v && u in Units(rs) && v in Units(rs)
  {
    var i :| 0 <= i < |rs| - 1 &&
      !(rs[i].0.unit == rs[i + 1].0.unit && rs[i].1.unit == rs[i + 1].1.unit && rs[i].0.unit == rs[i].1.unit);
    assert rs[i] in rs && rs[i + 1] in rs;
    assert rs[i].0.unit in Units(rs) && rs[i].1.unit in Units(rs);
    assert rs[i + 1].0.unit in Units(rs) && rs[i + 1].1.unit in Units(rs);
  }

  /** `to_pb_time_ranges`. An empty list is sent with the default unit, milliseconds. */
  method ToPb(rs: seq<Range>) returns (r: Result<PbTimeRanges>)
    ensures r == Sent(rs)
  {
    if !WindowsAgree(rs) {
      return Err(InconsistentTimeUnit(Units(rs)));
    }
    var unit := UnitToPb(Millisecond);
    if |rs| > 0 {
      unit := UnitToPb(rs[0].0.unit);
    }
    var ranges: seq<(I64, I64)> := [];
    for i := 0 to |rs|
      invariant ranges == Bare(rs[..i])
    {
      assert rs[..i + 1] == rs[..i] + [rs[i]];
      ranges := ranges + [(rs[i].0.value, rs[i].1.value)];
    }
    assert rs[..|rs|] == rs;
    r := Ok(PbTimeRanges(unit, ranges));
  }

  function Bare(rs: seq<Range>): seq<(I64, I64)> {
    seq(|rs|, i requires 0 <= i < |rs| => (rs[i].0.value, rs[i].1.value))
  }

  function Sent(rs: seq<Range>): Result<PbTimeRanges> {
    if !WindowsAgree(rs) then Err(InconsistentTimeUnit(Units(rs)))
    else Ok(PbTimeRanges(UnitToPb(if rs == [] then Millisecond else rs[0].0.unit), Bare(rs)))
  }

  /** `from_pb_time_ranges`. The unit of an empty message is not looked at. */
  function FromPb(pb: PbTimeRanges): Result<seq<Range>> {
    if pb.ranges == [] then Ok([])
    else
      match UnitFromPb(pb.unit)
      case Err(e) => Err(e)
      case Ok(unit) =>
        Ok(seq(|pb.ranges|, i requires 0 <= i < |pb.ranges| =>
          (Stamp(pb.ranges[i].0, unit), Stamp(pb.ranges[i].1, unit))))
  }

  /** What is not a round trip: no ranges at all, and a unit that does not exist. */
  lemma RangesAtTheEdges(pb: PbTimeRanges)
    ensures Sent([]) == Ok(PbTimeRanges(UnitToPb(Millisecond), []))
    ensures pb.ranges == [] ==> FromPb(pb) == Ok([])
    ensures pb.ranges != [] && !(0 <= pb.unit < 4) ==> FromPb(pb) == Err(InvalidTimeUnit(pb.unit))
  {
    assert Bare([]) == [];
    UnitNumbers(Millisecond, pb.unit);
  }

  /**
   The ranges come back exactly when all units agree. For a single range this is
   more than the window test asks, which accepts every single range.
   */
  lemma RangesRoundTrip(rs: seq<Range>)
    ensures (Sent(rs).Ok? && FromPb(Sent(rs).value) == Ok(rs)) <==> SameUnit(rs)
  {
    if |rs| >= 2 {
      WindowsDecide(rs);
    }
    if Sent(rs).Ok? && rs != [] {
      var back := FromPb(Sent(rs).value).value;
      if SameUnit(rs) {
        forall i | 0 <= i < |rs| ensures back[i] == rs[i] { }
        assert back == rs;
      } else {
        var i :| 0 <= i < |rs| && !(rs[i].0.unit == rs[0].0.unit && rs[i].1.unit == rs[0].0.unit);
        assert back[i] != rs[i];
      }
    }
  }

  /** A single range from seconds to milliseconds is accepted and comes back in seconds. */
  lemma SingleRangeLosesItsUnit()
    ensures var rs := [(Stamp(1, Second), Stamp(2000, Millisecond))];
      WindowsAgree(rs) && Sent(rs).Ok? && FromPb(Sent(rs).value) == Ok([(Stamp(1, Second), Stamp(2000, Second))])
  {
    var rs := [(Stamp(1, Second), Stamp(2000, Millisecond))];
    assert Bare(rs) == [(1, 2000)];
    assert FromPb(Sent(rs).value).value == [(Stamp(1, Second), Stamp(2000, Second))];
  }
}

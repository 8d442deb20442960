/**
 Column values on the wire: `to_grpc_value`, `pb_value_to_value_ref` and
 `vectors_to_rows`. The wire form of a value does not carry its type; reading it
 back takes the type extension of its column.
 */
module ValueWire {
  import opened Integers
  import opened Option
  import opened ConcreteTypes
  import opened TypeWire
  import P = ProtoTypes
  import W = JsonWire

  datatype ScalarValue =
    | BooleanValue(b: bool)
    | UInt8Value(u8: U8) | UInt16Value(u16: U16) | UInt32Value(u32: U32) | UInt64Value(u64: U64)
    | Int8Value(i8: I8) | Int16Value(i16: I16) | Int32Value(i32: I32) | Int64Value(i64: I64)
    | Float32Value(f32: F32) | Float64Value(f64: F64)
    | StringValue(s: string) | BinaryValue(bytes: Bytes)
    | DateValue(date: I32)
    | TimestampValue(unit: TimeUnit, time: I64) | TimeValue(unit: TimeUnit, time: I64)
    | IntervalYearMonthValue(months: I32)
    | IntervalDayTimeValue(days: I32, milliseconds: I32)
    | IntervalMonthDayNanoValue(months: I32, days: I32, nanoseconds: I64)

  datatype Value =
    | NullValue
    | Simple(s: ScalarValue)
    | Decimal128Value(value: I128, precision: U8, scale: I8)
    | DurationValue(unit: TimeUnit, time: I64)
    | ListValue(items: seq<Value>, itemType: ConcreteType)
    | StructValue(items: seq<Value>, fields: seq<StructField>)
    | JsonValue(json: W.Json)

  /** The narrow integers travel in 32-bit fields. */
  datatype PbScalar =
    | PbBool(b: bool)
    | PbU8(u32: U32) | PbU16(u32: U32) | PbU32(u32: U32) | PbU64(u64: U64)
    | PbI8(i32: I32) | PbI16(i32: I32) | PbI32(i32: I32) | PbI64(i64: I64)
    | PbF32(f32: F32) | PbF64(f64: F64)
    | PbString(s: string) | PbBinary(bytes: Bytes)
    | PbDate(i32: I32) | PbDatetime(i64: I64)
    | PbTimestampSecond(i64: I64) | PbTimestampMillisecond(i64: I64)
    | PbTimestampMicrosecond(i64: I64) | PbTimestampNanosecond(i64: I64)
    | PbTimeSecond(i64: I64) | PbTimeMillisecond(i64: I64) | PbTimeMicrosecond(i64: I64) | PbTimeNanosecond(i64: I64)
    | PbIntervalYearMonth(i32: I32) | PbIntervalDayTime(i64: I64)
    | PbIntervalMonthDayNano(months: I32, days: I32, nanoseconds: I64)

  /** `v1::Value`; `PbNull` is the value without data. */
  datatype PbValue =
    | PbNull
    | PbSimple(s: PbScalar)
    | PbDecimal128(hi: I64, lo: I64)
    | PbList(items: seq<PbValue>)
    | PbStruct(items: seq<PbValue>)
    | PbJson(json: W.PbJson)

  // ---------- Splitting wide numbers ----------

  /** `split_value`: the high half by an arithmetic shift, the low half by truncation. */
  function SplitDecimal(v: I128): (I64, I64) {
    (v / 0x1_0000_0000_0000_0000, AsI64(v))
  }

  /** `from_value_precision_scale`: the two halves, as unsigned bits, read as an `i128`. */
  function JoinDecimal(hi: I64, lo: I64): I128 {
    var bits := (hi % 0x1_0000_0000_0000_0000) * 0x1_0000_0000_0000_0000 + lo % 0x1_0000_0000_0000_0000;
    if bits < 0x8000_0000_0000_0000_0000_0000_0000_0000 then bits
    else bits - 0x1_0000_0000_0000_0000_0000_0000_0000_0000
  }

  /** The halves are the two digits of the value in base 2^64, the low one read as unsigned. */
  lemma SplitDecimalMeans(v: I128)
    ensures v == SplitDecimal(v).0 * 0x1_0000_0000_0000_0000 + SplitDecimal(v).1 % 0x1_0000_0000_0000_0000
  {
    assert AsI64(v) % 0x1_0000_0000_0000_0000 == v % 0x1_0000_0000_0000_0000;
  }

  lemma JoinOfSplitDecimal(v: I128)
    ensures JoinDecimal(SplitDecimal(v).0, SplitDecimal(v).1) == v
  {
    SplitDecimalMeans(v);
  }

  /** `IntervalDayTime::to_i64` and `from_i64`. */
  function PackDayTime(days: I32, milliseconds: I32): I64 {
    var bits := (days % 0x1_0000_0000) * 0x1_0000_0000 + milliseconds % 0x1_0000_0000;
    if bits < 0x8000_0000_0000_0000 then bits else bits - 0x1_0000_0000_0000_0000
  }

  function UnpackDayTime(x: I64): (I32, I32) {
    (AsI32(x / 0x1_0000_0000), AsI32(x))
  }

  lemma UnpackOfPackDayTime(days: I32, milliseconds: I32)
    ensures UnpackDayTime(PackDayTime(days, milliseconds)) == (days, milliseconds)
  {
    PackDayTimeMeans(days, milliseconds);
    DivideExact(days, milliseconds % 0x1_0000_0000);
    CastAsIs(days);
    CastLow(milliseconds);
  }

  lemma CastAsIs(x: I32)
    ensures AsI32(x) == x
  {
  }

  lemma CastLow(x: I32)
    ensures (x % 0x1_0000_0000 + 0x8000_0000) % 0x1_0000_0000 - 0x8000_0000 == x
  {
    assert x % 0x1_0000_0000 == if x < 0 then x + 0x1_0000_0000 else x;
  }

  lemma PackDayTimeMeans(days: I32, milliseconds: I32)
    ensures PackDayTime(days, milliseconds) == days * 0x1_0000_0000 + milliseconds % 0x1_0000_0000
  {
    assert days % 0x1_0000_0000 == if days < 0 then days + 0x1_0000_0000 else days;
  }

  lemma DivideExact(q: int, low: int)
    requires 0 <= low < 0x1_0000_0000
    ensures (q * 0x1_0000_0000 + low) / 0x1_0000_0000 == q
    ensures (q * 0x1_0000_0000 + low + 0x8000_0000) % 0x1_0000_0000 == (low + 0x8000_0000) % 0x1_0000_0000
  {
  }

  // ---------- To the wire ----------

  function ScalarToPb(s: ScalarValue): PbScalar {
    match s
    case BooleanValue(b) => PbBool(b)
    case UInt8Value(v) => PbU8(v)
    case UInt16Value(v) => PbU16(v)
    case UInt32Value(v) => PbU32(v)
    case UInt64Value(v) => PbU64(v)
    case Int8Value(v) => PbI8(v)
    case Int16Value(v) => PbI16(v)
    case Int32Value(v) => PbI32(v)
    case Int64Value(v) => PbI64(v)
    case Float32Value(v) => PbF32(v)
    case Float64Value(v) => PbF64(v)
    case StringValue(v) => PbString(v)
    case BinaryValue(v) => PbBinary(v)
    case DateValue(v) => PbDate(v)
    case TimestampValue(Second, v) => PbTimestampSecond(v)
    case TimestampValue(Millisecond, v) => PbTimestampMillisecond(v)
    case TimestampValue(Microsecond, v) => PbTimestampMicrosecond(v)
    case TimestampValue(Nanosecond, v) => PbTimestampNanosecond(v)
    case TimeValue(Second, v) => PbTimeSecond(v)
    case TimeValue(Millisecond, v) => PbTimeMillisecond(v)
    case TimeValue(Microsecond, v) => PbTimeMicrosecond(v)
    case TimeValue(Nanosecond, v) => PbTimeNanosecond(v)
    case IntervalYearMonthValue(v) => PbIntervalYearMonth(v)
    case IntervalDayTimeValue(d, m) => PbIntervalDayTime(PackDayTime(d, m))
    case IntervalMonthDayNanoValue(m, d, n) => PbIntervalMonthDayNano(m, d, n)
  }

  predicate HasDuration(v: Value) {
    match v
    case DurationValue(_, _) => true
    case ListValue(items, _) => exists i :: 0 <= i < |items| && HasDuration(items[i])
    case StructValue(items, _) => exists i :: 0 <= i < |items| && HasDuration(items[i])
    case _ => false
  }

  /** `to_grpc_value`, whose callers must not pass durations. */
  function ToPb(v: Value): PbValue
    requires !HasDuration(v)
  {
    match v
    case NullValue => PbNull
    case Simple(s) => PbSimple(ScalarToPb(s))
    case Decimal128Value(value, _, _) => PbDecimal128(SplitDecimal(value).0, SplitDecimal(value).1)
    case ListValue(items, _) => PbList(ItemsToPb(items))
    case StructValue(items, _) => PbStruct(ItemsToPb(items))
    case JsonValue(json) => PbJson(W.Encode(json))
  }

  function ItemsToPb(items: seq<Value>): (r: seq<PbValue>)
    requires forall i :: 0 <= i < |items| ==> !HasDuration(items[i])
    ensures |r| == |items|
    ensures forall i :: 0 <= i < |items| ==> r[i] == ToPb(items[i])
  {
    if items == [] then []
    else ItemsToPb(items[..|items| - 1]) + [ToPb(items[|items| - 1])]
  }

  // ---------- From the wire ----------

  function ScalarFromPb(s: PbScalar): ScalarValue {
    match s
    case PbBool(b) => BooleanValue(b)
    case PbU8(v) => UInt8Value(AsU8(v))
    case PbU16(v) => UInt16Value(AsU16(v))
    case PbU32(v) => UInt32Value(v)
    case PbU64(v) => UInt64Value(v)
    case PbI8(v) => Int8Value(AsI8(v))
    case PbI16(v) => Int16Value(AsI16(v))
    case PbI32(v) => Int32Value(v)
    case PbI64(v) => Int64Value(v)
    case PbF32(v) => Float32Value(v)
    case PbF64(v) => Float64Value(v)
    case PbString(v) => StringValue(v)
    case PbBinary(v) => BinaryValue(v)
    case PbDate(v) => DateValue(v)
    case PbTimestampSecond(v) => TimestampValue(Second, v)
    case PbTimestampMillisecond(v) => TimestampValue(Millisecond, v)
    case PbDatetime(v) => TimestampValue(Microsecond, v)
    case PbTimestampMicrosecond(v) => TimestampValue(Microsecond, v)
    case PbTimestampNanosecond(v) => TimestampValue(Nanosecond, v)
    case PbTimeSecond(v) => TimeValue(Second, v)
    case PbTimeMillisecond(v) => TimeValue(Millisecond, v)
    case PbTimeMicrosecond(v) => TimeValue(Microsecond, v)
    case PbTimeNanosecond(v) => TimeValue(Nanosecond, v)
    case PbIntervalYearMonth(v) => IntervalYearMonthValue(v)
    case PbIntervalDayTime(v) => IntervalDayTimeValue(UnpackDayTime(v).0, UnpackDayTime(v).1)
    case PbIntervalMonthDayNano(m, d, n) => IntervalMonthDayNanoValue(m, d, n)
  }

  /** `pb_value_to_value_ref`; a missing or malformed extension makes it panic, modelled as `None`. */
  function FromPb(p: PbValue, ext: Option<P.Extension>): Option<Value> {
    var te := TypeExtOf(ext);
    match p
    case PbNull => Some(NullValue)
    case PbSimple(s) => Some(Simple(ScalarFromPb(s)))
    case PbDecimal128(hi, lo) =>
      if te.Some? && te.value.DecimalType?
      then Some(Decimal128Value(JoinDecimal(hi, lo), AsU8(te.value.precision), AsI8(te.value.scale)))
      else Some(Decimal128Value(JoinDecimal(hi, lo), 38, 10))
    case PbList(items) =>
      if te.Some? && te.value.ListType? then
        var itemType, vs := FromWire(te.value.item), ItemsFromPb(items, te.value.item.ext);
        if itemType.None? || vs.None? then None else Some(ListValue(vs.value, itemType.value))
      else None
    case PbStruct(items) =>
      if te.Some? && te.value.StructType? then
        var fields, vs := FieldsFromWire(te.value.fields), FieldValuesFromPb(items, te.value.fields);
        if fields.None? || vs.None? then None else Some(StructValue(vs.value, fields.value))
      else None
    case PbJson(json) => Some(JsonValue(W.Decode(json)))
  }

  function ItemsFromPb(items: seq<PbValue>, ext: Option<P.Extension>): Option<seq<Value>> {
    if items == [] then Some([])
    else
      var init, last := ItemsFromPb(items[..|items| - 1], ext), FromPb(items[|items| - 1], ext);
      if init.None? || last.None? then None else Some(init.value + [last.value])
  }

  /** The items zipped with the fields: the longer of the two is cut off. */
  function FieldValuesFromPb(items: seq<PbValue>, fields: seq<P.PbField>): Option<seq<Value>>
    decreases items, |items| + |fields|
  {
    if |items| > |fields| then FieldValuesFromPb(items[..|fields|], fields)
    else if |fields| > |items| then FieldValuesFromPb(items, fields[..|items|])
    else if items == [] then Some([])
    else
      var n := |items| - 1;
      var init, last := FieldValuesFromPb(items[..n], fields[..n]), FromPb(items[n], fields[n].ty.ext);
      if init.None? || last.None? then None else Some(init.value + [last.value])
  }

  // ---------- Well-typed values ----------

  predicate ScalarFits(s: ScalarValue, t: ScalarType) {
    match s
    case BooleanValue(_) => t.Boolean?
    case UInt8Value(_) => t.UInt8?
    case UInt16Value(_) => t.UInt16?
    case UInt32Value(_) => t.UInt32?
    case UInt64Value(_) => t.UInt64?
    case Int8Value(_) => t.Int8?
    case Int16Value(_) => t.Int16?
    case Int32Value(_) => t.Int32?
    case Int64Value(_) => t.Int64?
    case Float32Value(_) => t.Float32?
    case Float64Value(_) => t.Float64?
    case StringValue(_) => t.String?
    case BinaryValue(_) => t.Binary?
    case DateValue(_) => t.Date?
    case TimestampValue(unit, _) => t == Timestamp(unit)
    case TimeValue(unit, _) => t == Time(unit)
    case IntervalYearMonthValue(_) => t == Interval(YearMonth)
    case IntervalDayTimeValue(_, _) => t == Interval(DayTime)
    case IntervalMonthDayNanoValue(_, _, _) => t == Interval(MonthDayNano)
  }

  /**
   The value can stand in a column of the type. A dictionary column holds values of
   its value type; vectors and JSON in its binary format are held as bytes.
   */
  predicate WellTyped(v: Value, t: ConcreteType)
    decreases v, t
  {
    if t.Dictionary? then WellTyped(v, t.value)
    else
      match v
      case NullValue => true
      case Simple(s) =>
        || (t.Scalar? && ScalarFits(s, t.scalar))
        || (s.BinaryValue? && (t.Vector? || (t.Json? && t.format.Jsonb?)))
      case Decimal128Value(_, p, s) => t.Decimal128? && t.decimal.precision == p && t.decimal.scale == s
      case DurationValue(unit, _) => t == Duration(unit)
      case ListValue(items, itemType) =>
        t == List(itemType) && forall i :: 0 <= i < |items| ==> WellTyped(items[i], itemType)
      case StructValue(items, fields) =>
        && t == Struct(fields) && |items| == |fields|
        && forall i :: 0 <= i < |items| ==> WellTyped(items[i], fields[i].ty)
      case JsonValue(_) => t.Json? && t.format.Json2?
  }

  /**
   The condition under which a value survives the wire: its nested types are in
   canonical form, and under a dictionary type only values that need no extension.
   */
  predicate Survives(v: Value, t: ConcreteType)
    requires WellTyped(v, t)
  {
    match v
    case Decimal128Value(_, p, s) => t.Dictionary? ==> p == 38 && s == 10
    case ListValue(items, itemType) =>
      !t.Dictionary? && IsCanonical(itemType) && forall i :: 0 <= i < |items| ==> Survives(items[i], itemType)
    case StructValue(items, fields) =>
      && !t.Dictionary? && IsCanonical(Struct(fields))
      && forall i :: 0 <= i < |items| ==> Survives(items[i], fields[i].ty)
    case _ => true
  }

  lemma {:induction false} NoDuration(v: Value, t: ConcreteType)
    requires WellTyped(v, t) && ToWire(t).Some?
    ensures !HasDuration(v)
    decreases v, t
  {
    if t.Dictionary? {
      NoDuration(v, t.value);
    } else {
      match v
      case ListValue(items, itemType) =>
        forall i | 0 <= i < |items| ensures !HasDuration(items[i]) { NoDuration(items[i], itemType); }
      case StructValue(items, fields) =>
        FieldsFailExactly(fields);
        forall i | 0 <= i < |items| ensures !HasDuration(items[i]) { NoDuration(items[i], fields[i].ty); }
      case _ =>
    }
  }

  // ---------- Round trip ----------

  lemma ScalarRoundTrip(s: ScalarValue)
    ensures ScalarFromPb(ScalarToPb(s)) == s
  {
    if s.IntervalDayTimeValue? {
      UnpackOfPackDayTime(s.days, s.milliseconds);
    }
  }

  // ---------- What scalars on the wire denote ----------

  /** A truth value, a number in its width, a text, bytes, a point in nanoseconds, or months, days and nanoseconds. */
  datatype Denotation =
    | True(b: bool)
    | Integer(shape: Shape, residue: int)
    | Real(shape: Shape, bits: int)
    | Characters(s: string)
    | Blob(bytes: Bytes)
    | Point(kind: Kind, nanoseconds: int)
    | Period(components: nat, months: int, days: int, nanoseconds: int)

  function NanosPerTick(unit: TimeUnit): nat {
    1_000_000_000 / Ticks(unit)
  }

  function Denoted(s: ScalarValue): Denotation {
    match s
    case BooleanValue(b) => True(b)
    case UInt8Value(v) => Integer(Shape(Unsigned, 8), v % 0x100)
    case UInt16Value(v) => Integer(Shape(Unsigned, 16), v % 0x1_0000)
    case UInt32Value(v) => Integer(Shape(Unsigned, 32), v)
    case UInt64Value(v) => Integer(Shape(Unsigned, 64), v)
    case Int8Value(v) => Integer(Shape(Signed, 8), v % 0x100)
    case Int16Value(v) => Integer(Shape(Signed, 16), v % 0x1_0000)
    case Int32Value(v) => Integer(Shape(Signed, 32), v)
    case Int64Value(v) => Integer(Shape(Signed, 64), v)
    case Float32Value(v) => Real(Shape(Floating, 32), v)
    case Float64Value(v) => Real(Shape(Floating, 64), v)
    case StringValue(v) => Characters(v)
    case BinaryValue(v) => Blob(v)
    case DateValue(v) => Integer(Shape(Day, 32), v)
    case TimestampValue(unit, v) => Point(Instant, v * NanosPerTick(unit))
    case TimeValue(unit, v) => Point(Clock, v * NanosPerTick(unit))
    case IntervalYearMonthValue(m) => Period(1, m, 0, 0)
    case IntervalDayTimeValue(d, m) => Period(2, 0, d, m * 1_000_000)
    case IntervalMonthDayNanoValue(m, d, n) => Period(3, m, d, n)
  }

  /** By the names and widths of the message fields; a narrow integer counts modulo its width. */
  function DenotedPb(p: PbScalar): Denotation {
    match p
    case PbBool(b) => True(b)
    case PbU8(v) => Integer(Shape(Unsigned, 8), v % 0x100)
    case PbU16(v) => Integer(Shape(Unsigned, 16), v % 0x1_0000)
    case PbU32(v) => Integer(Shape(Unsigned, 32), v)
    case PbU64(v) => Integer(Shape(Unsigned, 64), v)
    case PbI8(v) => Integer(Shape(Signed, 8), v % 0x100)
    case PbI16(v) => Integer(Shape(Signed, 16), v % 0x1_0000)
    case PbI32(v) => Integer(Shape(Signed, 32), v)
    case PbI64(v) => Integer(Shape(Signed, 64), v)
    case PbF32(v) => Real(Shape(Floating, 32), v)
    case PbF64(v) => Real(Shape(Floating, 64), v)
    case PbString(v) => Characters(v)
    case PbBinary(v) => Blob(v)
    case PbDate(v) => Integer(Shape(Day, 32), v)
    case PbTimestampSecond(v) => Point(Instant, v * 1_000_000_000)
    case PbTimestampMillisecond(v) => Point(Instant, v * 1_000_000)
    case PbDatetime(v) => Point(Instant, v * 1_000)
    case PbTimestampMicrosecond(v) => Point(Instant, v * 1_000)
    case PbTimestampNanosecond(v) => Point(Instant, v)
    case PbTimeSecond(v) => Point(Clock, v * 1_000_000_000)
    case PbTimeMillisecond(v) => Point(Clock, v * 1_000_000)
    case PbTimeMicrosecond(v) => Point(Clock, v * 1_000)
    case PbTimeNanosecond(v) => Point(Clock, v)
    case PbIntervalYearMonth(m) => Period(1, m, 0, 0)
    case PbIntervalDayTime(x) =>
      var low := x % 0x1_0000_0000;
      Period(2, 0, x / 0x1_0000_0000, (if low < 0x8000_0000 then low else low - 0x1_0000_0000) * 1_000_000)
    case PbIntervalMonthDayNano(m, d, n) => Period(3, m, d, n)
  }

  /** Every scalar message is read as the value it denotes, the old datetime and overwide integers included. */
  lemma ReadAsDenoted(p: PbScalar)
    ensures Denoted(ScalarFromPb(p)) == DenotedPb(p)
  {
    if IsPoint(p) {
      PointsAsDenoted(p);
    } else {
      match p
      case PbI8(v) => ResidueOfCast8(v);
      case PbI16(v) => ResidueOfCast16(v);
      case PbIntervalDayTime(x) => UnpackReads(x);
      case _ =>
    }
  }

  predicate IsPoint(p: PbScalar) {
    || p.PbDatetime?
    || p.PbTimestampSecond? || p.PbTimestampMillisecond? || p.PbTimestampMicrosecond? || p.PbTimestampNanosecond?
    || p.PbTimeSecond? || p.PbTimeMillisecond? || p.PbTimeMicrosecond? || p.PbTimeNanosecond?
  }

  lemma PointsAsDenoted(p: PbScalar)
    requires IsPoint(p)
    ensures Denoted(ScalarFromPb(p)) == DenotedPb(p)
  {
    assert NanosPerTick(Second) == 1_000_000_000 && NanosPerTick(Millisecond) == 1_000_000;
    assert NanosPerTick(Microsecond) == 1_000 && NanosPerTick(Nanosecond) == 1;
  }

  lemma ResidueOfCast8(v: int)
    ensures AsI8(v) % 0x100 == v % 0x100
  {
  }

  lemma ResidueOfCast16(v: int)
    ensures AsI16(v) % 0x1_0000 == v % 0x1_0000
  {
  }

  lemma UnpackReads(x: I64)
    ensures var low := x % 0x1_0000_0000;
      UnpackDayTime(x) == (x / 0x1_0000_0000, if low < 0x8000_0000 then low else low - 0x1_0000_0000)
  {
    var hi, low := x / 0x1_0000_0000, x % 0x1_0000_0000;
    assert x == hi * 0x1_0000_0000 + low && -0x8000_0000 <= hi < 0x8000_0000;
    CastAsIs(hi);
    DivideExact(hi, low);
  }

  /** Every scalar is sent as a message that denotes it, and never as the old datetime. */
  lemma SentAsDenoted(s: ScalarValue)
    ensures DenotedPb(ScalarToPb(s)) == Denoted(s) && !ScalarToPb(s).PbDatetime?
  {
    ScalarRoundTrip(s);
    ReadAsDenoted(ScalarToPb(s));
  }

  /** A nested value cannot be read without the extension of its own sort. */
  lemma NestedNeedsItsExtension(items: seq<PbValue>, ext: Option<P.Extension>)
    ensures !(TypeExtOf(ext).Some? && TypeExtOf(ext).value.ListType?) ==> FromPb(PbList(items), ext).None?
    ensures !(TypeExtOf(ext).Some? && TypeExtOf(ext).value.StructType?) ==> FromPb(PbStruct(items), ext).None?
  {
  }

  /** Items without a field, and fields without an item, are left out of a struct. */
  lemma FieldsAreZipped(ps: seq<PbValue>, fields: seq<P.PbField>)
    ensures var n := if |ps| <= |fields| then |ps| else |fields|;
      && FieldValuesFromPb(ps, fields) == FieldValuesFromPb(ps[..n], fields[..n])
      && (FieldValuesFromPb(ps, fields).Some? ==> |FieldValuesFromPb(ps, fields).value| == n)
  {
    var n := if |ps| <= |fields| then |ps| else |fields|;
    assert ps[..|ps|] == ps && fields[..|fields|] == fields;
    if FieldValuesFromPb(ps[..n], fields[..n]).Some? {
      FieldsRestored(ps[..n], fields[..n], seq(n, _ => NullValue));
    }
  }

  /** Reading a list of wire values gives the expected ones exactly when each item does. */
  lemma {:induction false} ItemsRestored(ps: seq<PbValue>, ext: Option<P.Extension>, vs: seq<Value>)
    requires |ps| == |vs|
    ensures ItemsFromPb(ps, ext) == Some(vs) <==> forall i :: 0 <= i < |ps| ==> FromPb(ps[i], ext) == Some(vs[i])
    ensures ItemsFromPb(ps, ext).Some? ==> |ItemsFromPb(ps, ext).value| == |ps|
  {
    if ps == [] {
    } else {
      var n := |ps| - 1;
      ItemsRestored(ps[..n], ext, vs[..n]);
      assert vs == vs[..n] + [vs[n]];
      if ItemsFromPb(ps, ext).Some? {
        var r := ItemsFromPb(ps, ext).value;
        assert r[..n] == ItemsFromPb(ps[..n], ext).value;
      }
    }
  }

  lemma {:induction false} FieldsRestored(ps: seq<PbValue>, fields: seq<P.PbField>, vs: seq<Value>)
    requires |ps| == |vs| == |fields|
    ensures FieldValuesFromPb(ps, fields) == Some(vs) <==>
            forall i :: 0 <= i < |ps| ==> FromPb(ps[i], fields[i].ty.ext) == Some(vs[i])
    ensures FieldValuesFromPb(ps, fields).Some? ==> |FieldValuesFromPb(ps, fields).value| == |ps|
  {
    if ps == [] {
    } else {
      var n := |ps| - 1;
      FieldsRestored(ps[..n], fields[..n], vs[..n]);
      assert vs == vs[..n] + [vs[n]];
      if FieldValuesFromPb(ps, fields).Some? {
        var r := FieldValuesFromPb(ps, fields).value;
        assert r[..n] == FieldValuesFromPb(ps[..n], fields[..n]).value;
      }
    }
  }

  ghost predicate Restored(v: Value, t: ConcreteType)
    requires ToWire(t).Some? && !HasDuration(v)
  {
    FromPb(ToPb(v), ToWire(t).value.ext) == Some(v)
  }

  lemma ListRestored(items: seq<Value>, itemType: ConcreteType)
    requires ToWire(itemType).Some?
    requires forall i :: 0 <= i < |items| ==> !HasDuration(items[i])
    ensures Restored(ListValue(items, itemType), List(itemType)) <==>
            IsCanonical(itemType) && forall i :: 0 <= i < |items| ==> Restored(items[i], itemType)
  {
    var w, ps := ToWire(itemType).value, ItemsToPb(items);
    ItemTypeRestored(itemType);
    ItemsRestored(ps, w.ext, items);
    ListFromPb(ps, w);
  }

  lemma ItemTypeRestored(t: ConcreteType)
    requires ToWire(t).Some?
    ensures var r := FromWire(ToWire(t).value);
      r.Some? && (r.value == t <==> IsCanonical(t))
  {
    ComesBackCanonical(t);
    CanonicalFixes(t);
  }

  lemma ListFromPb(ps: seq<PbValue>, w: P.Wrapper)
    requires FromWire(w).Some?
    ensures FromPb(PbList(ps), Some(P.Extension(Some(P.ListType(w))))) ==
            if ItemsFromPb(ps, w.ext).None? then None
            else Some(ListValue(ItemsFromPb(ps, w.ext).value, FromWire(w).value))
  {
  }

  lemma {:induction false} FieldsOnWire(fields: seq<StructField>)
    requires FieldsToWire(fields).Some?
    ensures var ws := FieldsToWire(fields).value;
      |ws| == |fields| && forall i :: 0 <= i < |fields| ==> ToWire(fields[i].ty) == Some(ws[i].ty)
  {
    if fields == [] {
    } else {
      var init := fields[..|fields| - 1];
      FieldsOnWire(init);
      assert forall i :: 0 <= i < |init| ==> init[i] == fields[i];
    }
  }

  lemma StructTypeRestored(fields: seq<StructField>)
    requires FieldsToWire(fields).Some?
    ensures var r := FieldsFromWire(FieldsToWire(fields).value);
      r.Some? && (r.value == fields <==> IsCanonical(Struct(fields)))
  {
    ItemTypeRestored(Struct(fields));
    StructFromWire(FieldsToWire(fields).value);
  }

  lemma StructFromWire(ws: seq<P.PbField>)
    ensures FromWire(Extended(P.Struct, P.StructType(ws)).value) ==
            if FieldsFromWire(ws).None? then None else Some(Struct(FieldsFromWire(ws).value))
  {
  }

  lemma StructRestored(items: seq<Value>, fields: seq<StructField>)
    requires FieldsToWire(fields).Some? && |items| == |fields|
    requires forall i :: 0 <= i < |items| ==> !HasDuration(items[i]) && ToWire(fields[i].ty).Some?
    ensures Restored(StructValue(items, fields), Struct(fields)) <==>
            IsCanonical(Struct(fields)) && forall i :: 0 <= i < |items| ==> Restored(items[i], fields[i].ty)
  {
    StructTypeRestored(fields);
    var ws, ps := FieldsToWire(fields).value, ItemsToPb(items);
    FieldsOnWire(fields);
    FieldsRestored(ps, ws, items);
    StructFromPb(ps, ws);
  }

  lemma StructFromPb(ps: seq<PbValue>, ws: seq<P.PbField>)
    requires FieldsFromWire(ws).Some?
    ensures FromPb(PbStruct(ps), Some(P.Extension(Some(P.StructType(ws))))) ==
            if FieldValuesFromPb(ps, ws).None? then None
            else Some(StructValue(FieldValuesFromPb(ps, ws).value, FieldsFromWire(ws).value))
  {
  }

  /**
   For every well-typed value of a type with a wire form: reading the value back
   with the extension of its column type gives the value, with its item and field
   types, exactly when `Survives` holds.
   */
  lemma {:induction false} ValueRoundTrip(v: Value, t: ConcreteType)
    requires WellTyped(v, t) && ToWire(t).Some?
    ensures !HasDuration(v)
    ensures FromPb(ToPb(v), ToWire(t).value.ext) == Some(v) <==> Survives(v, t)
    decreases v
  {
    NoDuration(v, t);
    match v
    case NullValue =>
    case Simple(s) => ScalarRoundTrip(s);
    case Decimal128Value(value, p, s) =>
      JoinOfSplitDecimal(value);
    case JsonValue(json) => W.DecodeEncode(json);
    case ListValue(items, itemType) =>
      if !t.Dictionary? {
        forall i | 0 <= i < |items| ensures Restored(items[i], itemType) <==> Survives(items[i], itemType) {
          ValueRoundTrip(items[i], itemType);
        }
        ListRestored(items, itemType);
      }
    case StructValue(items, fields) =>
      if !t.Dictionary? {
        FieldsFailExactly(fields);
        forall i | 0 <= i < |items| ensures Restored(items[i], fields[i].ty) <==> Survives(items[i], fields[i].ty) {
          ValueRoundTrip(items[i], fields[i].ty);
        }
        StructRestored(items, fields);
      }
  }

  /** A dictionary column says nothing of the decimals in it: they come back with the default precision and scale. */
  lemma DecimalOfDictionary(value: I128, key: ConcreteType, d: Decimal)
    requires ToWire(key).Some?
    ensures var v, t := Decimal128Value(value, d.precision, d.scale), Dictionary(key, Decimal128(d));
      && WellTyped(v, t) && ToWire(t).Some?
      && FromPb(ToPb(v), ToWire(t).value.ext) == Some(Decimal128Value(value, 38, 10))
  {
    JoinOfSplitDecimal(value);
    DictionaryExtension(key, Decimal128(d));
  }

  lemma DictionaryExtension(key: ConcreteType, value: ConcreteType)
    requires ToWire(key).Some? && ToWire(value).Some?
    ensures ToWire(Dictionary(key, value)) ==
            Extended(P.Dictionary, P.DictionaryType(ToWire(key).value, ToWire(value).value))
  {
  }

  /** The type of every list, struct and column involved is in canonical form and no dictionary. */
  predicate PlainType(t: ConcreteType) {
    match t
    case Dictionary(_, _) => false
    case List(item) => PlainType(item)
    case Struct(fields) => IsCanonical(t) && forall i :: 0 <= i < |fields| ==> PlainType(fields[i].ty)
    case _ => IsCanonical(t)
  }

  /** Without dictionaries, every well-typed value of a canonical type survives. */
  lemma {:induction false} PlainValuesSurvive(v: Value, t: ConcreteType)
    requires WellTyped(v, t) && PlainType(t)
    ensures Survives(v, t)
    decreases v
  {
    match v
    case ListValue(items, itemType) =>
      PlainIsCanonical(itemType);
      forall i | 0 <= i < |items| ensures Survives(items[i], itemType) { PlainValuesSurvive(items[i], itemType); }
    case StructValue(items, fields) =>
      forall i | 0 <= i < |items| ensures Survives(items[i], fields[i].ty) {
        PlainValuesSurvive(items[i], fields[i].ty);
      }
    case _ =>
  }

  lemma {:induction false} PlainIsCanonical(t: ConcreteType)
    requires PlainType(t)
    ensures IsCanonical(t)
  {
    if t.List? { PlainIsCanonical(t.item); }
  }

  // ---------- Rows ----------

  /** `vectors_to_rows`: the values of the columns, row by row. */
  method VectorsToRows(columns: seq<seq<Value>>, rowCount: nat) returns (rows: seq<seq<PbValue>>)
    requires forall c :: 0 <= c < |columns| ==> |columns[c]| >= rowCount
    requires forall c, r :: 0 <= c < |columns| && 0 <= r < rowCount ==> !HasDuration(columns[c][r])
    ensures |rows| == rowCount
    ensures forall r :: 0 <= r < rowCount ==> |rows[r]| == |columns|
    ensures forall r, c :: 0 <= r < rowCount && 0 <= c < |columns| ==> rows[r][c] == ToPb(columns[c][r])
  {
    rows := seq(rowCount, _ => []);
    for n := 0 to |columns|
      invariant |rows| == rowCount
      invariant forall r :: 0 <= r < rowCount ==> |rows[r]| == n
      invariant forall r, c :: 0 <= r < rowCount && 0 <= c < n ==> rows[r][c] == ToPb(columns[c][r])
    {
      for i := 0 to rowCount
        invariant |rows| == rowCount
        invariant forall r :: 0 <= r < rowCount ==> |rows[r]| == if r < i then n + 1 else n
        invariant forall r, c :: 0 <= r < rowCount && 0 <= c < |rows[r]| ==> rows[r][c] == ToPb(columns[c][r])
      {
        rows := rows[i := rows[i] + [ToPb(columns[n][i])]];
      }
    }
  }
}

/** `ConcreteDataType`: the column types of the engine. */
module ConcreteTypes {
  import opened Integers
  import J = JsonType

  datatype TimeUnit = Second | Millisecond | Microsecond | Nanosecond
  datatype IntervalUnit = YearMonth | DayTime | MonthDayNano
  datatype StringSize = Utf8 | LargeUtf8 | Utf8View
  datatype BinaryRepr = Plain | View
  datatype JsonFormat = Jsonb | Json2(native: J.NativeType)

  /** Precision and scale; the constructor of the type rejects other combinations. */
  datatype DecimalParams = DecimalParams(precision: int, scale: int)
  predicate ValidDecimal(precision: int, scale: int) {
    0 < precision <= 38 && 0 <= scale <= precision
  }
  type Decimal = d: DecimalParams | ValidDecimal(d.precision, d.scale) witness DecimalParams(1, 0)

  const DEFAULT_DECIMAL: Decimal := DecimalParams(38, 10)

  /** The types that need no further parameters on the wire. */
  datatype ScalarType =
    | Boolean
    | Int8 | Int16 | Int32 | Int64 | UInt8 | UInt16 | UInt32 | UInt64 | Float32 | Float64
    | Binary(repr: BinaryRepr) | String(size: StringSize)
    | Date | Timestamp(unit: TimeUnit) | Time(unit: TimeUnit) | Interval(interval: IntervalUnit)

  /** Ticks in a second. */
  function Ticks(unit: TimeUnit): nat {
    match unit
    case Second => 1
    case Millisecond => 1_000
    case Microsecond => 1_000_000
    case Nanosecond => 1_000_000_000
  }

  /** What sort of value a scalar is, and in how many bits, ticks of a second or components. */
  datatype Kind = Truth | Signed | Unsigned | Floating | Octets | Text | Day | Instant | Clock | Span

  datatype Shape = Shape(kind: Kind, measure: nat)

  function ShapeOf(s: ScalarType): Shape {
    match s
    case Boolean => Shape(Truth, 1)
    case Int8 => Shape(Signed, 8)
    case Int16 => Shape(Signed, 16)
    case Int32 => Shape(Signed, 32)
    case Int64 => Shape(Signed, 64)
    case UInt8 => Shape(Unsigned, 8)
    case UInt16 => Shape(Unsigned, 16)
    case UInt32 => Shape(Unsigned, 32)
    case UInt64 => Shape(Unsigned, 64)
    case Float32 => Shape(Floating, 32)
    case Float64 => Shape(Floating, 64)
    case Binary(_) => Shape(Octets, 8)
    case String(_) => Shape(Text, 8)
    case Date => Shape(Day, 32)
    case Timestamp(unit) => Shape(Instant, Ticks(unit))
    case Time(unit) => Shape(Clock, Ticks(unit))
    case Interval(YearMonth) => Shape(Span, 1)
    case Interval(DayTime) => Shape(Span, 2)
    case Interval(MonthDayNano) => Shape(Span, 3)
  }

  datatype ConcreteType =
    | Null
    | Duration(unit: TimeUnit)
    | Scalar(scalar: ScalarType)
    | Decimal128(decimal: Decimal)
    | List(item: ConcreteType)
    | Dictionary(key: ConcreteType, value: ConcreteType)
    | Struct(fields: seq<StructField>)
    | Json(format: JsonFormat)
    | Vector(dim: U32)

  datatype StructField =
    StructField(name: string, ty: ConcreteType, nullable: bool, metadata: map<string, string>)
}

/** The protobuf column types and their extensions. */
module ProtoTypes {
  import opened Integers
  import opened Option

  datatype ScalarColumn =
    | Boolean | Int8 | Int16 | Int32 | Int64 | Uint8 | Uint16 | Uint32 | Uint64 | Float32 | Float64
    | Binary | String | Date | Datetime
    | TimestampSecond | TimestampMillisecond | TimestampMicrosecond | TimestampNanosecond
    | TimeSecond | TimeMillisecond | TimeMicrosecond | TimeNanosecond
    | IntervalYearMonth | IntervalDayTime | IntervalMonthDayNano

  datatype ColumnDataType = Scalar(scalar: ScalarColumn) | Decimal128 | Json | Vector | List | Struct | Dictionary

  datatype Extension = Extension(typeExt: Option<TypeExt>)

  datatype TypeExt =
    | DecimalType(precision: I32, scale: I32)
    | JsonType
    | JsonNativeType(native: Wrapper)
    | VectorType(dim: U32)
    | ListType(item: Wrapper)
    | StructType(fields: seq<PbField>)
    | DictionaryType(key: Wrapper, value: Wrapper)

  /** A column type together with its optional extension: `ColumnDataTypeWrapper`. */
  datatype Wrapper = Wrapper(datatype_: ColumnDataType, ext: Option<Extension>)

  datatype PbField = PbField(name: string, ty: Wrapper)
}

/**
 Column types on the wire: `TryFrom<ConcreteDataType> for ColumnDataTypeWrapper`
 and `From<ColumnDataTypeWrapper> for ConcreteDataType`, native JSON types included.
 */
module TypeWire {
  import opened Integers
  import opened Option
  import opened ConcreteTypes
  import BTree
  import P = ProtoTypes
  import J = JsonType

  // ---------- Native JSON types as column types ----------

  /** The column type of a native JSON type, by way of its arrow type. */
  function NativeToConcrete(n: J.NativeType): ConcreteType {
    match n
    case Null => Null
    case Bool => Scalar(Boolean)
    case Number(U64) => Scalar(UInt64)
    case Number(I64) => Scalar(Int64)
    case Number(F64) => Scalar(Float64)
    case String => Scalar(String(Utf8View))
    case Array(item) => List(NativeToConcrete(item))
    case Object(fields) =>
      var keys := BTree.Sorted(fields.Keys);
      Struct(seq(|keys|, i requires 0 <= i < |keys| =>
        StructField(keys[i], NativeToConcrete(fields[keys[i]]), true, map[])))
    case Variant => Scalar(Binary(Plain))
  }

  function ScalarToNative(s: ScalarType): Option<J.NativeType> {
    match s
    case Boolean => Some(J.Bool)
    case UInt64 | UInt32 | UInt16 | UInt8 => Some(J.Number(J.U64))
    case Int64 | Int32 | Int16 | Int8 => Some(J.Number(J.I64))
    case Float64 | Float32 => Some(J.Number(J.F64))
    case String(_) => Some(J.String)
    case Binary(_) => Some(J.Variant)
    case _ => None
  }

  /** `JsonNativeType::from`; types it does not expect make it panic, modelled as `None`. */
  function ConcreteToNative(t: ConcreteType): Option<J.NativeType> {
    match t
    case Null => Some(J.Null)
    case Scalar(s) => ScalarToNative(s)
    case List(item) =>
      var n := ConcreteToNative(item);
      if n.None? then None else Some(J.Array(n.value))
    case Struct(fields) =>
      var ns := FieldsToNative(fields);
      if ns.None? then None else Some(J.Object(BTree.Collect(ns.value)))
    case Json(Jsonb) => Some(J.String)
    case Json(Json2(n)) => Some(n)
    case _ => None
  }

  function FieldsToNative(fields: seq<StructField>): Option<seq<(string, J.NativeType)>> {
    if fields == [] then Some([])
    else
      var init, last := FieldsToNative(fields[..|fields| - 1]), fields[|fields| - 1];
      var n := ConcreteToNative(last.ty);
      if init.None? || n.None? then None else Some(init.value + [(last.name, n.value)])
  }

  // ---------- To the wire ----------

  /** A native JSON type occurs somewhere in the type. */
  predicate HasNative(t: ConcreteType) {
    match t
    case List(item) => HasNative(item)
    case Dictionary(key, value) => HasNative(key) || HasNative(value)
    case Struct(fields) => AnyNative(fields)
    case Json(Json2(_)) => true
    case _ => false
  }

  predicate AnyNative(fields: seq<StructField>) {
    exists i :: 0 <= i < |fields| && HasNative(fields[i].ty)
  }

  lemma {:induction false} ConcreteOfNativeHasNone(n: J.NativeType)
    ensures !HasNative(NativeToConcrete(n))
  {
    match n
    case Array(item) => ConcreteOfNativeHasNone(item);
    case Object(fields) =>
      var keys := BTree.Sorted(fields.Keys);
      forall i | 0 <= i < |keys| ensures !HasNative(NativeToConcrete(fields[keys[i]])) {
        ConcreteOfNativeHasNone(fields[keys[i]]);
      }
    case _ =>
  }

  function Extended(datatype_: P.ColumnDataType, ext: P.TypeExt): Option<P.Wrapper> {
    Some(P.Wrapper(datatype_, Some(P.Extension(Some(ext)))))
  }

  function TimestampToWire(unit: TimeUnit): P.ScalarColumn {
    match unit
    case Second => P.TimestampSecond
    case Millisecond => P.TimestampMillisecond
    case Microsecond => P.TimestampMicrosecond
    case Nanosecond => P.TimestampNanosecond
  }

  function TimeToWire(unit: TimeUnit): P.ScalarColumn {
    match unit
    case Second => P.TimeSecond
    case Millisecond => P.TimeMillisecond
    case Microsecond => P.TimeMicrosecond
    case Nanosecond => P.TimeNanosecond
  }

  function IntervalToWire(unit: IntervalUnit): P.ScalarColumn {
    match unit
    case YearMonth => P.IntervalYearMonth
    case DayTime => P.IntervalDayTime
    case MonthDayNano => P.IntervalMonthDayNano
  }

  function ScalarToWire(s: ScalarType): P.ScalarColumn {
    match s
    case Boolean => P.Boolean
    case Int8 => P.Int8
    case Int16 => P.Int16
    case Int32 => P.Int32
    case Int64 => P.Int64
    case UInt8 => P.Uint8
    case UInt16 => P.Uint16
    case UInt32 => P.Uint32
    case UInt64 => P.Uint64
    case Float32 => P.Float32
    case Float64 => P.Float64
    case Binary(_) => P.Binary
    case String(_) => P.String
    case Date => P.Date
    case Timestamp(unit) => TimestampToWire(unit)
    case Time(unit) => TimeToWire(unit)
    case Interval(unit) => IntervalToWire(unit)
  }

  /** `try_from`: the wire form of a type, or `None` for its error. */
  function ToWire(t: ConcreteType): Option<P.Wrapper>
    decreases HasNative(t), t, 1
  {
    match t
    case Scalar(s) => Some(P.Wrapper(P.Scalar(ScalarToWire(s)), None))
    case Decimal128(d) => Extended(P.Decimal128, P.DecimalType(d.precision, d.scale))
    case Json(Jsonb) => Extended(P.Json, P.JsonType)
    case Json(Json2(n)) =>
      if n.Null? then Some(P.Wrapper(P.Json, None))
      else
        ConcreteOfNativeHasNone(n);
        var inner := ToWire(NativeToConcrete(n));
        if inner.None? then None else Extended(P.Json, P.JsonNativeType(inner.value))
    case Vector(dim) => Extended(P.Vector, P.VectorType(dim))
    case List(item) =>
      var inner := ToWire(item);
      if inner.None? then None else Extended(P.List, P.ListType(inner.value))
    case Struct(fields) =>
      var inner := FieldsToWire(fields);
      if inner.None? then None else Extended(P.Struct, P.StructType(inner.value))
    case Dictionary(key, value) =>
      var k, v := ToWire(key), ToWire(value);
      if k.None? || v.None? then None else Extended(P.Dictionary, P.DictionaryType(k.value, v.value))
    case Null | Duration(_) => None
  }

  /** The wire forms of the fields of a struct; one field without a wire form fails all. */
  function FieldsToWire(fields: seq<StructField>): Option<seq<P.PbField>>
    decreases AnyNative(fields), fields, 0
  {
    if fields == [] then Some([])
    else
      var init, last := fields[..|fields| - 1], fields[|fields| - 1];
      assert forall i :: 0 <= i < |init| ==> init[i] == fields[i];
      var ws, w := FieldsToWire(init), ToWire(last.ty);
      if ws.None? || w.None? then None else Some(ws.value + [P.PbField(last.name, w.value)])
  }

  /** The struct branch of `try_from`: a loop over the fields that returns on the first error. */
  method StructToWire(fields: seq<StructField>) returns (r: Option<P.Wrapper>)
    ensures r == ToWire(Struct(fields))
  {
    var pbFields: seq<P.PbField> := [];
    for i := 0 to |fields|
      invariant FieldsToWire(fields[..i]) == Some(pbFields)
    {
      assert fields[..i + 1][..i] == fields[..i];
      var w := ToWire(fields[i].ty);
      if w.None? {
        FieldsFailEarly(fields, i + 1);
        return None;
      }
      pbFields := pbFields + [P.PbField(fields[i].name, w.value)];
    }
    assert fields[..|fields|] == fields;
    r := Extended(P.Struct, P.StructType(pbFields));
  }

  lemma {:induction false} FieldsFailEarly(fields: seq<StructField>, n: nat)
    requires n <= |fields| && FieldsToWire(fields[..n]).None?
    ensures FieldsToWire(fields).None?
    decreases |fields| - n
  {
    if n < |fields| {
      assert fields[..n + 1][..n] == fields[..n];
      FieldsFailEarly(fields, n + 1);
    } else {
      assert fields[..n] == fields;
    }
  }

  // ---------- From the wire ----------

  function TypeExtOf(ext: Option<P.Extension>): Option<P.TypeExt> {
    if ext.None? then None else ext.value.typeExt
  }

  function ScalarFromWire(s: P.ScalarColumn): ScalarType {
    match s
    case Boolean => Boolean
    case Int8 => Int8
    case Int16 => Int16
    case Int32 => Int32
    case Int64 => Int64
    case Uint8 => UInt8
    case Uint16 => UInt16
    case Uint32 => UInt32
    case Uint64 => UInt64
    case Float32 => Float32
    case Float64 => Float64
    case Binary => Binary(Plain)
    case String => String(Utf8)
    case Date => Date
    case Datetime => Timestamp(Microsecond)
    case TimestampSecond => Timestamp(Second)
    case TimestampMillisecond => Timestamp(Millisecond)
    case TimestampMicrosecond => Timestamp(Microsecond)
    case TimestampNanosecond => Timestamp(Nanosecond)
    case TimeSecond => Time(Second)
    case TimeMillisecond => Time(Millisecond)
    case TimeMicrosecond => Time(Microsecond)
    case TimeNanosecond => Time(Nanosecond)
    case IntervalYearMonth => Interval(YearMonth)
    case IntervalDayTime => Interval(DayTime)
    case IntervalMonthDayNano => Interval(MonthDayNano)
  }

  /** `from`: the type a wire form stands for; a panic on malformed extensions is `None`. */
  function FromWire(w: P.Wrapper): Option<ConcreteType> {
    var ext := TypeExtOf(w.ext);
    match w.datatype_
    case Scalar(s) =>
      if s.Binary? && ext.Some? && ext.value.JsonType? then Some(Json(Jsonb)) else Some(Scalar(ScalarFromWire(s)))
    case Json =>
      (match ext
       case None => Some(Json(Json2(J.Null)))
       case Some(JsonType) => Some(Json(Jsonb))
       case Some(JsonNativeType(inner)) =>
         var t := FromWire(inner);
         var n := if t.None? then None else ConcreteToNative(t.value);
         if n.None? then None else Some(Json(Json2(n.value)))
       case Some(_) => Some(Null))
    case Decimal128 =>
      if ext.Some? && ext.value.DecimalType? then
        var p, s := AsU8(ext.value.precision), AsI8(ext.value.scale);
        if ValidDecimal(p, s) then Some(Decimal128(DecimalParams(p, s))) else None
      else Some(Decimal128(DEFAULT_DECIMAL))
    case Vector =>
      if ext.Some? && ext.value.VectorType? then Some(Vector(ext.value.dim)) else Some(Vector(0))
    case List =>
      if ext.Some? && ext.value.ListType? then
        var item := FromWire(ext.value.item);
        if item.None? then None else Some(List(item.value))
      else Some(Null)
    case Struct =>
      if ext.Some? && ext.value.StructType? then
        var fields := FieldsFromWire(ext.value.fields);
        if fields.None? then None else Some(Struct(fields.value))
      else Some(Null)
    case Dictionary =>
      if ext.Some? && ext.value.DictionaryType? then
        var k, v := FromWire(ext.value.key), FromWire(ext.value.value);
        if k.None? || v.None? then None else Some(Dictionary(k.value, v.value))
      else Some(Null)
  }

  function FieldsFromWire(fields: seq<P.PbField>): Option<seq<StructField>> {
    if fields == [] then Some([])
    else
      var init, last := FieldsFromWire(fields[..|fields| - 1]), fields[|fields| - 1];
      var t := FromWire(last.ty);
      if init.None? || t.None? then None else Some(init.value + [StructField(last.name, t.value, true, map[])])
  }

  // ---------- What the wire columns stand for ----------

  /** The shape that the name of a wire column promises; `Datetime` is the old name of microseconds. */
  function ColumnShape(c: P.ScalarColumn): Shape {
    match c
    case Boolean => Shape(Truth, 1)
    case Int8 => Shape(Signed, 8)
    case Int16 => Shape(Signed, 16)
    case Int32 => Shape(Signed, 32)
    case Int64 => Shape(Signed, 64)
    case Uint8 => Shape(Unsigned, 8)
    case Uint16 => Shape(Unsigned, 16)
    case Uint32 => Shape(Unsigned, 32)
    case Uint64 => Shape(Unsigned, 64)
    case Float32 => Shape(Floating, 32)
    case Float64 => Shape(Floating, 64)
    case Binary => Shape(Octets, 8)
    case String => Shape(Text, 8)
    case Date => Shape(Day, 32)
    case TimestampSecond => Shape(Instant, 1)
    case TimestampMillisecond => Shape(Instant, 1_000)
    case TimestampMicrosecond | Datetime => Shape(Instant, 1_000_000)
    case TimestampNanosecond => Shape(Instant, 1_000_000_000)
    case TimeSecond => Shape(Clock, 1)
    case TimeMillisecond => Shape(Clock, 1_000)
    case TimeMicrosecond => Shape(Clock, 1_000_000)
    case TimeNanosecond => Shape(Clock, 1_000_000_000)
    case IntervalYearMonth => Shape(Span, 1)
    case IntervalDayTime => Shape(Span, 2)
    case IntervalMonthDayNano => Shape(Span, 3)
  }

  /** Scalars are sent as columns of their own shape, never under the old name. */
  lemma SentWithItsShape(s: ScalarType)
    ensures ColumnShape(ScalarToWire(s)) == ShapeOf(s) && ScalarToWire(s) != P.Datetime
    ensures ToWire(Scalar(s)) == Some(P.Wrapper(P.Scalar(ScalarToWire(s)), None))
  {
  }

  /** Every scalar column is read as a type of its shape, whatever its extension, except JSON in binary. */
  lemma ReadWithItsShape(c: P.ScalarColumn, ext: Option<P.Extension>)
    ensures ShapeOf(ScalarFromWire(c)) == ColumnShape(c)
    ensures FromWire(P.Wrapper(P.Scalar(c), ext)) ==
            if c.Binary? && TypeExtOf(ext) == Some(P.JsonType) then Some(Json(Jsonb))
            else Some(Scalar(ScalarFromWire(c)))
  {
  }

  /** The extension is of the sort that the column type calls for. */
  predicate OwnExtension(w: P.Wrapper) {
    var ext := TypeExtOf(w.ext);
    ext.Some? &&
    match w.datatype_
    case Decimal128 => ext.value.DecimalType?
    case Json => ext.value.JsonType? || ext.value.JsonNativeType?
    case Vector => ext.value.VectorType?
    case List => ext.value.ListType?
    case Struct => ext.value.StructType?
    case Dictionary => ext.value.DictionaryType?
    case Scalar(_) => false
  }

  /** Without its own extension a column is read as a default of its type, or as the null type. */
  lemma ReadWithoutExtension(w: P.Wrapper)
    requires !OwnExtension(w) && !w.datatype_.Scalar?
    ensures w.datatype_.Decimal128? ==> FromWire(w) == Some(Decimal128(DecimalParams(38, 10)))
    ensures w.datatype_.Vector? ==> FromWire(w) == Some(Vector(0))
    ensures w.datatype_.Json? ==>
      FromWire(w) == Some(if TypeExtOf(w.ext).None? then Json(Json2(J.Null)) else Null)
    ensures w.datatype_.List? || w.datatype_.Struct? || w.datatype_.Dictionary? ==> FromWire(w) == Some(Null)
  {
  }

  /** Precision and scale are cut to eight bits before they are looked at. */
  lemma DecimalExtensionWraps(p: I32, s: I32)
    requires 0 <= p < 0x100 && 0 <= s < 0x80
    ensures FromWire(Extended(P.Decimal128, P.DecimalType(p + 0x100, s - 0x100)).value) ==
            FromWire(Extended(P.Decimal128, P.DecimalType(p, s)).value) ==
            if ValidDecimal(p, s) then Some(Decimal128(DecimalParams(p, s))) else None
  {
    assert AsU8(p + 0x100) == p == AsU8(p) && AsI8(s - 0x100) == s == AsI8(s);
  }

  /** The native type of a scalar goes by its kind; the scalars of a native type have the full width. */
  lemma NativeGoesByKind(s: ScalarType)
    ensures ScalarToNative(s) ==
            match ShapeOf(s).kind
            case Truth => Some(J.Bool)
            case Unsigned => Some(J.Number(J.U64))
            case Signed => Some(J.Number(J.I64))
            case Floating => Some(J.Number(J.F64))
            case Text => Some(J.String)
            case Octets => Some(J.Variant)
            case _ => None
    ensures ConcreteToNative(Json(Jsonb)) == Some(J.String)
  {
  }

  lemma NativeScalars(n: J.NativeType)
    requires n.Bool? || n.Number? || n.String? || n.Variant?
    ensures NativeToConcrete(n).Scalar?
    ensures n.Number? ==> ShapeOf(NativeToConcrete(n).scalar).measure == 64
    ensures n.String? ==> NativeToConcrete(n) == Scalar(String(Utf8View))
    ensures n.Variant? ==> NativeToConcrete(n) == Scalar(Binary(Plain))
    ensures ScalarToNative(NativeToConcrete(n).scalar) == Some(n)
  {
  }

  /** An object is a struct of nullable fields without metadata, in the order of their names. */
  lemma NativeFields(fields: map<string, J.NativeType>)
    ensures var t := NativeToConcrete(J.Object(fields));
      && t.Struct? && |t.fields| == |BTree.Sorted(fields.Keys)|
      && (forall i, j :: 0 <= i < j < |t.fields| ==> BTree.Less(t.fields[i].name, t.fields[j].name))
      && (forall i :: 0 <= i < |t.fields| ==> t.fields[i].nullable && t.fields[i].metadata == map[])
  {
    BTree.SortedIsAscending(fields.Keys);
    var keys, fs := BTree.Sorted(fields.Keys), NativeToConcrete(J.Object(fields)).fields;
    assert forall i :: 0 <= i < |fs| ==> fs[i].name == keys[i];
  }

  // ---------- When a type has a wire form ----------

  /** `Null` occurs in the native type. */
  predicate NativeHasNull(n: J.NativeType) {
    match n
    case Null => true
    case Array(item) => NativeHasNull(item)
    case Object(fields) => exists k :: k in fields && NativeHasNull(fields[k])
    case _ => false
  }

  /** `Null` or `Duration` occurs in the type; a native JSON type that is itself `Null` does not count. */
  predicate HasNullOrDuration(t: ConcreteType) {
    match t
    case Null => true
    case Duration(_) => true
    case List(item) => HasNullOrDuration(item)
    case Dictionary(key, value) => HasNullOrDuration(key) || HasNullOrDuration(value)
    case Struct(fields) => exists i :: 0 <= i < |fields| && HasNullOrDuration(fields[i].ty)
    case Json(Json2(n)) => !n.Null? && NativeHasNull(n)
    case _ => false
  }

  lemma {:induction false} NullOfNative(n: J.NativeType)
    ensures HasNullOrDuration(NativeToConcrete(n)) <==> NativeHasNull(n)
  {
    match n
    case Array(item) => NullOfNative(item);
    case Object(fields) =>
      var keys := BTree.Sorted(fields.Keys);
      forall i | 0 <= i < |keys|
        ensures (HasNullOrDuration(NativeToConcrete(fields[keys[i]])) <==> NativeHasNull(fields[keys[i]]))
      {
        NullOfNative(fields[keys[i]]);
      }
      NullOfNativeObject(fields);
    case _ =>
  }

  lemma NullOfNativeObject(fields: map<string, J.NativeType>)
    requires forall i :: 0 <= i < |BTree.Sorted(fields.Keys)| ==>
      var k := BTree.Sorted(fields.Keys)[i];
      HasNullOrDuration(NativeToConcrete(fields[k])) <==> NativeHasNull(fields[k])
    ensures HasNullOrDuration(NativeToConcrete(J.Object(fields))) <==> NativeHasNull(J.Object(fields))
  {
    var keys := BTree.Sorted(fields.Keys);
    var fs := NativeToConcrete(J.Object(fields)).fields;
    if k :| k in fields && NativeHasNull(fields[k]) {
      var i := BTree.SortedIndex(fields.Keys, k);
      assert HasNullOrDuration(fs[i].ty);
    } else {
      forall i | 0 <= i < |fs| ensures !HasNullOrDuration(fs[i].ty) {
        assert fs[i].ty == NativeToConcrete(fields[keys[i]]);
      }
    }
  }

  /** `try_from` fails exactly on the types in which `Null` or `Duration` occurs. */
  lemma {:induction false} FailsExactly(t: ConcreteType)
    ensures ToWire(t).None? <==> HasNullOrDuration(t)
    decreases HasNative(t), t
  {
    match t
    case List(item) => FailsExactly(item);
    case Dictionary(key, value) =>
      FailsExactly(key);
      FailsExactly(value);
    case Struct(fields) =>
      forall i | 0 <= i < |fields| ensures ToWire(fields[i].ty).None? <==> HasNullOrDuration(fields[i].ty) {
        assert HasNative(fields[i].ty) ==> HasNative(t);
        FailsExactly(fields[i].ty);
      }
      FieldsFailExactly(fields);
    case Json(Json2(n)) =>
      if !n.Null? {
        ConcreteOfNativeHasNone(n);
        FailsExactly(NativeToConcrete(n));
        NullOfNative(n);
      }
    case _ =>
  }

  lemma {:induction false} FieldsFailExactly(fields: seq<StructField>)
    ensures FieldsToWire(fields).None? <==> exists i :: 0 <= i < |fields| && ToWire(fields[i].ty).None?
  {
    if fields == [] {
    } else {
      var init := fields[..|fields| - 1];
      FieldsFailExactly(init);
      assert forall i :: 0 <= i < |init| ==> init[i] == fields[i];
    }
  }

  // ---------- Round trip ----------

  /** What the wire form keeps of a type: neither string and binary layouts nor field nullability and metadata. */
  function Canonical(t: ConcreteType): ConcreteType {
    match t
    case Scalar(s) => Scalar(CanonicalScalar(s))
    case List(item) => List(Canonical(item))
    case Dictionary(key, value) => Dictionary(Canonical(key), Canonical(value))
    case Struct(fields) => Struct(CanonicalFields(fields))
    case _ => t
  }

  function CanonicalScalar(s: ScalarType): ScalarType {
    match s
    case Binary(_) => Binary(Plain)
    case String(_) => String(Utf8)
    case _ => s
  }

  function CanonicalFields(fields: seq<StructField>): (r: seq<StructField>)
    ensures |r| == |fields|
    ensures forall i :: 0 <= i < |r| ==> r[i] == StructField(fields[i].name, Canonical(fields[i].ty), true, map[])
  {
    if fields == [] then []
    else
      var init, last := fields[..|fields| - 1], fields[|fields| - 1];
      CanonicalFields(init) + [StructField(last.name, Canonical(last.ty), true, map[])]
  }

  predicate IsCanonical(t: ConcreteType) {
    match t
    case Scalar(Binary(repr)) => repr == Plain
    case Scalar(String(size)) => size == Utf8
    case List(item) => IsCanonical(item)
    case Dictionary(key, value) => IsCanonical(key) && IsCanonical(value)
    case Struct(fields) =>
      forall i :: 0 <= i < |fields| ==> fields[i].nullable && fields[i].metadata == map[] && IsCanonical(fields[i].ty)
    case _ => true
  }

  lemma {:induction false} CanonicalFixes(t: ConcreteType)
    ensures Canonical(t) == t <==> IsCanonical(t)
  {
    match t
    case List(item) => CanonicalFixes(item);
    case Dictionary(key, value) =>
      CanonicalFixes(key);
      CanonicalFixes(value);
    case Struct(fields) =>
      forall i | 0 <= i < |fields| ensures Canonical(fields[i].ty) == fields[i].ty <==> IsCanonical(fields[i].ty) {
        CanonicalFixes(fields[i].ty);
      }
      if IsCanonical(t) {
        assert Canonical(t).fields == fields;
      } else {
        var i :| 0 <= i < |fields| && !(fields[i].nullable && fields[i].metadata == map[] && IsCanonical(fields[i].ty));
        assert Canonical(t).fields[i] != fields[i];
      }
    case _ =>
  }

  /** A native JSON type survives its detour through a column type, layouts normalised or not. */
  lemma {:induction false} NativeSurvives(n: J.NativeType)
    ensures ConcreteToNative(Canonical(NativeToConcrete(n))) == Some(n)
  {
    match n
    case Array(item) => NativeSurvives(item);
    case Object(fields) =>
      var keys := BTree.Sorted(fields.Keys);
      forall i | 0 <= i < |keys|
        ensures ConcreteToNative(Canonical(NativeToConcrete(fields[keys[i]]))) == Some(fields[keys[i]])
      {
        NativeSurvives(fields[keys[i]]);
      }
      NativeObjectSurvives(fields);
    case _ =>
  }

  lemma NativeObjectSurvives(fields: map<string, J.NativeType>)
    requires forall i :: 0 <= i < |BTree.Sorted(fields.Keys)| ==>
      var k := BTree.Sorted(fields.Keys)[i];
      ConcreteToNative(Canonical(NativeToConcrete(fields[k]))) == Some(fields[k])
    ensures ConcreteToNative(Canonical(NativeToConcrete(J.Object(fields)))) == Some(J.Object(fields))
  {
    var keys := BTree.Sorted(fields.Keys);
    var fs := Canonical(NativeToConcrete(J.Object(fields))).fields;
    forall i | 0 <= i < |keys|
      ensures fs[i].name == keys[i] && ConcreteToNative(fs[i].ty) == Some(fields[keys[i]])
    {
      assert fs[i].ty == Canonical(NativeToConcrete(fields[keys[i]]));
    }
    StructToNative(fs, fields);
  }

  lemma StructToNative(fs: seq<StructField>, m: map<string, J.NativeType>)
    requires |fs| == |BTree.Entries(m)|
    requires forall i :: 0 <= i < |fs| ==>
      fs[i].name == BTree.Entries(m)[i].0 && ConcreteToNative(fs[i].ty) == Some(BTree.Entries(m)[i].1)
    ensures ConcreteToNative(Struct(fs)) == Some(J.Object(m))
  {
    FieldsToNativeIs(fs, BTree.Entries(m));
    BTree.CollectEntries(m);
    StructOfPairs(fs, BTree.Entries(m));
  }

  lemma StructOfPairs(fs: seq<StructField>, pairs: seq<(string, J.NativeType)>)
    requires FieldsToNative(fs) == Some(pairs)
    ensures ConcreteToNative(Struct(fs)) == Some(J.Object(BTree.Collect(pairs)))
  {
  }

  lemma {:induction false} FieldsToNativeIs(fs: seq<StructField>, pairs: seq<(string, J.NativeType)>)
    requires |fs| == |pairs|
    requires forall i :: 0 <= i < |fs| ==> fs[i].name == pairs[i].0 && ConcreteToNative(fs[i].ty) == Some(pairs[i].1)
    ensures FieldsToNative(fs) == Some(pairs)
  {
    if fs == [] {
    } else {
      FieldsToNativeIs(fs[..|fs| - 1], pairs[..|pairs| - 1]);
      assert pairs == pairs[..|pairs| - 1] + [pairs[|pairs| - 1]];
    }
  }

  predicate ComesBack(t: ConcreteType, w: P.Wrapper) {
    FromWire(w) == Some(Canonical(t))
  }

  /** A type with a wire form comes back from it in canonical form. */
  lemma {:induction false} ComesBackCanonical(t: ConcreteType)
    requires ToWire(t).Some?
    ensures ComesBack(t, ToWire(t).value)
    decreases HasNative(t), t
  {
    if t.List? {
      ComesBackCanonical(t.item);
      ListComesBack(t.item);
    } else if t.Dictionary? {
      ComesBackCanonical(t.key);
      ComesBackCanonical(t.value);
      DictionaryComesBack(t.key, t.value);
    } else if t.Struct? {
      FieldsFailExactly(t.fields);
      forall i | 0 <= i < |t.fields|
        ensures ToWire(t.fields[i].ty).Some? && ComesBack(t.fields[i].ty, ToWire(t.fields[i].ty).value)
      {
        assert HasNative(t.fields[i].ty) ==> HasNative(t);
        ComesBackCanonical(t.fields[i].ty);
      }
      StructComesBack(t.fields);
    } else if t.Json? && t.format.Json2? && !t.format.native.Null? {
      ConcreteOfNativeHasNone(t.format.native);
      ComesBackCanonical(NativeToConcrete(t.format.native));
      NativeComesBack(t.format.native);
    } else {
      LeafComesBack(t);
    }
  }

  lemma ListComesBack(item: ConcreteType)
    requires ToWire(item).Some? && ComesBack(item, ToWire(item).value)
    ensures ToWire(List(item)).Some? && ComesBack(List(item), ToWire(List(item)).value)
  {
  }

  lemma StructComesBack(fields: seq<StructField>)
    requires forall i :: 0 <= i < |fields| ==>
      ToWire(fields[i].ty).Some? && ComesBack(fields[i].ty, ToWire(fields[i].ty).value)
    ensures ToWire(Struct(fields)).Some? && ComesBack(Struct(fields), ToWire(Struct(fields)).value)
  {
    FieldsComeBack(fields);
  }

  lemma DictionaryComesBack(key: ConcreteType, value: ConcreteType)
    requires ToWire(key).Some? && ComesBack(key, ToWire(key).value)
    requires ToWire(value).Some? && ComesBack(value, ToWire(value).value)
    ensures ToWire(Dictionary(key, value)).Some?
    ensures ComesBack(Dictionary(key, value), ToWire(Dictionary(key, value)).value)
  {
  }

  lemma NativeComesBack(n: J.NativeType)
    requires !n.Null? && ToWire(NativeToConcrete(n)).Some?
    requires ComesBack(NativeToConcrete(n), ToWire(NativeToConcrete(n)).value)
    ensures ToWire(Json(Json2(n))).Some? && ComesBack(Json(Json2(n)), ToWire(Json(Json2(n))).value)
  {
    NativeSurvives(n);
    var c := NativeToConcrete(n);
    NativeFromWire(ToWire(c).value, Canonical(c), n);
  }

  lemma NativeFromWire(w: P.Wrapper, c: ConcreteType, n: J.NativeType)
    requires FromWire(w) == Some(c) && ConcreteToNative(c) == Some(n)
    ensures FromWire(Extended(P.Json, P.JsonNativeType(w)).value) == Some(Json(Json2(n)))
  {
  }

  lemma LeafComesBack(t: ConcreteType)
    requires ToWire(t).Some?
    requires !t.List? && !t.Dictionary? && !t.Struct? && !(t.Json? && t.format.Json2? && !t.format.native.Null?)
    ensures ComesBack(t, ToWire(t).value)
  {
  }

  lemma {:induction false} FieldsComeBack(fields: seq<StructField>)
    requires forall i :: 0 <= i < |fields| ==>
      ToWire(fields[i].ty).Some? && ComesBack(fields[i].ty, ToWire(fields[i].ty).value)
    ensures FieldsToWire(fields).Some?
    ensures FieldsFromWire(FieldsToWire(fields).value) == Some(CanonicalFields(fields))
  {
    if fields == [] {
    } else {
      var init, last := fields[..|fields| - 1], fields[|fields| - 1];
      assert forall i :: 0 <= i < |init| ==> init[i] == fields[i];
      FieldsComeBack(init);
      var ws := FieldsToWire(fields).value;
      assert ws[..|ws| - 1] == FieldsToWire(init).value;
    }
  }

  /** The conversions undo each other exactly on the canonical types without `Null` and `Duration`. */
  lemma TypeRoundTrip(t: ConcreteType)
    ensures (ToWire(t).Some? && FromWire(ToWire(t).value) == Some(t)) <==> (!HasNullOrDuration(t) && IsCanonical(t))
  {
    FailsExactly(t);
    CanonicalFixes(t);
    if ToWire(t).Some? {
      ComesBackCanonical(t);
    }
  }

  /** Strings of another size come back as plain ones, also inside a list. */
  lemma StringSizeIsLost(size: StringSize)
    requires size != Utf8
    ensures var t := List(Scalar(String(size)));
      ToWire(t).Some? && FromWire(ToWire(t).value) == Some(List(Scalar(String(Utf8)))) && !IsCanonical(t)
  {
    var t := List(Scalar(String(size)));
    FailsExactly(t);
    ComesBackCanonical(t);
  }
}

/** The cell values a row holds (Java `Comparable` objects, or `null`), the
    classes that describe them, and how Java renders them as text. */
module Values {
  import opened JavaLang
  import opened Outcomes

  /** The value classes (`Class<? extends Comparable>`) a header records. */
  datatype ValueClass = IntegerClass | LongClass | BooleanClass | StringClass | CharacterClass

  /** The column implementation classes (`Class<? extends DataColumn>`) a header records. */
  datatype ColumnKind = IntegerColumn | LongColumn | BooleanColumn | StringColumn | CharacterColumn

  /** A cell: `null`, or a boxed `Integer`, `Long`, `Boolean`, `String` or `Character`. */
  datatype Value =
    | VNull
    | VInt(i: Int32)
    | VLong(l: Int64)
    | VBool(b: bool)
    | VStr(s: JString)
    | VChar(c: JChar)

  /** `value.getClass()`; `null` has no class. */
  function ClassOf(v: Value): Option<ValueClass> {
    match v
    case VNull => None
    case VInt(_) => Some(IntegerClass)
    case VLong(_) => Some(LongClass)
    case VBool(_) => Some(BooleanClass)
    case VStr(_) => Some(StringClass)
    case VChar(_) => Some(CharacterClass)
  }

  /** `String.valueOf(value)`, the text `StringBuilder.append(Object)` adds. */
  function Text(v: Value): (r: JString)
    ensures Tab in r ==> (v.VStr? && Tab in v.s) || v == VChar(Tab)
    ensures r == NullText <==> v == VNull || v == VStr(NullText)
  {
    match v
    case VNull => NullText
    case VInt(i) => DecimalText(i)
    case VLong(l) => DecimalText(l)
    case VBool(b) => if b then TrueText else FalseText
    case VStr(s) => s
    case VChar(c) => [c]
  }

  /** True when `Number.class.cast(value)` succeeds with a non-null result. */
  predicate IsNumber(v: Value) {
    v.VInt? || v.VLong?
  }

  /** `Number.class.cast(value).intValue()`, or `None` when that throws. */
  function IntValue(v: Value): (r: Option<Int32>)
    ensures r.Some? <==> IsNumber(v)
    ensures v.VInt? ==> r == Some(v.i)
    ensures v.VLong? && -0x8000_0000 <= v.l < 0x8000_0000 ==> r == Some(v.l)
  {
    match v
    case VInt(i) => Some(i)
    case VLong(l) => Some(IntValueOfLong(l))
    case _ => None
  }
}

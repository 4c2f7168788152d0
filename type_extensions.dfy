/** TypeExtensions.cs: classifying a runtime type as numeric by its type
    code. */
module TypeExtensions {
  import opened Text

  /** `System.TypeCode`. */
  datatype TypeCode =
    | Empty | Object | DBNull | Boolean | Char | SByte | Byte | Int16 | UInt16 | Int32 | UInt32
    | Int64 | UInt64 | Single | Double | Decimal | DateTime | String

  /** A runtime type, as far as `Type.GetTypeCode` and `Nullable` see it: a
      type with its own code, an enumeration (whose code is that of its
      underlying integer type), or `Nullable<T>`. */
  datatype ClrType = Simple(code: TypeCode) | EnumOf(underlying: TypeCode) | NullableOf(inner: ClrType)

  /** `Nullable.GetUnderlyingType(type) ?? type`. */
  function Unwrapped(t: ClrType): ClrType {
    if t.NullableOf? then t.inner else t
  }

  /** `Type.GetTypeCode`; `Nullable<T>` itself is a struct, code `Object`. */
  function GetTypeCode(t: ClrType): TypeCode {
    match t
    case Simple(c) => c
    case EnumOf(u) => u
    case NullableOf(_) => Object
  }

  /** The eleven codes the switch accepts. */
  const NumericCodes: set<TypeCode> :=
    {Int32, Byte, SByte, UInt16, UInt32, UInt64, Int16, Int64, Decimal, Double, Single}

  predicate IsNumericCode(c: TypeCode) {
    c in NumericCodes
  }

  /** `IsNumericType(type)`. */
  predicate IsNumericType(t: ClrType): (r: bool)
    ensures r <==> GetTypeCode(Unwrapped(t)) !in OtherCodes
  {
    NumericOrOther(GetTypeCode(Unwrapped(t)));
    IsNumericCode(GetTypeCode(Unwrapped(t)))
  }

  /** The codes that are not numeric. */
  const OtherCodes: set<TypeCode> := {Empty, Object, DBNull, Boolean, Char, DateTime, String}

  /** Each code is either one of the eleven numeric ones or one of the
      seven others. */
  lemma NumericOrOther(c: TypeCode)
    ensures IsNumericCode(c) <==> c !in OtherCodes
  {
    match c
    case Empty =>
    case Object =>
    case DBNull =>
    case Boolean =>
    case Char =>
    case SByte =>
    case Byte =>
    case Int16 =>
    case UInt16 =>
    case Int32 =>
    case UInt32 =>
    case Int64 =>
    case UInt64 =>
    case Single =>
    case Double =>
    case Decimal =>
    case DateTime =>
    case String =>
  }

  /** `Nullable<T>` is classified as `T`, and the answer depends only on the
      type code after unwrapping. */
  lemma NullableClassifiedAsInner(t: ClrType, u: ClrType)
    requires !t.NullableOf?
    ensures IsNumericType(NullableOf(t)) == IsNumericType(t)
    ensures GetTypeCode(Unwrapped(t)) == GetTypeCode(Unwrapped(u)) ==> IsNumericType(t) == IsNumericType(u)
  {
  }

  /** An enumeration counts as numeric exactly when its underlying type is. */
  lemma EnumClassifiedAsUnderlying(c: TypeCode)
    ensures IsNumericType(EnumOf(c)) == IsNumericType(Simple(c))
    ensures IsNumericType(EnumOf(Int32))
  {
  }
}

/** BooleanExtensions.cs: rendering and defaulting of nullable booleans. */
module BooleanExtensions {
  import opened Wrappers

  /** `ToYesNoString(this bool booleanValue)`. */
  function ToYesNoString(booleanValue: bool): (r: string)
    ensures r == "Yes" || r == "No"
    ensures r == "Yes" <==> booleanValue
  {
    if booleanValue then "Yes" else "No"
  }

  /** `ToYesNoString(this bool? booleanValue)`: null reads as false. */
  function NullableToYesNoString(booleanValue: Option<bool>): (r: string)
    ensures r == "Yes" <==> booleanValue == Some(true)
    ensures r == "No" <==> booleanValue != Some(true)
  {
    ToYesNoString(booleanValue.Some? && booleanValue.value)
  }

  /** `ToBoolean(this bool? nullableBoolean, bool defaultValue = default)`,
      whose default is `false`. */
  function ToBoolean(nullableBoolean: Option<bool>, defaultValue: bool := false): (r: bool)
    ensures nullableBoolean.Some? ==> r == nullableBoolean.value
    ensures nullableBoolean.None? ==> r == defaultValue
  {
    nullableBoolean.GetOr(defaultValue)
  }

  /** The nullable overload is the plain one applied to the value, or to the
      default of `ToBoolean`: null gives "No", and the text always reads
      back as the boolean it came from. */
  lemma YesNoOverloadsAgree(b: Option<bool>)
    ensures NullableToYesNoString(b) == ToYesNoString(ToBoolean(b))
    ensures NullableToYesNoString(None) == "No"
    ensures (NullableToYesNoString(b) == "Yes") == ToBoolean(b)
  {
  }
}

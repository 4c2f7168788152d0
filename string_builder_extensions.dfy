/** StringBuilderExtensions.cs: appending a value with a delimiter. */
module StringBuilderExtensions {
  import opened Wrappers
  import opened Text
  import opened Framework

  /** What the builder holds after `AppendWithDelimiter`. */
  function AppendedWithDelimiter(contents: string, value: Option<string>, delimiter: Option<string>,
                                 skipWhiteSpaceValues: bool): string {
    if skipWhiteSpaceValues && IsNullOrWhiteSpace(value) then contents
    else if |contents| > 0 then contents + delimiter.GetOr("") + value.GetOr("")
    else contents + value.GetOr("")
  }

  /** `AppendWithDelimiter(sb, value, delimiter, skipWhiteSpaceValues)`: the
      delimiter goes in only between an existing text and the value; appending
      null appends nothing. */
  method AppendWithDelimiter(sb: StringBuilder, value: Option<string>, delimiter: Option<string>,
                             skipWhiteSpaceValues: bool) returns (r: StringBuilder)
    modifies sb
    ensures r == sb
    ensures sb.contents == AppendedWithDelimiter(old(sb.contents), value, delimiter, skipWhiteSpaceValues)
  {
    if skipWhiteSpaceValues && IsNullOrWhiteSpace(value) {
      return sb;
    }
    if |sb.contents| > 0 {
      sb.Append(delimiter.GetOr(""));
    }
    sb.Append(value.GetOr(""));
    return sb;
  }

  /** A skipped blank value leaves the text as it was; an empty builder
      receives exactly the value; a non-empty one receives the delimiter and
      the value; the existing text is always kept as a prefix. */
  lemma AppendWithDelimiterCases(contents: string, value: Option<string>, delimiter: Option<string>,
                                 skip: bool)
    ensures var r := AppendedWithDelimiter(contents, value, delimiter, skip);
            && (skip && IsNullOrWhiteSpace(value) ==> r == contents)
            && (!(skip && IsNullOrWhiteSpace(value)) && contents == [] ==> r == value.GetOr(""))
            && (!(skip && IsNullOrWhiteSpace(value)) && contents != [] ==>
                  r == contents + delimiter.GetOr("") + value.GetOr(""))
            && StartsWith(r, contents)
  {
    var r := AppendedWithDelimiter(contents, value, delimiter, skip);
    if contents == [] {
      assert contents + value.GetOr("") == value.GetOr("");
    }
    assert r[..|contents|] == contents;
  }

  /** Joining a list of values by successive appends to an empty builder,
      without skipping, gives `string.Join`. */
  function AppendAll(contents: string, values: seq<string>, delimiter: string): string
    decreases |values|
  {
    if values == [] then contents
    else AppendedWithDelimiter(AppendAll(contents, values[..|values| - 1], delimiter), Some(values[|values| - 1]), Some(delimiter), false)
  }

  lemma {:induction false} AppendAllIsJoin(values: seq<string>, delimiter: string)
    requires forall i :: 0 <= i < |values| ==> values[i] != []
    ensures AppendAll("", values, delimiter) == Join(delimiter, values)
    decreases |values|
  {
    if values != [] {
      var init := values[..|values| - 1];
      AppendAllIsJoin(init, delimiter);
      if |values| > 1 {
        JoinStartsWithFirst(delimiter, init);
      }
    }
  }
}

/** ApiHelper.cs: path joining and form-style query building. */
module ApiHelper {
  import opened Wrappers
  import opened Text
  import opened Framework

  /** `AppendToPath(path1, path2, separator)`: null reads as empty; the left
      part loses its trailing spaces and separators, the right part its
      leading ones, and one separator joins them. */
  function AppendToPath(path1: Option<string>, path2: Option<string>, separator: char): (r: string)
    ensures var left := LeftPart(path1, separator);
            var right := RightPart(path2, separator);
            && r == left + [separator] + right
            && r[|left|] == separator
            && (left != [] ==> r[|left| - 1] != separator)
            && (right != [] ==> r[|left| + 1] != separator)
  {
    LeftPart(path1, separator) + [separator] + RightPart(path2, separator)
  }

  /** `(path1 ?? "").Trim().TrimEnd(' ', separator)`. */
  function LeftPart(path1: Option<string>, separator: char): (p: string)
    ensures p != [] ==> p[|p| - 1] != ' ' && p[|p| - 1] != separator
    ensures StartsWith(Trim(path1.GetOr("")), p)
  {
    TrimEndBy(Trim(path1.GetOr("")), c => c == ' ' || c == separator)
  }

  /** `(path2 ?? "").Trim().TrimStart(' ', separator)`. */
  function RightPart(path2: Option<string>, separator: char): (p: string)
    ensures p != [] ==> p[0] != ' ' && p[0] != separator
    ensures EndsWith(Trim(path2.GetOr("")), p)
  {
    TrimStartBy(Trim(path2.GetOr("")), c => c == ' ' || c == separator)
  }

  /** Two null or blank paths give the separator alone. */
  lemma AppendToPathBlank(path1: Option<string>, path2: Option<string>, separator: char)
    requires IsNullOrWhiteSpace(path1) && IsNullOrWhiteSpace(path2)
    ensures AppendToPath(path1, path2, separator) == [separator]
  {
    LeftBlank(path1, separator);
    RightBlank(path2, separator);
    JoinBlank(LeftPart(path1, separator), RightPart(path2, separator), separator);
  }

  lemma JoinBlank(left: string, right: string, separator: char)
    requires left == [] && right == []
    ensures left + [separator] + right == [separator]
  {
  }

  lemma LeftBlank(path1: Option<string>, separator: char)
    requires IsNullOrWhiteSpace(path1)
    ensures LeftPart(path1, separator) == []
  {
    TrimEmptyIff(path1.GetOr(""));
    var p := LeftPart(path1, separator);
    assert StartsWith(Trim(path1.GetOr("")), p);
  }

  lemma RightBlank(path2: Option<string>, separator: char)
    requires IsNullOrWhiteSpace(path2)
    ensures RightPart(path2, separator) == []
  {
    TrimEmptyIff(path2.GetOr(""));
    var p := RightPart(path2, separator);
    assert EndsWith(Trim(path2.GetOr("")), p);
  }

  /** The text `$"{HttpUtility.UrlEncode(x)}"` renders: a null argument is
      encoded as null, which renders as nothing. */
  function Encoded(x: Option<string>, urlEncode: string -> string): string {
    if x.None? then "" else urlEncode(x.value)
  }

  /** `AppendUrlEncoded(sb, name, value, encoding)`: `urlEncode` is
      `HttpUtility.UrlEncode` with the chosen encoding. */
  method AppendUrlEncoded(sb: StringBuilder, name: Option<string>, value: Option<string>, urlEncode: string -> string)
    modifies sb
    ensures old(sb.contents) != [] ==>
              sb.contents == old(sb.contents) + "&" + Encoded(name, urlEncode) + "=" + Encoded(value, urlEncode)
    ensures old(sb.contents) == [] ==>
              sb.contents == Encoded(name, urlEncode) + "=" + Encoded(value, urlEncode)
  {
    if |sb.contents| != 0 {
      sb.Append("&");
    }
    sb.Append(Encoded(name, urlEncode) + "=" + Encoded(value, urlEncode));
  }
}

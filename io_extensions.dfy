/** IOExtensions.cs: joining two paths with a single backslash. */
module IOExtensions {
  import opened Wrappers
  import opened Text

  const PathSeparator: char := '\\'

  predicate IsPathSeparator(c: char) { c == PathSeparator }

  /** `(path1 ?? "").Trim().TrimEnd('\\')`: spaces before the stripped
      backslashes stay. */
  function LeftPart(path1: Option<string>): (p: string)
    ensures p != [] ==> p[|p| - 1] != PathSeparator
    ensures StartsWith(Trim(path1.GetOr("")), p)
  {
    TrimEndBy(Trim(path1.GetOr("")), IsPathSeparator)
  }

  /** `(path2 ?? "").Trim().TrimStart('\\')`. */
  function RightPart(path2: Option<string>): (p: string)
    ensures p != [] ==> p[0] != PathSeparator
    ensures EndsWith(Trim(path2.GetOr("")), p)
  {
    TrimStartBy(Trim(path2.GetOr("")), IsPathSeparator)
  }

  /** `CombinePaths(path1, path2)`. */
  function CombinePaths(path1: Option<string>, path2: Option<string>): (r: string)
    ensures r == LeftPart(path1) + [PathSeparator] + RightPart(path2)
    ensures r[|LeftPart(path1)|] == PathSeparator
    ensures |LeftPart(path1)| > 0 ==> r[|LeftPart(path1)| - 1] != PathSeparator
    ensures |LeftPart(path1)| + 1 < |r| ==> r[|LeftPart(path1)| + 1] != PathSeparator
  {
    LeftPart(path1) + [PathSeparator] + RightPart(path2)
  }

  /** Null or blank on both sides gives a lone backslash; null and "" are alike. */
  lemma CombinePathsBlank(path1: Option<string>, path2: Option<string>)
    requires IsNullOrWhiteSpace(path1) && IsNullOrWhiteSpace(path2)
    ensures CombinePaths(path1, path2) == "\\"
  {
    TrimEmptyIff(path1.GetOr(""));
    TrimEmptyIff(path2.GetOr(""));
  }
}

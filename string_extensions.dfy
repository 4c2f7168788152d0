/** StringExtensions.cs: string helpers. A C# `null` string is `None`; a call
    that throws is an `Err` naming the exception. */
module StringExtensions {
  import opened Wrappers
  import opened Text

  // ---------------------------------------------------------------------------
  // Comparison, null and blank handling
  // ---------------------------------------------------------------------------

  /** `IsSameAs`: both sides, null read as empty, compared after `Trim` and `ToLower`. */
  function IsSameAs(source: Option<string>, compareTo: Option<string>): (r: bool)
    ensures r <==> EqualsIgnoreCase(Trim(source.GetOr("")), Trim(compareTo.GetOr("")))
    ensures r ==> |Trim(source.GetOr(""))| == |Trim(compareTo.GetOr(""))|
  {
    LowerUpperAgree(Trim(source.GetOr("")), Trim(compareTo.GetOr("")));
    Lower(Trim(source.GetOr(""))) == Lower(Trim(compareTo.GetOr("")))
  }

  /** `IsSameAs` treats null, the empty string and every blank string alike. */
  lemma IsSameAsNullIsBlank(compareTo: Option<string>)
    ensures IsSameAs(None, compareTo) <==> IsNullOrWhiteSpace(compareTo)
  {
    var t := Trim(compareTo.GetOr(""));
    TrimEmptyIff(compareTo.GetOr(""));
    assert |Lower(t)| == |t|;
  }

  /** `IsSameAs` is symmetric and reflexive, so it is an equivalence. */
  lemma IsSameAsEquivalence(a: Option<string>, b: Option<string>, c: Option<string>)
    ensures IsSameAs(a, a)
    ensures IsSameAs(a, b) == IsSameAs(b, a)
    ensures IsSameAs(a, b) && IsSameAs(b, c) ==> IsSameAs(a, c)
  {
  }

  /** `ToEmptyIfNullOrWhitespace`. */
  function ToEmptyIfNullOrWhitespace(str: Option<string>): (r: string)
    ensures IsNullOrWhiteSpace(str) ==> r == ""
    ensures !IsNullOrWhiteSpace(str) ==> r == str.value
  {
    if IsNullOrWhiteSpace(str) then "" else str.value
  }

  /** `ToNullIfEmptyOrWhitespace`: trims, then maps a blank result to null. */
  function ToNullIfEmptyOrWhitespace(str: Option<string>): (r: Option<string>)
    ensures r.None? <==> IsNullOrWhiteSpace(str)
    ensures r.Some? ==> r.value == Trim(str.value) && r.value != []
    ensures r.Some? ==> !IsWhiteSpace(r.value[0]) && !IsWhiteSpace(r.value[|r.value| - 1])
  {
    match str
    case None => None
    case Some(s) =>
      TrimEmptyIff(s);
      var t := Trim(s);
      if AllWhiteSpace(t) then None else Some(t)
  }

  /** `ReplaceIfNullOrWhitespace`. */
  function ReplaceIfNullOrWhitespace(str: Option<string>, nullReplacement: Option<string>): (r: Option<string>)
    ensures IsNullOrWhiteSpace(str) ==> r == nullReplacement
    ensures !IsNullOrWhiteSpace(str) ==> r == str
  {
    if IsNullOrWhiteSpace(str) then nullReplacement else str
  }

  /** `HasValue`: the negation of `IsNullOrWhiteSpace`. */
  function HasValue(s: Option<string>): (r: bool)
    ensures r <==> s.Some? && exists i :: 0 <= i < |s.value| && !IsWhiteSpace(s.value[i])
  {
    !IsNullOrWhiteSpace(s)
  }

  /** `IsNumeric`: every character is a decimal digit (vacuously true of ""). */
  function IsNumeric(str: string): (r: bool)
    ensures r <==> forall i :: 0 <= i < |str| ==> '0' <= str[i] <= '9'
  {
    forall i :: 0 <= i < |str| ==> IsDigit(str[i])
  }

  /** The decimal rendering of every natural number is numeric and reads back
      as that number. */
  lemma IsNumericReadsBack(n: nat)
    ensures IsNumeric(NatToString(n))
    ensures ParseNat(NatToString(n)) == n
  {
    ParseNatToString(n);
  }

  // ---------------------------------------------------------------------------
  // Prefixes, suffixes and slices
  // ---------------------------------------------------------------------------

  /** The two comparisons the model supports. */
  datatype StringComparison = Ordinal | OrdinalIgnoreCase

  predicate SameText(comparison: StringComparison, a: string, b: string) {
    match comparison
    case Ordinal => a == b
    case OrdinalIgnoreCase => EqualsIgnoreCase(a, b)
  }

  predicate StartsWithUnder(comparison: StringComparison, s: string, prefix: string) {
    |prefix| <= |s| && SameText(comparison, s[..|prefix|], prefix)
  }

  predicate EndsWithUnder(comparison: StringComparison, s: string, suffix: string) {
    |suffix| <= |s| && SameText(comparison, s[|s| - |suffix|..], suffix)
  }

  /** `TrimStart(source, trimString, comparisonType)`: removes ONE leading occurrence. */
  function TrimStart(source: Option<string>, trimString: Option<string>, comparison: StringComparison): (r: Option<string>)
    ensures source.None? || trimString.None? ==> r == source
    ensures source.Some? && trimString.Some? ==> r.Some? && EndsWith(source.value, r.value)
    ensures source.Some? && trimString.Some? && StartsWithUnder(comparison, source.value, trimString.value) ==>
              source.value == source.value[..|trimString.value|] + r.value
    ensures source.Some? && trimString.Some? && !StartsWithUnder(comparison, source.value, trimString.value) ==>
              r == source
  {
    if source.None? || trimString.None? then source
    else if StartsWithUnder(comparison, source.value, trimString.value) then Some(source.value[|trimString.value|..])
    else source
  }

  /** Only one occurrence goes: a source that starts with the trim string
      twice keeps the second copy, under either comparison. */
  lemma TrimStartRemovesOnce(trimString: string, rest: string, comparison: StringComparison)
    ensures TrimStart(Some(trimString + trimString + rest), Some(trimString), comparison)
            == Some(trimString + rest)
  {
    var source := trimString + trimString + rest;
    assert source[..|trimString|] == trimString;
    assert source[|trimString|..] == trimString + rest;
  }

  /** `TrimEnd(input, suffixToRemove, comparisonType)`: removes ONE trailing occurrence. */
  function TrimEnd(input: Option<string>, suffixToRemove: Option<string>, comparison: StringComparison): (r: Option<string>)
    ensures input.None? || suffixToRemove.None? ==> r == input
    ensures input.Some? && suffixToRemove.Some? ==> r.Some? && StartsWith(input.value, r.value)
    ensures input.Some? && suffixToRemove.Some? && EndsWithUnder(comparison, input.value, suffixToRemove.value) ==>
              input.value == r.value + input.value[|r.value|..] && |r.value| == |input.value| - |suffixToRemove.value|
    ensures input.Some? && suffixToRemove.Some? && !EndsWithUnder(comparison, input.value, suffixToRemove.value) ==>
              r == input
  {
    if input.Some? && suffixToRemove.Some? && EndsWithUnder(comparison, input.value, suffixToRemove.value)
    then Some(input.value[..|input.value| - |suffixToRemove.value|])
    else input
  }

  /** `Left(str, length)`. `Substring(0, length)` throws for a negative length. */
  function Left(str: Option<string>, length: int): (r: Result<Option<string>>)
    ensures IsNullOrEmpty(str) || |str.value| < length ==> r == Ok(str)
    ensures !IsNullOrEmpty(str) && 0 <= length <= |str.value| ==>
              r.Ok? && r.value.Some? && |r.value.value| == length && StartsWith(str.value, r.value.value)
    ensures r.Err? <==> !IsNullOrEmpty(str) && length < 0
  {
    if !IsNullOrEmpty(str) && |str.value| >= length then
      if length < 0 then Err(ArgumentOutOfRange) else Ok(Some(str.value[..length]))
    else Ok(str)
  }

  /** `Right(str, length)`. `Substring(|str| - length)` throws for a negative length. */
  function Right(str: Option<string>, length: int): (r: Result<Option<string>>)
    ensures IsNullOrEmpty(str) || |str.value| < length ==> r == Ok(str)
    ensures !IsNullOrEmpty(str) && 0 <= length <= |str.value| ==>
              r.Ok? && r.value.Some? && |r.value.value| == length && EndsWith(str.value, r.value.value)
    ensures r.Err? <==> !IsNullOrEmpty(str) && length < 0
  {
    if !IsNullOrEmpty(str) && |str.value| >= length then
      if length < 0 then Err(ArgumentOutOfRange) else Ok(Some(str.value[|str.value| - length..]))
    else Ok(str)
  }

  /** `Left(k)` and `Right(|s| - k)` split a non-empty string in two. */
  lemma LeftRightSplit(s: string, k: nat)
    requires s != [] && k <= |s|
    ensures Left(Some(s), k).value.value + Right(Some(s), |s| - k).value.value == s
  {
  }

  /** `Reduce(s, maxFinalLength, endings)`: cut to `maxFinalLength` characters,
      the last of which are `endings`; `Substring` throws when `endings` does
      not fit. */
  function Reduce(s: string, maxFinalLength: int, endings: Option<string>): (r: Result<string>)
    ensures maxFinalLength > |s| || IsNullOrEmpty(endings) ==> r == Ok(s)
    ensures !IsNullOrEmpty(endings) && |endings.value| <= maxFinalLength <= |s| ==>
              r.Ok? && |r.value| == maxFinalLength && EndsWith(r.value, endings.value)
              && r.value[..maxFinalLength - |endings.value|] == s[..maxFinalLength - |endings.value|]
    ensures r.Err? <==> !IsNullOrEmpty(endings) && maxFinalLength <= |s| && maxFinalLength < |endings.value|
  {
    if maxFinalLength > |s| || IsNullOrEmpty(endings) then Ok(s)
    else
      var keep := maxFinalLength - |endings.value|;
      if keep < 0 then Err(ArgumentOutOfRange) else Ok(s[..keep] + endings.value)
  }

  /** The default ending is "...". */
  const DefaultEndings: string := "..."

  // ---------------------------------------------------------------------------
  // Character replacement
  // ---------------------------------------------------------------------------

  /** `CapitalizeFirstLetter`: a blank string is returned as is; otherwise the
      first character is upper-cased and the rest kept. */
  function CapitalizeFirstLetter(s: Option<string>): (r: Option<string>)
    ensures IsNullOrWhiteSpace(s) ==> r == s
    ensures !IsNullOrWhiteSpace(s) ==>
              (r.Some? && |r.value| == |s.value| && r.value[0] == ToUpper(s.value[0]) && r.value[1..] == s.value[1..])
  {
    if IsNullOrWhiteSpace(s) then s
    else
      var first := Upper(s.value[..1]);
      if |s.value| > 1 then Some(first + s.value[1..]) else Some(first)
  }

  /** `UppercaseFirstLetter`: only null and "" are returned as is. */
  function UppercaseFirstLetter(str: Option<string>): (r: Option<string>)
    ensures IsNullOrEmpty(str) ==> r == str
    ensures !IsNullOrEmpty(str) ==>
              (r.Some? && |r.value| == |str.value| && r.value[0] == ToUpper(str.value[0]) && r.value[1..] == str.value[1..])
  {
    if IsNullOrEmpty(str) then str else Some(str.value[0 := ToUpper(str.value[0])])
  }

  /** The two capitalisers agree everywhere: on a blank string upper-casing the
      first character changes nothing. */
  lemma CapitalizeAgreesWithUppercase(s: Option<string>)
    ensures CapitalizeFirstLetter(s) == UppercaseFirstLetter(s)
  {
    if s.Some? && s.value != [] {
      var a, b := CapitalizeFirstLetter(s).value, UppercaseFirstLetter(s).value;
      if IsNullOrWhiteSpace(s) {
        assert ToUpper(s.value[0]) == s.value[0];
        assert b == s.value;
      } else {
        assert a == [a[0]] + a[1..];
        assert b == [b[0]] + b[1..];
      }
    }
  }

  /** `ReplaceCharacterAtIndexPosition(char[], index, chr)`: a null or empty array
      yields a fresh empty array; an index out of range leaves the array
      untouched; otherwise cell `index` is overwritten in place. */
  method ReplaceCharacterAtIndexPositionInPlace(charArray: array?<char>, index: int, chr: char) returns (r: array<char>)
    modifies charArray
    ensures charArray == null || charArray.Length == 0 ==> fresh(r) && r.Length == 0
    ensures charArray != null && charArray.Length > 0 ==> r == charArray
    ensures charArray != null && (index < 0 || index >= charArray.Length) ==> charArray[..] == old(charArray[..])
    ensures charArray != null && 0 <= index < charArray.Length ==>
              charArray[..] == old(charArray[..])[index := chr]
  {
    if charArray == null || charArray.Length == 0 {
      r := new char[0];
      return;
    }
    if index < 0 || index >= charArray.Length {
      r := charArray;
      return;
    }
    charArray[index] := chr;
    r := charArray;
  }

  /** `ReplaceCharacterAtIndexPosition(string, index, chr)`: copies the string
      into a fresh array, overwrites one cell there, and builds a new string. */
  method ReplaceCharacterAtIndexPosition(s: Option<string>, index: int, chr: char) returns (r: Option<string>)
    ensures IsNullOrEmpty(s) || index < 0 || index >= |s.value| ==> r == s
    ensures !IsNullOrEmpty(s) && 0 <= index < |s.value| ==>
              r.Some? && |r.value| == |s.value| && r.value[index] == chr
              && forall j :: 0 <= j < |s.value| && j != index ==> r.value[j] == s.value[j]
  {
    if IsNullOrEmpty(s) || index < 0 {
      return s;
    }
    var c := new char[|s.value|](i requires 0 <= i < |s.value| => s.value[i]);
    assert c[..] == s.value;
    c := ReplaceCharacterAtIndexPositionInPlace(c, index, chr);
    r := Some(c[..]);
  }

  /** `ReplaceCharacterAt`: null or "" gives ""; an index outside the string
      makes the array store throw. */
  function ReplaceCharacterAt(input: Option<string>, index: int, newChar: char): (r: Result<string>)
    ensures IsNullOrEmpty(input) ==> r == Ok("")
    ensures !IsNullOrEmpty(input) ==> (r.Err? <==> index < 0 || index >= |input.value|)
    ensures r.Ok? && !IsNullOrEmpty(input) ==>
              |r.value| == |input.value| && r.value[index] == newChar
              && forall j :: 0 <= j < |r.value| && j != index ==> r.value[j] == input.value[j]
  {
    if IsNullOrEmpty(input) then Ok("")
    else if index < 0 || index >= |input.value| then Err(IndexOutOfRange)
    else Ok(input.value[index := newChar])
  }

  /** `ReplaceAllCharacters`: a string of the same length made only of one character. */
  function ReplaceAllCharacters(s: Option<string>, characterToReplaceWith: char): (r: string)
    ensures IsNullOrEmpty(s) ==> r == ""
    ensures !IsNullOrEmpty(s) ==> |r| == |s.value|
    ensures forall i :: 0 <= i < |r| ==> r[i] == characterToReplaceWith
  {
    if IsNullOrEmpty(s) then "" else PadLeft("", |s.value|, characterToReplaceWith)
  }

  /** `ReverseString`. */
  function ReverseString(s: string): (r: string)
    ensures |r| == |s|
    ensures forall i :: 0 <= i < |s| ==> r[i] == s[|s| - 1 - i]
  {
    seq(|s|, i requires 0 <= i < |s| => s[|s| - 1 - i])
  }

  /** Reversing twice gives back the string. */
  lemma ReverseStringInvolution(s: string)
    ensures ReverseString(ReverseString(s)) == s
  {
  }

  // ---------------------------------------------------------------------------
  // Filters
  // ---------------------------------------------------------------------------

  predicate NotWhiteSpace(c: char) { !IsWhiteSpace(c) }

  /** `RemoveWhiteSpace`: compacts the characters that are not white space to
      the front of the string's own character array, then takes that prefix. */
  method RemoveWhiteSpace(input: Option<string>) returns (r: Option<string>)
    ensures input.None? ==> r.None?
    ensures input.Some? ==> r == Some(Filter(input.value, NotWhiteSpace))
  {
    if input.None? {
      return None;
    }
    var s := input.value;
    var src := new char[|s|](i requires 0 <= i < |s| => s[i]);
    var index: nat := 0;
    for i := 0 to |s|
      invariant index <= i
      invariant src[..index] == Filter(s[..i], NotWhiteSpace)
      invariant src[i..] == s[i..]
    {
      index := CompactOne(src, s, index, i);
    }
    assert s[..|s|] == s;
    r := Some(src[..index]);
  }

  /** One step of `RemoveWhiteSpace`'s loop: character `i` is moved to
      position `index` unless it is white space. */
  method CompactOne(src: array<char>, s: string, index: nat, i: nat) returns (next: nat)
    requires src.Length == |s| && index <= i < |s|
    requires src[..index] == Filter(s[..i], NotWhiteSpace) && src[i..] == s[i..]
    modifies src
    ensures next <= i + 1
    ensures src[..next] == Filter(s[..i + 1], NotWhiteSpace) && src[i + 1..] == s[i + 1..]
  {
    FilterPrefixStep(s, NotWhiteSpace, i);
    assert src[i] == s[i];
    next := index;
    if !IsWhiteSpace(src[i]) {
      src[index] := src[i];
      next := index + 1;
    }
  }

  /** What `RemoveWhiteSpace` keeps: no white space is left, every other
      character stays, and a second application changes nothing. */
  lemma RemoveWhiteSpaceProperties(s: string, c: char)
    ensures forall i :: 0 <= i < |Filter(s, NotWhiteSpace)| ==> !IsWhiteSpace(Filter(s, NotWhiteSpace)[i])
    ensures c in Filter(s, NotWhiteSpace) <==> c in s && !IsWhiteSpace(c)
    ensures Filter(Filter(s, NotWhiteSpace), NotWhiteSpace) == Filter(s, NotWhiteSpace)
  {
    FilterMembership(s, NotWhiteSpace, c);
    FilterIdempotent(s, NotWhiteSpace);
  }

  predicate NotControl(c: char) { !IsControl(c) }

  /** `RemoveControlCharacters`: the non-control characters, in order. */
  function RemoveControlCharacters(s: Option<string>): (r: Option<string>)
    ensures r.None? <==> s.None?
    ensures r.Some? ==> forall i :: 0 <= i < |r.value| ==> !IsControl(r.value[i])
    ensures r.Some? ==> r.value == Filter(s.value, NotControl)
  {
    match s
    case None => None
    case Some(v) => Some(Filter(v, NotControl))
  }

  /** `RemoveNonAsciiCharacters`: every run of characters outside `[ -~]` is
      replaced by nothing. */
  function RemoveNonAsciiCharacters(s: Option<string>): (r: Option<string>)
    ensures r.None? <==> s.None?
    ensures r.Some? ==> forall i :: 0 <= i < |r.value| ==> IsPrintableAscii(r.value[i])
    ensures r.Some? ==> r.value == Filter(s.value, IsPrintableAscii)
  {
    match s
    case None => None
    case Some(v) => Some(Filter(v, IsPrintableAscii))
  }

  /** Printable ASCII input comes back unchanged, so the filter is idempotent,
      and a character survives exactly when it is printable ASCII. */
  lemma RemoveNonAsciiCharactersKeeps(s: string, c: char)
    ensures (forall i :: 0 <= i < |s| ==> IsPrintableAscii(s[i])) ==> RemoveNonAsciiCharacters(Some(s)) == Some(s)
    ensures c in RemoveNonAsciiCharacters(Some(s)).value <==> c in s && IsPrintableAscii(c)
  {
    if forall i :: 0 <= i < |s| ==> IsPrintableAscii(s[i]) {
      FilterAllKept(s, IsPrintableAscii);
    }
    FilterMembership(s, IsPrintableAscii, c);
  }

  // ---------------------------------------------------------------------------
  // Splitting, words and HTML
  // ---------------------------------------------------------------------------

  /** The separators of `Split` in StripHTML and CountWords. */
  const SpaceDelimiters: set<char> := {' ', '\r', '\n', '\t'}

  function TrimEach(ws: seq<string>): (r: seq<string>)
    ensures |r| == |ws|
  {
    Map(ws, Trim)
  }

  predicate NotBlank(w: string) { !AllWhiteSpace(w) }

  /** The words of `s`: split on the delimiters, blank pieces dropped, each piece trimmed. */
  function TrimmedWords(s: string, delims: set<char>): seq<string> {
    TrimEach(Filter(Words(s, delims), NotBlank))
  }

  /** Every trimmed word is non-empty, has no delimiter, and is trimmed. */
  lemma {:induction false} TrimmedWordsShape(s: string, delims: set<char>)
    ensures forall k :: 0 <= k < |TrimmedWords(s, delims)| ==> WordShape(TrimmedWords(s, delims)[k], delims)
  {
    var ws := Filter(Words(s, delims), NotBlank);
    forall k | 0 <= k < |ws|
      ensures WordShape(Trim(ws[k]), delims)
    {
      var w := ws[k];
      FilterMembership(Words(s, delims), NotBlank, w);
      TrimEmptyIff(w);
      TrimIsSlice(w);
    }
  }

  /** A word as the splitters yield it: non-empty, trimmed, free of delimiters. */
  predicate WordShape(w: string, delims: set<char>) {
    && w != []
    && !IsWhiteSpace(w[0]) && !IsWhiteSpace(w[|w| - 1])
    && forall j :: 0 <= j < |w| ==> w[j] !in delims
  }

  /** `SplitOnCharacterAndTrim(s, c)`: the trimmed words of `s` separated by `c`
      or by space, CR, LF or tab. Its split-options parameter is never read, so
      the model has none. */
  function SplitOnCharacterAndTrim(s: string, c: char): (r: seq<string>)
    ensures forall k :: 0 <= k < |r| ==> WordShape(r[k], {c, ' ', '\r', '\n', '\t'})
    ensures r == TrimEach(Filter(Words(Trim(s), {c, ' ', '\r', '\n', '\t'}), NotBlank))
  {
    TrimmedWordsShape(Trim(s), {c, ' ', '\r', '\n', '\t'});
    TrimmedWords(Trim(s), {c, ' ', '\r', '\n', '\t'})
  }

  /** Words that already have the shape of trimmed words pass the blank
      filter and the trim unchanged. */
  lemma TrimmedWordsOfWords(ws: seq<string>, delims: set<char>)
    requires forall k :: 0 <= k < |ws| ==> WordShape(ws[k], delims)
    ensures TrimEach(Filter(ws, NotBlank)) == ws
  {
    forall k | 0 <= k < |ws|
      ensures NotBlank(ws[k]) && Trim(ws[k]) == ws[k]
    {
      WordIsTrimmed(ws[k], delims);
    }
    FilterAllKept(ws, NotBlank);
    assert TrimEach(ws) == ws;
  }

  lemma WordIsTrimmed(w: string, delims: set<char>)
    requires WordShape(w, delims)
    ensures NotBlank(w) && Trim(w) == w
  {
    assert !IsWhiteSpace(w[0]);
    TrimNoop(w);
  }

  /** A join of non-empty pieces starts with the first piece's first
      character and ends with the last piece's last character. */
  lemma JoinEnds(ws: seq<string>, d: char)
    requires ws != [] && forall k :: 0 <= k < |ws| ==> ws[k] != []
    ensures Join([d], ws) != []
    ensures Join([d], ws)[0] == ws[0][0]
    ensures Join([d], ws)[|Join([d], ws)| - 1] == ws[|ws| - 1][|ws[|ws| - 1]| - 1]
  {
    JoinStartsWithFirst([d], ws);
    if |ws| > 1 {
      JoinSnoc([d], ws);
    }
  }

  /** A join of such words has no white space at either end. */
  lemma JoinOfWordsTrimmed(ws: seq<string>, d: char, delims: set<char>)
    requires forall k :: 0 <= k < |ws| ==> WordShape(ws[k], delims)
    ensures Trim(Join([d], ws)) == Join([d], ws)
    ensures ws != [] ==> !AllWhiteSpace(Join([d], ws))
  {
    var t := Join([d], ws);
    if ws == [] {
      TrimNoop(t);
    } else {
      var first, last := ws[0], ws[|ws| - 1];
      assert WordShape(first, delims) && WordShape(last, delims);
      JoinEnds(ws, d);
      assert !IsWhiteSpace(t[0]) && !IsWhiteSpace(t[|t| - 1]);
      TrimNoop(t);
    }
  }

  /** Words joined by the separator come back from `SplitOnCharacterAndTrim`,
      in order. */
  lemma SplitOnCharacterAndTrimJoin(ws: seq<string>, c: char)
    requires forall k :: 0 <= k < |ws| ==> WordShape(ws[k], {c, ' ', '\r', '\n', '\t'})
    ensures SplitOnCharacterAndTrim(Join([c], ws), c) == ws
  {
    var delims := {c, ' ', '\r', '\n', '\t'};
    JoinOfWordsTrimmed(ws, c, delims);
    WordsJoin(ws, c, delims);
    TrimmedWordsOfWords(ws, delims);
  }

  /** The regular expression `<(.|\n)*?>` replaced by one space: from each `<`
      up to the first `>` after it. A `<` with no `>` after it starts no match,
      and neither does any later `<`. */
  function ReplaceTags(s: string): (r: string)
    decreases |s|
  {
    if s == [] then []
    else if s[0] == '<' then
      match IndexOf(s, ">", 1)
      case Some(j) => " " + ReplaceTags(s[j + 1..])
      case None => s
    else [s[0]] + ReplaceTags(s[1..])
  }

  /** No `<` is followed later by `>`. */
  predicate NoTags(t: string) {
    forall i, j :: 0 <= i < j < |t| && t[i] == '<' ==> t[j] != '>'
  }

  /** After the replacement no tag remains. */
  lemma {:induction false} ReplaceTagsLeavesNoTag(s: string)
    ensures NoTags(ReplaceTags(s))
    decreases |s|
  {
    if s == [] {
    } else if s[0] == '<' {
      match IndexOf(s, ">", 1)
      case Some(j) =>
        ReplaceTagsLeavesNoTag(s[j + 1..]);
      case None =>
        forall i, j | 0 <= i < j < |s| && s[i] == '<'
          ensures s[j] != '>'
        {
          assert !MatchAt(s, ">", j);
        }
    } else {
      ReplaceTagsLeavesNoTag(s[1..]);
    }
  }

  /** `StripHTML`: tags become spaces, then the words are joined by single spaces. */
  function StripHTML(s: Option<string>): (r: Option<string>)
    ensures IsNullOrWhiteSpace(s) ==> r == s
    ensures !IsNullOrWhiteSpace(s) ==> r.Some?
  {
    if IsNullOrWhiteSpace(s) then s
    else Some(Join(" ", TrimmedWords(Trim(ReplaceTags(s.value)), SpaceDelimiters)))
  }

  /** A single-space join of words without spaces has no leading or trailing
      space and never two spaces in a row. */
  predicate SingleSpaced(t: string) {
    && (t != [] ==> t[0] != ' ' && t[|t| - 1] != ' ')
    && forall i :: 0 <= i < |t| - 1 ==> !(t[i] == ' ' && t[i + 1] == ' ')
  }

  lemma {:induction false} JoinSingleSpaced(ws: seq<string>)
    requires forall k :: 0 <= k < |ws| ==> WordShape(ws[k], SpaceDelimiters)
    ensures SingleSpaced(Join(" ", ws))
    decreases |ws|
  {
    if |ws| > 1 {
      var init := ws[..|ws| - 1];
      var w := ws[|ws| - 1];
      JoinSingleSpaced(init);
      var a := Join(" ", init);
      assert a != [] by { JoinNonEmpty(init); }
      var t := a + " " + w;
      forall i | 0 <= i < |t| - 1
        ensures !(t[i] == ' ' && t[i + 1] == ' ')
      {
        if i < |a| - 1 {
          assert t[i] == a[i] && t[i + 1] == a[i + 1];
        } else if i == |a| - 1 {
          assert t[i] == a[|a| - 1];
        } else {
          assert t[i + 1] == w[i + 1 - |a| - 1];
        }
      }
    } else if |ws| == 1 {
      assert ' ' in SpaceDelimiters;
    }
  }

  lemma JoinNonEmpty(ws: seq<string>)
    requires ws != [] && forall k :: 0 <= k < |ws| ==> ws[k] != []
    ensures Join(" ", ws) != []
  {
  }

  /** The output of StripHTML is single-spaced. */
  lemma StripHTMLSingleSpaced(s: string)
    requires !AllWhiteSpace(s)
    ensures SingleSpaced(StripHTML(Some(s)).value)
  {
    var t := Trim(ReplaceTags(s));
    TrimmedWordsShape(t, SpaceDelimiters);
    JoinSingleSpaced(TrimmedWords(t, SpaceDelimiters));
  }

  /** The words of the output are the words of the text once its tags are
      replaced, in order: splitting the output at its single spaces gives
      them back. */
  lemma StripHTMLWords(s: string)
    requires !AllWhiteSpace(s)
    ensures var ws := TrimmedWords(Trim(ReplaceTags(s)), SpaceDelimiters);
            var out := StripHTML(Some(s)).value;
            && Words(out, SpaceDelimiters) == ws
            && (ws == [] <==> out == "")
            && (ws != [] ==> Split(out, ' ') == ws)
  {
    var ws := TrimmedWords(Trim(ReplaceTags(s)), SpaceDelimiters);
    TrimmedWordsShape(Trim(ReplaceTags(s)), SpaceDelimiters);
    assert " " == [' '] && ' ' in SpaceDelimiters;
    WordsJoin(ws, ' ', SpaceDelimiters);
    if ws != [] {
      JoinNonEmpty(ws);
      forall k | 0 <= k < |ws|
        ensures ' ' !in ws[k]
      {
        assert forall j :: 0 <= j < |ws[k]| ==> ws[k][j] != ' ';
      }
      SplitJoin(ws, ' ');
    }
  }

  /** Text that is already single-spaced words without '<' is left as it is. */
  lemma StripHTMLPlainText(ws: seq<string>)
    requires forall k :: 0 <= k < |ws| ==> WordShape(ws[k], SpaceDelimiters)
    requires '<' !in Join(" ", ws)
    ensures StripHTML(Some(Join(" ", ws))) == Some(Join(" ", ws))
  {
    var t := Join(" ", ws);
    assert " " == [' '] && ' ' in SpaceDelimiters;
    if ws != [] {
      JoinOfWordsTrimmed(ws, ' ', SpaceDelimiters);
      ReplaceTagsNoOpen(t);
      WordsJoin(ws, ' ', SpaceDelimiters);
      TrimmedWordsOfWords(ws, SpaceDelimiters);
    }
  }

  lemma {:induction false} ReplaceTagsNoOpen(t: string)
    requires '<' !in t
    ensures ReplaceTags(t) == t
    decreases |t|
  {
    if t != [] {
      assert t[0] != '<';
      ReplaceTagsNoOpen(t[1..]);
      assert t == [t[0]] + t[1..];
    }
  }

  predicate IsAngle(c: char) { c == '<' || c == '>' }

  lemma NoTagsSnoc(x: string, c: char)
    ensures NoTags(x + [c]) <==> NoTags(x) && (c == '>' ==> '<' !in x)
  {
    var t := x + [c];
    if NoTags(t) {
      forall i, j | 0 <= i < j < |x| && x[i] == '<'
        ensures x[j] != '>'
      {
        assert t[i] == x[i] && t[j] == x[j];
      }
      forall i | 0 <= i < |x| && c == '>'
        ensures x[i] != '<'
      {
        assert t[i] == x[i] && t[|x|] == c;
      }
    }
    if NoTags(x) && (c == '>' ==> '<' !in x) {
      forall i, j | 0 <= i < j < |t| && t[i] == '<'
        ensures t[j] != '>'
      {
        assert t[i] == x[i];
        if j < |x| {
          assert t[j] == x[j];
        }
      }
    }
  }

  /** Whether text holds a tag depends only on its angle brackets, in order. */
  lemma {:induction false} NoTagsOfAngles(t: string)
    ensures NoTags(t) <==> NoTags(Filter(t, IsAngle))
    decreases |t|
  {
    if t != [] {
      var x, c := t[..|t| - 1], t[|t| - 1];
      assert t == x + [c];
      NoTagsOfAngles(x);
      NoTagsSnoc(x, c);
      FilterMembership(x, IsAngle, '<');
      assert Filter(t, IsAngle) == Filter(x, IsAngle) + (if IsAngle(c) then [c] else []);
      if IsAngle(c) {
        NoTagsSnoc(Filter(x, IsAngle), c);
      } else {
        assert Filter(t, IsAngle) == Filter(x, IsAngle);
      }
    }
  }

  lemma WhiteSpaceIsNoAngle(c: char)
    requires IsWhiteSpace(c)
    ensures !IsAngle(c)
  {
  }

  lemma AnglesOfBlank(w: string)
    requires AllWhiteSpace(w)
    ensures Filter(w, IsAngle) == []
  {
    forall i | 0 <= i < |w|
      ensures !IsAngle(w[i])
    {
      WhiteSpaceIsNoAngle(w[i]);
    }
    FilterNoneKept(w, IsAngle);
  }

  /** Trimming removes white space only, so no angle bracket. */
  lemma AnglesOfTrim(s: string)
    ensures Filter(Trim(s), IsAngle) == Filter(s, IsAngle)
  {
    AnglesOfTrimStart(s);
    AnglesOfTrimEnd(TrimStartBy(s, IsWhiteSpace));
  }

  lemma AnglesOfTrimStart(s: string)
    ensures Filter(TrimStartBy(s, IsWhiteSpace), IsAngle) == Filter(s, IsAngle)
  {
    var a := TrimStartBy(s, IsWhiteSpace);
    var k := |s| - |a|;
    assert a == s[k..];
    forall i | 0 <= i < k
      ensures !IsAngle(s[i])
    {
      WhiteSpaceIsNoAngle(s[i]);
    }
    FilterDropsPrefix(s, k, IsAngle);
  }

  lemma AnglesOfTrimEnd(a: string)
    ensures Filter(TrimEndBy(a, IsWhiteSpace), IsAngle) == Filter(a, IsAngle)
  {
    var b := TrimEndBy(a, IsWhiteSpace);
    var n := |b|;
    assert b == a[..n];
    forall i | n <= i < |a|
      ensures !IsAngle(a[i])
    {
      WhiteSpaceIsNoAngle(a[i]);
    }
    FilterDropsSuffix(a, n, IsAngle);
  }

  /** Cutting off a prefix that `keep` rejects does not change the filter. */
  lemma FilterDropsPrefix<T>(s: seq<T>, k: nat, keep: T -> bool)
    requires k <= |s|
    requires forall i :: 0 <= i < k ==> !keep(s[i])
    ensures Filter(s[k..], keep) == Filter(s, keep)
  {
    var p, q := s[..k], s[k..];
    assert s == p + q;
    FilterConcat(p, q, keep);
    assert forall i :: 0 <= i < |p| ==> p[i] == s[i];
    FilterNoneKept(p, keep);
  }

  /** Cutting off a suffix that `keep` rejects does not change the filter. */
  lemma FilterDropsSuffix<T>(s: seq<T>, n: nat, keep: T -> bool)
    requires n <= |s|
    requires forall i :: n <= i < |s| ==> !keep(s[i])
    ensures Filter(s[..n], keep) == Filter(s, keep)
  {
    var p, q := s[..n], s[n..];
    assert s == p + q;
    FilterConcat(p, q, keep);
    assert forall i :: 0 <= i < |q| ==> q[i] == s[n + i];
    FilterNoneKept(q, keep);
  }

  /** Splitting into words drops delimiters only. */
  lemma {:induction false} AnglesOfWords(s: string, delims: set<char>)
    requires '<' !in delims && '>' !in delims
    ensures Filter(Flatten(Words(s, delims)), IsAngle) == Filter(s, IsAngle)
    decreases |s|
  {
    if s != [] {
      if s[0] in delims {
        AnglesOfWords(s[1..], delims);
        assert s == [s[0]] + s[1..];
        FilterConcat([s[0]], s[1..], IsAngle);
        FilterNoneKept([s[0]], IsAngle);
      } else {
        var n := RunLength(s, delims);
        AnglesOfWords(s[n..], delims);
        FlattenCons(s[..n], Words(s[n..], delims));
        assert s == s[..n] + s[n..];
        FilterConcat(s[..n], s[n..], IsAngle);
        FilterConcat(s[..n], Flatten(Words(s[n..], delims)), IsAngle);
      }
    }
  }

  /** The blank words dropped hold no angle bracket. */
  lemma {:induction false} AnglesOfNotBlank(ws: seq<string>)
    ensures Filter(Flatten(Filter(ws, NotBlank)), IsAngle) == Filter(Flatten(ws), IsAngle)
    decreases |ws|
  {
    if ws != [] {
      var init, last := ws[..|ws| - 1], ws[|ws| - 1];
      AnglesOfNotBlank(init);
      assert ws == init + [last];
      FlattenSnoc(init, last);
      FilterConcat(Flatten(init), last, IsAngle);
      assert Filter(ws, NotBlank) == Filter(init, NotBlank) + (if NotBlank(last) then [last] else []);
      if NotBlank(last) {
        FlattenSnoc(Filter(init, NotBlank), last);
        FilterConcat(Flatten(Filter(init, NotBlank)), last, IsAngle);
      } else {
        assert Filter(ws, NotBlank) == Filter(init, NotBlank);
        AnglesOfBlank(last);
      }
    }
  }

  /** Trimming each word keeps its angle brackets. */
  lemma {:induction false} AnglesOfTrimEach(ws: seq<string>)
    ensures Filter(Flatten(TrimEach(ws)), IsAngle) == Filter(Flatten(ws), IsAngle)
    decreases |ws|
  {
    if ws != [] {
      var init, last := ws[..|ws| - 1], ws[|ws| - 1];
      assert ws == init + [last];
      AnglesOfTrimEach(init);
      TrimEachSnoc(init, last);
      FlattenSnoc(TrimEach(init), Trim(last));
      FlattenSnoc(init, last);
      AnglesOfTrim(last);
      AnglesOfConcat(Flatten(TrimEach(init)), Flatten(init), Trim(last), last);
    }
  }

  lemma TrimEachSnoc(ws: seq<string>, w: string)
    ensures TrimEach(ws + [w]) == TrimEach(ws) + [Trim(w)]
  {
    MapSnoc(ws, w, Trim);
  }

  /** Pieces with the same angle brackets concatenate to strings with the
      same angle brackets. */
  lemma AnglesOfConcat(a: string, b: string, c: string, d: string)
    requires Filter(a, IsAngle) == Filter(b, IsAngle) && Filter(c, IsAngle) == Filter(d, IsAngle)
    ensures Filter(a + c, IsAngle) == Filter(b + d, IsAngle)
  {
    FilterConcat(a, c, IsAngle);
    FilterConcat(b, d, IsAngle);
  }


  /** Joining with spaces adds no angle bracket. */
  lemma {:induction false} AnglesOfJoin(ws: seq<string>)
    ensures Filter(Join(" ", ws), IsAngle) == Filter(Flatten(ws), IsAngle)
    decreases |ws|
  {
    if |ws| == 1 {
      assert ws == [] + [ws[0]];
      FlattenSnoc([], ws[0]);
      assert Flatten(ws) == ws[0] == Join(" ", ws);
    } else if |ws| > 1 {
      var init, last := ws[..|ws| - 1], ws[|ws| - 1];
      AnglesOfJoin(init);
      FlattenSnoc(init, last);
      JoinSnoc(" ", ws);
      SpaceHasNoAngle();
      AnglesOfSepThen(Join(" ", init), Flatten(init), " ", last);
    }
  }

  /** A separator without angle brackets between two pieces adds none. */
  lemma AnglesOfSepThen(a: string, b: string, sep: string, last: string)
    requires Filter(a, IsAngle) == Filter(b, IsAngle) && Filter(sep, IsAngle) == []
    ensures Filter(a + sep + last, IsAngle) == Filter(b + last, IsAngle)
  {
    FilterConcat(a + sep, last, IsAngle);
    FilterConcat(a, sep, IsAngle);
    FilterConcat(b, last, IsAngle);
  }

  lemma SpaceHasNoAngle()
    ensures Filter(" ", IsAngle) == []
  {
    FilterNoneKept(" ", IsAngle);
  }


  /** No tag survives `StripHTML`: the output holds the angle brackets of the
      text after the tag replacement, in the same order. */
  lemma StripHTMLLeavesNoTag(s: string)
    ensures NoTags(StripHTML(Some(s)).value)
  {
    if AllWhiteSpace(s) {
      assert forall i :: 0 <= i < |s| ==> s[i] != '<';
    } else {
      var t := ReplaceTags(s);
      var out := Join(" ", TrimmedWords(Trim(t), SpaceDelimiters));
      assert StripHTML(Some(s)).value == out;
      ReplaceTagsLeavesNoTag(s);
      AnglesOfStripped(t);
      NoTagsOfAngles(t);
      NoTagsOfAngles(out);
    }
  }

  /** The word-and-space normalisation of `StripHTML` keeps the angle
      brackets of its input, in order. */
  lemma AnglesOfStripped(t: string)
    ensures Filter(Join(" ", TrimmedWords(Trim(t), SpaceDelimiters)), IsAngle) == Filter(t, IsAngle)
  {
    var ws := Filter(Words(Trim(t), SpaceDelimiters), NotBlank);
    AnglesOfTrim(t);
    AnglesOfWords(Trim(t), SpaceDelimiters);
    AnglesOfNotBlank(Words(Trim(t), SpaceDelimiters));
    AnglesOfTrimEach(ws);
    AnglesOfJoin(TrimEach(ws));
  }

  predicate IsLong(w: string) { |w| > 1 }

  /** `CountWords`: the number of space/CR/LF/tab separated words longer than one character. */
  function CountWords(s: Option<string>): (n: nat)
    ensures IsNullOrWhiteSpace(s) ==> n == 0
    ensures !IsNullOrWhiteSpace(s) ==> 2 * n <= |s.value|
    ensures !IsNullOrWhiteSpace(s) ==> n == |Filter(Words(s.value, SpaceDelimiters), IsLong)|
  {
    if IsNullOrWhiteSpace(s) then 0
    else
      LongWordsBound(Words(s.value, SpaceDelimiters));
      WordsLength(s.value, SpaceDelimiters);
      |Filter(Words(s.value, SpaceDelimiters), IsLong)|
  }

  /** The words of single-spaced text are the words it was made of, so only
      the long ones are counted. */
  lemma CountWordsOfJoin(ws: seq<string>)
    requires forall k :: 0 <= k < |ws| ==> WordShape(ws[k], SpaceDelimiters)
    ensures CountWords(Some(Join(" ", ws))) == |Filter(ws, IsLong)|
  {
    assert " " == [' '] && ' ' in SpaceDelimiters;
    JoinOfWordsTrimmed(ws, ' ', SpaceDelimiters);
    WordsJoin(ws, ' ', SpaceDelimiters);
  }

  /** Each counted word takes at least two characters. */
  lemma {:induction false} LongWordsBound(ws: seq<string>)
    ensures 2 * |Filter(ws, IsLong)| <= SumLengths(ws)
    decreases |ws|
  {
    if ws != [] {
      var init := ws[..|ws| - 1];
      LongWordsBound(init);
      SumLengthsSnoc(init, ws[|ws| - 1]);
      assert init + [ws[|ws| - 1]] == ws;
    }
  }

  lemma {:induction false} SumLengthsSnoc(ws: seq<string>, w: string)
    ensures SumLengths(ws + [w]) == SumLengths(ws) + |w|
    decreases |ws|
  {
    if ws != [] {
      SumLengthsSnoc(ws[1..], w);
      assert (ws + [w])[1..] == ws[1..] + [w];
    }
  }

  // ---------------------------------------------------------------------------
  // Extensions and encodings
  // ---------------------------------------------------------------------------

  /** `FixFilenameExtension`: prefixes a '.' unless blank or already dotted. */
  function FixFilenameExtension(extension: Option<string>): (r: Option<string>)
    ensures IsNullOrWhiteSpace(extension) ==> r == extension
    ensures !IsNullOrWhiteSpace(extension) ==> r.Some? && r.value != [] && r.value[0] == '.'
    ensures !IsNullOrWhiteSpace(extension) ==> EndsWith(r.value, extension.value) && |r.value| <= |extension.value| + 1
    ensures !IsNullOrWhiteSpace(extension) && extension.value[0] == '.' ==> r == extension
    ensures !IsNullOrWhiteSpace(extension) && extension.value[0] != '.' ==> r == Some("." + extension.value)
  {
    if IsNullOrWhiteSpace(extension) then extension
    else if extension.value[0] == '.' then extension
    else Some("." + extension.value)
  }

  /** Fixing an extension twice is fixing it once. */
  lemma FixFilenameExtensionIdempotent(extension: Option<string>)
    ensures FixFilenameExtension(FixFilenameExtension(extension)) == FixFilenameExtension(extension)
  {
    if !IsNullOrWhiteSpace(extension) {
      var r := FixFilenameExtension(extension).value;
      assert !IsWhiteSpace(r[0]);
    }
  }

  /** `Uri.HexEscape` of the extra sub-delimiters of RFC 3986 section 2.2, as
      percent-encoded in section 2.1: `%` and two upper-case hex digits. */
  function HexEscape(c: char): string {
    match c
    case '!' => "%21"
    case '*' => "%2A"
    case '\'' => "%27"
    case '(' => "%28"
    case ')' => "%29"
    case _ => [c]
  }

  predicate IsExtraSubDelim(c: char) {
    c == '!' || c == '*' || c == '\'' || c == '(' || c == ')'
  }

  /** One pass over the string escaping each extra sub-delimiter. */
  function EscapeSubDelims(s: string): string
    decreases |s|
  {
    if s == [] then "" else HexEscape(s[0]) + EscapeSubDelims(s[1..])
  }

  /** `ToRfc3986EncodedString(value)`: `Uri.EscapeDataString` (the parameter
      `escapeDataString`), then the five replacements in the order `! * ' ( )`. */
  function ToRfc3986EncodedString(value: string, escapeDataString: string -> string): (r: string)
    ensures r == EscapeSubDelims(escapeDataString(value))
    ensures forall i :: 0 <= i < |r| ==> !IsExtraSubDelim(r[i])
  {
    var e := escapeDataString(value);
    SequentialIsOnePass(e);
    EscapeSubDelimsRemovesAll(e);
    ReplaceChar(ReplaceChar(ReplaceChar(ReplaceChar(ReplaceChar(e, '!', "%21"), '*', "%2A"), '\'', "%27"), '(', "%28"), ')', "%29")
  }

  /** The five sequential replacements equal the one-pass escape: no
      replacement text contains a character that a later step replaces. */
  lemma {:induction false} SequentialIsOnePass(s: string)
    ensures ReplaceChar(ReplaceChar(ReplaceChar(ReplaceChar(ReplaceChar(s, '!', "%21"), '*', "%2A"), '\'', "%27"), '(', "%28"), ')', "%29")
            == EscapeSubDelims(s)
    decreases |s|
  {
    if s != [] {
      SequentialIsOnePass(s[1..]);
      var h, t := [s[0]], s[1..];
      assert s == h + t;
      var a1, b1 := ReplaceChar(h, '!', "%21"), ReplaceChar(t, '!', "%21");
      ReplaceCharConcat(h, t, '!', "%21");
      var a2, b2 := ReplaceChar(a1, '*', "%2A"), ReplaceChar(b1, '*', "%2A");
      ReplaceCharConcat(a1, b1, '*', "%2A");
      var a3, b3 := ReplaceChar(a2, '\'', "%27"), ReplaceChar(b2, '\'', "%27");
      ReplaceCharConcat(a2, b2, '\'', "%27");
      var a4, b4 := ReplaceChar(a3, '(', "%28"), ReplaceChar(b3, '(', "%28");
      ReplaceCharConcat(a3, b3, '(', "%28");
      var a5 := ReplaceChar(a4, ')', "%29");
      ReplaceCharConcat(a4, b4, ')', "%29");
      assert a5 == HexEscape(s[0]) by { EscapeOneChar(s[0]); }
    }
  }

  lemma EscapeOneChar(c: char)
    ensures ReplaceChar(ReplaceChar(ReplaceChar(ReplaceChar(ReplaceChar([c], '!', "%21"), '*', "%2A"), '\'', "%27"), '(', "%28"), ')', "%29")
            == HexEscape(c)
  {
    ReplaceCharOneOrNone([c], '!', "%21");
    ReplaceCharOneOrNone([c], '*', "%2A");
    ReplaceCharOneOrNone([c], '\'', "%27");
    ReplaceCharOneOrNone([c], '(', "%28");
    ReplaceCharOneOrNone([c], ')', "%29");
    if IsExtraSubDelim(c) {
      var h := HexEscape(c);
      assert forall i :: 0 <= i < |h| ==> !IsExtraSubDelim(h[i]);
      EscapeIsFinal(h);
    }
  }

  /** The five escapes hold none of the five characters, so the
      replacements after the one that produced an escape leave it alone. */
  lemma EscapeIsFinal(h: string)
    requires forall i :: 0 <= i < |h| ==> !IsExtraSubDelim(h[i])
    ensures ReplaceChar(h, '!', "%21") == h && ReplaceChar(h, '*', "%2A") == h
    ensures ReplaceChar(h, '\'', "%27") == h && ReplaceChar(h, '(', "%28") == h
    ensures ReplaceChar(h, ')', "%29") == h
  {
    ReplaceCharOneOrNone(h, '!', "%21");
    ReplaceCharOneOrNone(h, '*', "%2A");
    ReplaceCharOneOrNone(h, '\'', "%27");
    ReplaceCharOneOrNone(h, '(', "%28");
    ReplaceCharOneOrNone(h, ')', "%29");
  }



  lemma {:induction false} EscapeSubDelimsRemovesAll(s: string)
    ensures forall i :: 0 <= i < |EscapeSubDelims(s)| ==> !IsExtraSubDelim(EscapeSubDelims(s)[i])
    decreases |s|
  {
    if s != [] {
      EscapeSubDelimsRemovesAll(s[1..]);
      var h := HexEscape(s[0]);
      assert forall i :: 0 <= i < |h| ==> !IsExtraSubDelim(h[i]);
    }
  }

  // ---------------------------------------------------------------------------
  // ReplaceIgnoreCase
  // ---------------------------------------------------------------------------

  /** The text from `from` on with every leftmost non-overlapping match of
      `pattern` (compared after upper-casing both sides) replaced, and the text
      between matches copied verbatim. */
  function ReplaceFrom(s: string, pattern: string, replacement: string, from: nat): string
    requires 0 < |pattern| && from <= |s|
    decreases |s| - from
  {
    match IndexOf(Upper(s), Upper(pattern), from)
    case None => s[from..]
    case Some(i) => s[from..i] + replacement + ReplaceFrom(s, pattern, replacement, i + |pattern|)
  }

  lemma ReplaceFromStep(s: string, pattern: string, replacement: string, from: nat, i: nat)
    requires 0 < |pattern| && from <= |s|
    requires IndexOf(Upper(s), Upper(pattern), from) == Some(i)
    ensures from <= i && i + |pattern| <= |s|
    ensures ReplaceFrom(s, pattern, replacement, from)
            == s[from..i] + replacement + ReplaceFrom(s, pattern, replacement, i + |pattern|)
  {
    MatchBounds(s, pattern, from, i);
    ReplaceFromUnfold(s, pattern, replacement, from, i);
  }

  lemma ReplaceFromUnfold(s: string, pattern: string, replacement: string, from: nat, i: nat)
    requires 0 < |pattern| && from <= i && i + |pattern| <= |s|
    requires IndexOf(Upper(s), Upper(pattern), from) == Some(i)
    ensures ReplaceFrom(s, pattern, replacement, from)
            == s[from..i] + replacement + ReplaceFrom(s, pattern, replacement, i + |pattern|)
  {
    match IndexOf(Upper(s), Upper(pattern), from)
    case Some(j) =>
      assert j == i;
  }

  /** A case-insensitive match found from `from` lies within the text. */
  lemma MatchBounds(s: string, pattern: string, from: nat, i: nat)
    requires from <= |s|
    requires IndexOf(Upper(s), Upper(pattern), from) == Some(i)
    ensures from <= i && i + |pattern| <= |s|
  {
    assert MatchAt(Upper(s), Upper(pattern), i);
  }

  lemma ReplaceFromDone(s: string, pattern: string, replacement: string, from: nat)
    requires 0 < |pattern| && from <= |s|
    requires IndexOf(Upper(s), Upper(pattern), from).None?
    ensures ReplaceFrom(s, pattern, replacement, from) == s[from..]
  {
  }

  /** The number of matches `ReplaceFrom` replaces. */
  function MatchCount(s: string, pattern: string, from: nat): nat
    requires 0 < |pattern| && from <= |s|
    decreases |s| - from
  {
    match IndexOf(Upper(s), Upper(pattern), from)
    case None => 0
    case Some(i) => 1 + MatchCount(s, pattern, i + |pattern|)
  }

  /** Each replaced match trades |pattern| characters for |replacement|, and the
      matches do not overlap, so there are at most (|s| - from) / |pattern|. */
  lemma {:induction false} ReplaceFromLength(s: string, pattern: string, replacement: string, from: nat)
    requires 0 < |pattern| && from <= |s|
    ensures |ReplaceFrom(s, pattern, replacement, from)|
            == |s| - from + MatchCount(s, pattern, from) * (|replacement| - |pattern|)
    ensures MatchCount(s, pattern, from) * |pattern| <= |s| - from
    decreases |s| - from
  {
    match IndexOf(Upper(s), Upper(pattern), from)
    case None =>
    case Some(i) =>
      var next := i + |pattern|;
      ReplaceFromStep(s, pattern, replacement, from, i);
      MatchCountStep(s, pattern, from, i);
      ReplaceFromLength(s, pattern, replacement, next);
      var rest := ReplaceFrom(s, pattern, replacement, next);
      assert |ReplaceFrom(s, pattern, replacement, from)| == (i - from) + |replacement| + |rest|;
      LengthStep(|s|, from, i, |pattern|, |replacement|, MatchCount(s, pattern, next),
                 MatchCount(s, pattern, from), |rest|, |ReplaceFrom(s, pattern, replacement, from)|);
  }

  lemma MatchCountStep(s: string, pattern: string, from: nat, i: nat)
    requires 0 < |pattern| && from <= |s|
    requires IndexOf(Upper(s), Upper(pattern), from) == Some(i)
    ensures MatchCount(s, pattern, from) == 1 + MatchCount(s, pattern, i + |pattern|)
  {
  }

  /** The arithmetic of one step of `ReplaceFromLength`: the piece before the
      match and the replacement, then the rest with k further matches. */
  lemma LengthStep(n: int, from: int, i: int, plen: int, rlen: int, k: int, m: int, rest: int, total: int)
    requires from <= i && m == 1 + k
    requires rest == n - (i + plen) + k * (rlen - plen)
    requires k * plen <= n - (i + plen)
    requires total == (i - from) + rlen + rest
    ensures total == n - from + m * (rlen - plen)
    ensures m * plen <= n - from
  {
    SuccMul(k, rlen - plen);
    SuccMul(k, plen);
  }

  /** No match (ignoring case) leaves the text as it is. */
  lemma ReplaceFromNoMatch(s: string, pattern: string, replacement: string)
    requires 0 < |pattern|
    requires IndexOf(Upper(s), Upper(pattern), 0).None?
    ensures ReplaceFrom(s, pattern, replacement, 0) == s
  {
  }

  /** k non-overlapping matches of a non-empty pattern fit in s, so k is at most
      |s| div |pattern|. */
  lemma MatchBudget(k: nat, plen: nat, n: nat, d: int)
    requires 0 < plen && k * plen <= n
    ensures k * d <= Max(0, (n / plen) * d)
  {
    var q := n / plen;
    assert q * plen + n % plen == n;
    SuccMul(q, plen);
    if k >= q + 1 {
      MulMono(q + 1, k, plen);
      assert false;
    }
    if d >= 0 {
      MulMono(k, q, d);
    } else {
      MulMono(0, k, -d);
    }
  }

  /** The buffer the corrected `ReplaceIgnoreCase` would allocate, |s| +
      max(0, (|s| div |pattern|) * (|replacement| - |pattern|)) computed without
      wrapping, always holds the result. */
  lemma ReplaceBudget(s: string, pattern: string, replacement: string)
    requires 0 < |pattern|
    ensures |ReplaceFrom(s, pattern, replacement, 0)|
            <= |s| + Max(0, (|s| / |pattern|) * (|replacement| - |pattern|))
  {
    ReplaceFromLength(s, pattern, replacement, 0);
    MatchBudget(MatchCount(s, pattern, 0), |pattern|, |s|, |replacement| - |pattern|);
  }

  /** The length of the buffer `ReplaceIgnoreCase` allocates, in 32-bit `int`
      arithmetic: both `inc` and the sum wrap. */
  function BufferLength(n: nat, plen: nat, rlen: nat): int
    requires 0 < plen
  {
    Wrap32(n + Max(0, Wrap32((n / plen) * (rlen - plen))))
  }

  /** The outcome of `ReplaceIgnoreCase` as written: a negative buffer length
      throws when the array is created; with no match the input comes back;
      a result longer than the buffer throws when a copy runs past its end. */
  function ReplaceIgnoreCaseResult(s: Option<string>, pattern: Option<string>, replacement: Option<string>)
    : Result<Option<string>>
  {
    if IsNullOrEmpty(s) || IsNullOrEmpty(pattern) || replacement.None? then Ok(s)
    else
      var size := BufferLength(|s.value|, |pattern.value|, |replacement.value|);
      if size < 0 then Err(Overflow)
      else if IndexOf(Upper(s.value), Upper(pattern.value), 0).None? then Ok(s)
      else if size < |ReplaceFrom(s.value, pattern.value, replacement.value, 0)| then Err(IndexOutOfRange)
      else Ok(Some(ReplaceFrom(s.value, pattern.value, replacement.value, 0)))
  }

  /** What `ReplaceIgnoreCase` evidently intends: every match replaced, and no
      exception. */
  function ReplaceIgnoreCaseIntended(s: Option<string>, pattern: Option<string>, replacement: Option<string>)
    : (r: Option<string>)
    ensures r.None? <==> s.None?
    ensures !(IsNullOrEmpty(s) || IsNullOrEmpty(pattern) || replacement.None?) ==>
              |r.value| == |s.value| + MatchCount(s.value, pattern.value, 0) * (|replacement.value| - |pattern.value|)
  {
    if IsNullOrEmpty(s) || IsNullOrEmpty(pattern) || replacement.None? then s
    else
      ReplaceFromLength(s.value, pattern.value, replacement.value, 0);
      Some(ReplaceFrom(s.value, pattern.value, replacement.value, 0))
  }

  /** While the buffer length fits in an `int`, the code does what it intends. */
  lemma ReplaceWithoutOverflow(s: string, pattern: string, replacement: string)
    requires 0 < |pattern| && |s| < 0x8000_0000
    requires |s| + Max(0, (|s| / |pattern|) * (|replacement| - |pattern|)) < 0x8000_0000
    ensures ReplaceIgnoreCaseResult(Some(s), Some(pattern), Some(replacement))
            == Ok(ReplaceIgnoreCaseIntended(Some(s), Some(pattern), Some(replacement)))
  {
    BufferWithoutWrap(|s|, |pattern|, |replacement|, (|s| / |pattern|) * (|replacement| - |pattern|));
    ReplaceBudget(s, pattern, replacement);
    if s != [] && IndexOf(Upper(s), Upper(pattern), 0).None? {
      ReplaceFromNoMatch(s, pattern, replacement);
    }
  }

  /** While the unwrapped sum fits in an `int`, so does `inc`, and neither
      wraps. */
  lemma BufferWithoutWrap(n: nat, plen: nat, rlen: nat, inc: int)
    requires 0 < plen && n < 0x8000_0000 && inc == (n / plen) * (rlen - plen)
    requires n + Max(0, inc) < 0x8000_0000
    ensures BufferLength(n, plen, rlen) == n + Max(0, inc)
  {
    QuotientBound(n, plen);
    ProductAtLeast(n, plen, n / plen, rlen - plen);
    assert Wrap32(inc) == inc;
  }

  lemma QuotientBound(n: nat, plen: nat)
    requires 0 < plen
    ensures (n / plen) * plen <= n
  {
    assert (n / plen) * plen + n % plen == n;
  }

  /** A shrinking replacement loses at most |pattern| per match, so at most
      the whole text. */
  lemma ProductAtLeast(n: nat, plen: nat, q: nat, d: int)
    requires q * plen <= n && 0 <= d + plen
    ensures 0 <= q * d + n
  {
    if d < 0 {
      MulMono(-d, plen, q);
      assert (-d) * q == -(q * d) && plen * q == q * plen;
    }
  }


  /** The wrap-around is reached: for a text of 1,000,000 characters starting
      with 'a', the pattern "a" and a replacement of 2,149 characters, `inc`
      is 2,148,000,000, which wraps to -2,146,967,296, so the buffer gets only
      1,000,000 cells while the result needs at least 1,002,148. */
  lemma ReplaceIgnoreCaseOverflows(s: string, replacement: string)
    requires |s| == 1_000_000 && s[0] == 'a' && |replacement| == 2149
    ensures BufferLength(|s|, 1, |replacement|) == |s|
    ensures ReplaceIgnoreCaseResult(Some(s), Some("a"), Some(replacement)) == Err(IndexOutOfRange)
  {
    LeadingMatch(s, "a");
    WrappedBuffer(|s|, |replacement|);
    OverflowWitness(s, replacement);
    ShortBuffer(s, "a", replacement);
  }

  /** The buffer length of the counterexample above. */
  lemma WrappedBuffer(n: nat, rlen: nat)
    requires n == 1_000_000 && rlen == 2149
    ensures BufferLength(n, 1, rlen) == n
  {
    assert Wrap32(1_000_000 * 2148) == -2_146_967_296;
  }

  /** The counterexample above meets the premises of `ShortBuffer`. */
  lemma OverflowWitness(s: string, replacement: string)
    requires |s| == 1_000_000 && |replacement| == 2149
    requires IndexOf(Upper(s), Upper("a"), 0) == Some(0)
    requires BufferLength(|s|, 1, |replacement|) == |s|
    ensures BufferTooShort(s, "a", replacement)
  {
  }

  /** A text that starts with the pattern matches at 0. */
  lemma LeadingMatch(s: string, pattern: string)
    requires 0 < |pattern| <= |s| && forall i :: 0 <= i < |pattern| ==> s[i] == pattern[i]
    ensures IndexOf(Upper(s), Upper(pattern), 0) == Some(0)
  {
    assert Upper(s)[0..|pattern|] == Upper(pattern);
  }

  /** A match, a replacement longer than the pattern and a buffer no longer
      than the text. */
  predicate BufferTooShort(s: string, pattern: string, replacement: string) {
    0 < |pattern| < |replacement| && |pattern| <= |s|
    && IndexOf(Upper(s), Upper(pattern), 0).Some?
    && 0 <= BufferLength(|s|, |pattern|, |replacement|) <= |s|
  }

  /** When the buffer is no longer than the text, one match with a longer
      replacement makes the code as written throw. */
  lemma ShortBuffer(s: string, pattern: string, replacement: string)
    requires BufferTooShort(s, pattern, replacement)
    ensures ReplaceIgnoreCaseResult(Some(s), Some(pattern), Some(replacement)) == Err(IndexOutOfRange)
  {
    LongReplacement(s, pattern, replacement);
  }

  /** One match already makes the result longer than the text, when the
      replacement is longer than the pattern. */
  lemma LongReplacement(s: string, pattern: string, replacement: string)
    requires 0 < |pattern| < |replacement| && |pattern| <= |s|
    requires IndexOf(Upper(s), Upper(pattern), 0).Some?
    ensures |ReplaceFrom(s, pattern, replacement, 0)| >= |s| + |replacement| - |pattern|
  {
    FirstMatchCounts(s, pattern);
    ReplaceFromLength(s, pattern, replacement, 0);
    OneMatchGrows(|s|, MatchCount(s, pattern, 0), |replacement| - |pattern|, |ReplaceFrom(s, pattern, replacement, 0)|);
  }

  lemma FirstMatchCounts(s: string, pattern: string)
    requires 0 < |pattern|
    requires IndexOf(Upper(s), Upper(pattern), 0).Some?
    ensures MatchCount(s, pattern, 0) >= 1
  {
  }

  lemma OneMatchGrows(n: int, m: int, d: int, len: int)
    requires 1 <= m && 0 <= d && len == n + m * d
    ensures len >= n + d
  {
    MulMono(1, m, d);
  }


  /** One of the copying loops of `ReplaceIgnoreCase`: `src[lo..hi]` is
      written to the buffer from position `count` on. A write past the end
      of the buffer throws, which `ok` reports. */
  method CopyRange(buf: array<char>, count: nat, src: string, lo: nat, hi: nat) returns (next: nat, ok: bool)
    requires lo <= hi <= |src| && count <= buf.Length
    modifies buf
    ensures ok <==> count + (hi - lo) <= buf.Length
    ensures ok ==> next == count + (hi - lo)
    ensures ok ==> buf[..next] == old(buf[..count]) + src[lo..hi]
  {
    next := count;
    for i := lo to hi
      invariant next == count + (i - lo) <= buf.Length
      invariant buf[..next] == old(buf[..count]) + src[lo..i]
    {
      if next == buf.Length {
        return next, false;
      }
      buf[next] := src[i];
      next := next + 1;
      assert src[lo..i + 1] == src[lo..i] + [src[i]];
    }
    ok := true;
  }

  /** One turn of the main loop of `ReplaceIgnoreCase`: with the text
      before the match at `i` and the replacement added to what is written,
      the rest is the replacement from just after the match. */
  lemma ReplaceProgress(done: string, s: string, pattern: string, replacement: string, from: nat, i: nat,
                        total: string)
    requires 0 < |pattern| && from <= |s| && IndexOf(Upper(s), Upper(pattern), from) == Some(i)
    requires done + ReplaceFrom(s, pattern, replacement, from) == total
    ensures from <= i && i + |pattern| <= |s|
    ensures (done + (s[from..i] + replacement)) + ReplaceFrom(s, pattern, replacement, i + |pattern|) == total
  {
    ReplaceFromStep(s, pattern, replacement, from, i);
  }

  /** The body of the main loop of `ReplaceIgnoreCase`: the text before the
      match at `position1`, then the replacement, are appended to the buffer,
      and the search goes on after the match; a write past the end of the
      buffer means the whole result does not fit. */
  method CopyMatch(chars: array<char>, count: nat, str: string, pat: string, rep: string,
                   position0: nat, position1: nat, ghost total: string) returns (next: nat, after: nat, ok: bool)
    requires 0 < |pat| && position0 <= |str| && IndexOf(Upper(str), Upper(pat), position0) == Some(position1)
    requires count <= chars.Length
    requires chars[..count] + ReplaceFrom(str, pat, rep, position0) == total
    modifies chars
    ensures after == position1 + |pat| <= |str|
    ensures next <= chars.Length
    ensures !ok ==> |total| > chars.Length
    ensures ok ==> chars[..next] + ReplaceFrom(str, pat, rep, after) == total
  {
    ReplaceProgress(chars[..count], str, pat, rep, position0, position1, total);
    next, ok := CopyPiece(chars, count, str, position0, position1, rep);
    after := position1 + |pat|;
  }

  /** Appends `str[lo..hi]` and then `rep` to the buffer, unless that runs
      past its end. */
  method CopyPiece(chars: array<char>, count: nat, str: string, lo: nat, hi: nat, rep: string)
    returns (next: nat, ok: bool)
    requires lo <= hi <= |str| && count <= chars.Length
    modifies chars
    ensures next <= chars.Length
    ensures ok <==> count + (hi - lo) + |rep| <= chars.Length
    ensures ok ==> chars[..next] == old(chars[..count]) + (str[lo..hi] + rep)
  {
    next, ok := CopyRange(chars, count, str, lo, hi);
    if !ok {
      return count, false;
    }
    next, ok := CopyRange(chars, next, rep, 0, |rep|);
    if !ok {
      return count, false;
    }
    assert rep[0..|rep|] == rep;
  }

  /** `ReplaceIgnoreCase`: fills a buffer, whose length is computed in 32-bit
      arithmetic, with the text between matches and the replacement for each
      match. */
  method ReplaceIgnoreCase(s: Option<string>, pattern: Option<string>, replacement: Option<string>)
    returns (r: Result<Option<string>>)
    ensures r == ReplaceIgnoreCaseResult(s, pattern, replacement)
  {
    if IsNullOrEmpty(s) || IsNullOrEmpty(pattern) || replacement.None? {
      return Ok(s);
    }
    var str, pat, rep := s.value, pattern.value, replacement.value;
    var inc := Wrap32((|str| / |pat|) * (|rep| - |pat|));
    var size := Wrap32(|str| + Max(0, inc));
    if size < 0 {
      return Err(Overflow);
    }
    var chars := new char[size];
    r := FillBuffer(chars, str, pat, rep);
  }

  /** Everything `ReplaceIgnoreCase` does once the buffer exists: with no
      match the text comes back; a result longer than the buffer throws;
      otherwise the buffer holds the text with every match replaced. */
  method FillBuffer(chars: array<char>, str: string, pat: string, rep: string) returns (r: Result<Option<string>>)
    requires 0 < |pat|
    modifies chars
    ensures IndexOf(Upper(str), Upper(pat), 0).None? ==> r == Ok(Some(str))
    ensures IndexOf(Upper(str), Upper(pat), 0).Some? ==>
              r == if chars.Length < |ReplaceFrom(str, pat, rep, 0)| then Err(IndexOutOfRange)
                   else Ok(Some(ReplaceFrom(str, pat, rep, 0)))
  {
    var upperString, upperPattern := Upper(str), Upper(pat);
    var count, position0, ok := ReplaceMatches(chars, str, pat, rep, upperString, upperPattern);
    if !ok {
      return Err(IndexOutOfRange);
    }
    if position0 == 0 {
      return Ok(Some(str));
    }
    ReplaceFromDone(str, pat, rep, position0);
    ghost var done := chars[..count];
    count, ok := CopyRange(chars, count, str, position0, |str|);
    if !ok {
      return Err(IndexOutOfRange);
    }
    assert chars[..count] == done + str[position0..] == ReplaceFrom(str, pat, rep, 0);
    r := Ok(Some(chars[..count]));
  }

  /** The main loop of `ReplaceIgnoreCase`: while a match is found at or after
      `position0`, copy the text before it and the replacement. On exit no
      match is left after `position0`, which is 0 only when there was none;
      a write past the end of the buffer stops it with `ok` false. */
  method ReplaceMatches(chars: array<char>, str: string, pat: string, rep: string, upperString: string, upperPattern: string)
    returns (count: nat, position0: nat, ok: bool)
    requires 0 < |pat| && upperString == Upper(str) && upperPattern == Upper(pat)
    modifies chars
    ensures position0 <= |str| && count <= chars.Length
    ensures position0 > 0 || !ok ==> IndexOf(upperString, upperPattern, 0).Some?
    ensures !ok ==> |ReplaceFrom(str, pat, rep, 0)| > chars.Length
    ensures ok ==> IndexOf(upperString, upperPattern, position0).None?
    ensures ok ==> chars[..count] + ReplaceFrom(str, pat, rep, position0) == ReplaceFrom(str, pat, rep, 0)
  {
    ghost var total := ReplaceFrom(str, pat, rep, 0);
    count, position0 := 0, 0;
    var found := IndexOf(upperString, upperPattern, position0);
    while found.Some?
      invariant position0 <= |str| && count <= chars.Length
      invariant found == IndexOf(upperString, upperPattern, position0)
      invariant position0 > 0 ==> IndexOf(upperString, upperPattern, 0).Some?
      invariant chars[..count] + ReplaceFrom(str, pat, rep, position0) == total
      decreases |str| - position0
    {
      var position1 := found.value;
      ghost var first := IndexOf(upperString, upperPattern, 0);
      count, position0, ok := CopyMatch(chars, count, str, pat, rep, position0, position1, total);
      if !ok {
        return;
      }
      found := IndexOf(upperString, upperPattern, position0);
    }
    ok := true;
  }

  /** Without a case-insensitive match the input comes back unchanged; null,
      empty or missing arguments do too. */
  lemma ReplaceIgnoreCaseUnchanged(s: Option<string>, pattern: Option<string>, replacement: Option<string>)
    requires IsNullOrEmpty(s) || IsNullOrEmpty(pattern) || replacement.None?
             || (IndexOf(Upper(s.value), Upper(pattern.value), 0).None?
                 && BufferLength(|s.value|, |pattern.value|, |replacement.value|) >= 0)
    ensures ReplaceIgnoreCaseResult(s, pattern, replacement) == Ok(s)
    ensures ReplaceIgnoreCaseIntended(s, pattern, replacement) == s
  {
    if !(IsNullOrEmpty(s) || IsNullOrEmpty(pattern) || replacement.None?) {
      ReplaceFromNoMatch(s.value, pattern.value, replacement.value);
    }
  }
}

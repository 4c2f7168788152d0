# ExtensionsLibrary core, modelled in Dafny

This project models the self-contained logic of the C# ExtensionsLibrary: a
set of static extension methods on strings, lists, string builders, GUIDs,
dates, numbers and plain objects. One Dafny module stands for each C# source
file:

- `StringExtensions`, `ListExtensions`, `EnumerableExtensions`
- `StringBuilderExtensions`, `ApiHelper`, `IOExtensions`
- `GuidExtensions`, `JsonExtensions`, `NumericMethods`, `DateExtensions`
- `ObjectExtensions`, `ModelStateExtensions`, `ClaimsIdentityExtensions`
- `BooleanExtensions`, `TypeExtensions`

Three shared modules hold what those files take from .NET:

- `Wrappers`: `Option` for a C# reference that may be `null`, `Result` for an
  operation that may throw (the error names the .NET exception), the `byte`
  type, and C#'s truncating `/` and `%`.
- `Text`: the string primitives the library calls. These are `Trim` and its
  one-sided forms, `IndexOf`, `Split`, `string.Join`, `Where` (`Filter`),
  ordinal comparison, decimal rendering and parsing, and `PadLeft`.
- `Framework`: the mutable .NET objects the library updates in place.
  `List<T>`, `HashSet<T>` and `StringBuilder` are classes whose state is a
  `seq`, a `set` and a `string`.

Form follows the source:
- Code that mutates its argument is a `method` on a class with a `modifies`
  clause. This covers the list and set helpers, `AppendWithDelimiter`,
  `AppendUrlEncoded`, `TrimStringProperties` and the `char[]` overload of
  `ReplaceCharacterAtIndexPosition`.
- Code that loops is a `method` with loop invariants. Each such method is
  proved equal to a specification function (`RemoveWhiteSpace`,
  `ReplaceIgnoreCase`, `Partition`, `SearchList`, `ToNormalizedString`,
  `GetModelStateItems`, `IsPrime`, the `ObjectComare` constructor and
  `WriteJsonToFileAsArrayElement`).
- Expression-only code is a `function`.

Arguments that the library passes through to the platform are function
parameters. These are `Uri.EscapeDataString`, `HttpUtility.UrlEncode`,
`object.ToString()`, UTF-8 encoding, date formatting, `Environment.NewLine`,
the clock and `Guid.NewGuid()`.

## Model

| member | source | states |
|---|---|---|
| StringExtensions.IsSameAsNullIsBlank | ExtensionsLibrary/StringExtensions.cs:22-27 | null compares equal to exactly the null, empty and all-white-space strings |
| StringExtensions.IsSameAsEquivalence | ExtensionsLibrary/StringExtensions.cs:22-27 | the trimmed case-insensitive comparison is reflexive, symmetric and transitive |
| StringExtensions.IsSameAs | ExtensionsLibrary/StringExtensions.cs:22-27 | true iff the trimmed texts, null read as "", are equal ignoring case; equal texts then have equal trimmed lengths |
| StringExtensions.ToEmptyIfNullOrWhitespace | ExtensionsLibrary/StringExtensions.cs:235-238 | a null or blank string becomes "", any other string is returned unchanged |
| StringExtensions.ToNullIfEmptyOrWhitespace | ExtensionsLibrary/StringExtensions.cs:245-250 | null exactly for null or blank input; otherwise the trimmed text, non-empty and without white space at either end |
| StringExtensions.ReplaceIfNullOrWhitespace | ExtensionsLibrary/StringExtensions.cs:808-811 | the replacement exactly when the input is null or blank, the input otherwise |
| StringExtensions.HasValue | ExtensionsLibrary/StringExtensions.cs:547-550 | true iff the string is non-null and has a character that is not white space |
| StringExtensions.IsNumeric | ExtensionsLibrary/StringExtensions.cs:279-282 | true iff every character is a decimal digit (so also for ""); only '0'..'9' are digits here |
| StringExtensions.IsNumericReadsBack | ExtensionsLibrary/StringExtensions.cs:279-282 | the decimal rendering of every natural number is numeric and parses back to the number |
| StringExtensions.TrimStart | ExtensionsLibrary/StringExtensions.cs:36-49 | a null argument returns the source; otherwise exactly one leading occurrence is removed when the source starts with it under the comparison, and the source is returned unchanged when it does not |
| StringExtensions.TrimStartRemovesOnce | ExtensionsLibrary/StringExtensions.cs:36-49 | only one occurrence goes: a source starting with the trim string twice keeps the second copy, under either comparison |
| StringExtensions.TrimEnd | ExtensionsLibrary/StringExtensions.cs:58-68 | a null argument returns the input; otherwise exactly one trailing occurrence is removed when the input ends with it, and the input is returned unchanged when it does not |
| StringExtensions.Left | ExtensionsLibrary/StringExtensions.cs:76-79 | null, "" or a length beyond the string returns the string; 0 <= length <= \|s\| gives the first length characters; a negative length throws |
| StringExtensions.Right | ExtensionsLibrary/StringExtensions.cs:87-90 | same cases as Left, giving the last length characters |
| StringExtensions.LeftRightSplit | ExtensionsLibrary/StringExtensions.cs:76-90 | Left(k) followed by Right(\|s\| - k) is the whole string |
| StringExtensions.Reduce | ExtensionsLibrary/StringExtensions.cs:678-687 | max > \|s\| or empty endings returns s; \|endings\| <= max <= \|s\| gives exactly max characters that start with s's prefix and end with endings; a max below \|endings\| throws |
| StringExtensions.CapitalizeFirstLetter | ExtensionsLibrary/StringExtensions.cs:167-181 | a blank string is returned as is; otherwise same length, first character upper-cased, the rest unchanged |
| StringExtensions.UppercaseFirstLetter | ExtensionsLibrary/StringExtensions.cs:639-649 | null and "" are returned as is; otherwise same length, first character upper-cased, the rest unchanged |
| StringExtensions.CapitalizeAgreesWithUppercase | ExtensionsLibrary/StringExtensions.cs:167-181 | the two capitalisers give the same result on every input |
| StringExtensions.ReplaceCharacterAtIndexPositionInPlace | ExtensionsLibrary/StringExtensions.cs:214-228 | a null or empty array yields a fresh empty array; an index out of range leaves the array untouched; otherwise only cell index changes, in place, and the same array is returned |
| StringExtensions.ReplaceCharacterAtIndexPosition | ExtensionsLibrary/StringExtensions.cs:190-205 | null, "" or an index out of range return the string; otherwise same length, index holds chr and every other position is unchanged |
| StringExtensions.ReplaceCharacterAt | ExtensionsLibrary/StringExtensions.cs:462-472 | null or "" gives ""; an index out of range throws; otherwise only position index changes |
| StringExtensions.ReplaceAllCharacters | ExtensionsLibrary/StringExtensions.cs:480-490 | "" for null or ""; otherwise a string of the same length made only of the given character |
| StringExtensions.ReverseString | ExtensionsLibrary/StringExtensions.cs:394-399 | same length, character i is character \|s\|-1-i of the input |
| StringExtensions.ReverseStringInvolution | ExtensionsLibrary/StringExtensions.cs:394-399 | reversing twice gives the string back |
| StringExtensions.RemoveWhiteSpace | ExtensionsLibrary/StringExtensions.cs:406-453 | null for null; otherwise the characters that are not white space, in order, compacted in a char array |
| StringExtensions.CompactOne | ExtensionsLibrary/StringExtensions.cs:415-450 | one turn of the compaction loop: the written prefix is the filter of the characters read, and the unread suffix is untouched |
| StringExtensions.RemoveWhiteSpaceProperties | ExtensionsLibrary/StringExtensions.cs:406-453 | no white space is left, a character survives iff it was present and is not white space, and a second application changes nothing |
| StringExtensions.RemoveControlCharacters | ExtensionsLibrary/StringExtensions.cs:722-730 | null iff null; otherwise the non-control characters in order, none of them a control character |
| StringExtensions.RemoveNonAsciiCharacters | ExtensionsLibrary/StringExtensions.cs:737-740 | null iff null; otherwise exactly the characters in U+0020..U+007E, in order |
| StringExtensions.RemoveNonAsciiCharactersKeeps | ExtensionsLibrary/StringExtensions.cs:737-740 | printable-ASCII input is returned unchanged; a character survives iff it was present and is printable ASCII |
| StringExtensions.TrimmedWordsShape | ExtensionsLibrary/StringExtensions.cs:346-355 | every word produced is non-empty, trimmed and free of the separators |
| StringExtensions.SplitOnCharacterAndTrim | ExtensionsLibrary/StringExtensions.cs:346-355 | the non-blank pieces of the trimmed text split on the separator, space, CR, LF and tab, each trimmed; every piece is non-empty, trimmed and free of those characters |
| StringExtensions.SplitOnCharacterAndTrimJoin | ExtensionsLibrary/StringExtensions.cs:346-355 | joining well-shaped pieces with the separator and splitting again gives the pieces back |
| StringExtensions.ReplaceTagsLeavesNoTag | ExtensionsLibrary/StringExtensions.cs:694-715 | after the lazy `<(.\|\n)*?>` replacement no '<' is followed later by '>' |
| StringExtensions.StripHTML | ExtensionsLibrary/StringExtensions.cs:694-715 | a null or blank input is returned as is; any other input gives a non-null string |
| StringExtensions.StripHTMLSingleSpaced | ExtensionsLibrary/StringExtensions.cs:694-715 | the output has no leading or trailing space and no two spaces in a row |
| StringExtensions.StripHTMLWords | ExtensionsLibrary/StringExtensions.cs:694-715 | the output is the words of the tag-free text joined by single spaces: its words are those words, it is "" iff there are none, and splitting it on ' ' gives them back |
| StringExtensions.StripHTMLPlainText | ExtensionsLibrary/StringExtensions.cs:694-715 | text without '<' that is already single-spaced words is returned unchanged |
| StringExtensions.StripHTMLLeavesNoTag | ExtensionsLibrary/StringExtensions.cs:694-715 | the output holds no '<' followed later by '>' |
| StringExtensions.CountWords | ExtensionsLibrary/StringExtensions.cs:747-756 | 0 for a null or blank string; otherwise exactly the number of space-delimited words longer than one character, which is at most half the length |
| StringExtensions.LongWordsBound | ExtensionsLibrary/StringExtensions.cs:747-756 | twice the number of words longer than one character is at most their total length |
| StringExtensions.CountWordsOfJoin | ExtensionsLibrary/StringExtensions.cs:747-756 | words joined by single spaces count as the number of those words longer than one character |
| StringExtensions.FixFilenameExtension | ExtensionsLibrary/StringExtensions.cs:572-585 | a blank extension is returned as is; one starting with '.' is returned unchanged; any other gets '.' in front |
| StringExtensions.FixFilenameExtensionIdempotent | ExtensionsLibrary/StringExtensions.cs:572-585 | fixing twice is fixing once |
| StringExtensions.ToRfc3986EncodedString | ExtensionsLibrary/StringExtensions.cs:592-602 | the data-escaped text with each of ! * ' ( ) hex-escaped; none of those five characters remains |
| StringExtensions.SequentialIsOnePass | ExtensionsLibrary/StringExtensions.cs:592-602 | the five successive `Replace` calls equal one pass escaping each character, since no escape holds another target |
| StringExtensions.EscapeSubDelimsRemovesAll | ExtensionsLibrary/StringExtensions.cs:592-602 | after escaping, none of the five sub-delimiters remains |
| StringExtensions.ReplaceFromStep | ExtensionsLibrary/StringExtensions.cs:512-525 | with a case-insensitive match at i, the result is the text before i, the replacement, then the result from just after the match |
| StringExtensions.ReplaceFromDone | ExtensionsLibrary/StringExtensions.cs:532-535 | without a further match, the rest of the text is copied verbatim |
| StringExtensions.ReplaceFromLength | ExtensionsLibrary/StringExtensions.cs:499-538 | the result length is the text length plus (\|replacement\| - \|pattern\|) per match, and the matches cover at most the text |
| StringExtensions.ReplaceFromNoMatch | ExtensionsLibrary/StringExtensions.cs:527-530 | with no case-insensitive match the text is unchanged |
| StringExtensions.MatchBudget | ExtensionsLibrary/StringExtensions.cs:510-511 | k non-overlapping matches of a non-empty pattern change the length by at most max(0, (\|s\| div \|pattern\|) * d) |
| StringExtensions.ReplaceBudget | ExtensionsLibrary/StringExtensions.cs:510-511 | the buffer of length \|s\| + max(0, (\|s\| div \|pattern\|) * (\|replacement\| - \|pattern\|)), computed without wrapping, always holds the result |
| StringExtensions.CopyRange | ExtensionsLibrary/StringExtensions.cs:514-517 | the copy loop appends exactly the given slice when it fits, and reports failure iff it does not fit the buffer |
| StringExtensions.ReplaceProgress | ExtensionsLibrary/StringExtensions.cs:512-525 | one turn of the main loop keeps "buffer contents + remaining result = final result" |
| StringExtensions.CopyMatch | ExtensionsLibrary/StringExtensions.cs:514-524 | the body of the main loop writes the text before the match and the replacement, then resumes after the match, keeping the loop invariant; a failed write means the result exceeds the buffer |
| StringExtensions.CopyPiece | ExtensionsLibrary/StringExtensions.cs:514-522 | the text before a match followed by the replacement is appended iff it fits the buffer |
| StringExtensions.ReplaceMatches | ExtensionsLibrary/StringExtensions.cs:512-525 | on success no match is left after position0, position0 is 0 only when there was no match, and the buffer followed by the rest of the text is the final result; a failed write means the result exceeds the buffer |
| StringExtensions.ReplaceIgnoreCase | ExtensionsLibrary/StringExtensions.cs:499-538 | degenerate arguments or no match return s; a negative wrapped buffer size throws an overflow error; a result longer than the buffer throws IndexOutOfRange; otherwise every leftmost non-overlapping case-insensitive match is replaced |
| StringExtensions.FillBuffer | ExtensionsLibrary/StringExtensions.cs:512-537 | with no match the input is returned; otherwise the replaced text, or IndexOutOfRange when it is longer than the buffer |
| StringExtensions.ReplaceIgnoreCaseIntended | ExtensionsLibrary/StringExtensions.cs:499-538 | null iff s is null; the length grows by (\|replacement\| - \|pattern\|) per match |
| StringExtensions.BufferWithoutWrap | ExtensionsLibrary/StringExtensions.cs:510-511 | when the unwrapped size fits 32 bits, the wrapped computation gives it exactly |
| StringExtensions.ReplaceWithoutOverflow | ExtensionsLibrary/StringExtensions.cs:499-538 | when the buffer size fits 32 bits the method gives the intended replacement and never throws |
| StringExtensions.ShortBuffer | ExtensionsLibrary/StringExtensions.cs:510-537 | a match with a replacement longer than the pattern and a wrapped buffer no longer than s throws IndexOutOfRange |
| StringExtensions.ReplaceIgnoreCaseOverflows | ExtensionsLibrary/StringExtensions.cs:510-511 | one million characters starting with 'a', pattern "a" and a 2149-character replacement wrap the buffer size to 1000000, and the call throws IndexOutOfRange |
| Wrappers.Wrap32 | ExtensionsLibrary/StringExtensions.cs:510-511 | the result is a 32-bit value, equal to the input when that fits |
| StringExtensions.ReplaceIgnoreCaseUnchanged | ExtensionsLibrary/StringExtensions.cs:501-531 | degenerate arguments or no case-insensitive match return s unchanged |
| ListExtensions.AddIfNotExists | ExtensionsLibrary/ListExtensions.cs:8-16 | the element is appended iff it is absent, the list is otherwise unchanged, and the same list is returned |
| ListExtensions.AddIfNotExistsValues | ExtensionsLibrary/ListExtensions.cs:18-32 | each value is appended in order unless already present, counting values added earlier in the call; a null list or null values changes nothing |
| ListExtensions.AddAllAbsentProperties | ExtensionsLibrary/ListExtensions.cs:18-32 | the old list is a prefix, an element ends up present iff it was in the list or the values, and a duplicate-free list stays duplicate-free |
| ListExtensions.AddAllAbsentSelf | ExtensionsLibrary/ListExtensions.cs:18-32 | adding a list to itself changes nothing |
| ListExtensions.AddAllAbsentPresent | ExtensionsLibrary/ListExtensions.cs:18-32 | values that are all present already change nothing |
| ListExtensions.RemoveIfExists | ExtensionsLibrary/ListExtensions.cs:34-42 | the first occurrence is removed and the same list returned |
| ListExtensions.RemoveFirstProperties | ExtensionsLibrary/ListExtensions.cs:34-42 | an absent element leaves the list unchanged; otherwise one element fewer, namely the first occurrence, with all others kept in order, and the multiset loses one copy |
| ListExtensions.AddIfNotExistsToSet | ExtensionsLibrary/ListExtensions.cs:44-52 | the element is present afterwards, no other member changes, and the same set is returned |
| ListExtensions.RemoveIfExistsFromSet | ExtensionsLibrary/ListExtensions.cs:54-62 | the element is absent afterwards, no other member changes, and the same set is returned |
| ListExtensions.CeilDiv | ExtensionsLibrary/ListExtensions.cs:70 | the chunk size is the least m with m * t >= n |
| ListExtensions.Partition | ExtensionsLibrary/ListExtensions.cs:67-90 | the nested loops, with `k` and `k + maxSize` in 32-bit `int`, return the partitions as written: no partitions when totalPartitions <= 0; an empty partition when the bound wraps below `k`; ArgumentOutOfRange once `k` itself has wrapped negative; otherwise list[k .. min(k + maxSize, n)] |
| ListExtensions.TakeChunk | ExtensionsLibrary/ListExtensions.cs:74-83 | the inner loop collects list[k .. min(k + maxSize, n)] when the wrapped bound lies above a non-negative k, nothing when it does not exceed k, and throws ArgumentOutOfRange for a negative k |
| ListExtensions.ErrPersists | ExtensionsLibrary/ListExtensions.cs:72-87 | once an inner loop has thrown, the whole call ends with that exception |
| ListExtensions.KAtExact | ExtensionsLibrary/ListExtensions.cs:71-85 | while i * maxSize fits in 32 bits, the offset at the start of turn i is exactly i * maxSize |
| ListExtensions.ChunksWithoutWrap | ExtensionsLibrary/ListExtensions.cs:72-87 | while c * maxSize fits in 32 bits, the first c partitions are the intended chunks list[i*m .. min((i+1)*m, n)] |
| ListExtensions.PartitionWithoutWrap | ExtensionsLibrary/ListExtensions.cs:67-90 | when totalPartitions * maxSize fits in 32 bits, `Partition` returns exactly the intended partitions and never throws |
| ListExtensions.PartitionOfSmallList | ExtensionsLibrary/ListExtensions.cs:67-90 | in particular whenever n + totalPartitions <= 2^31 |
| ListExtensions.LastChunkLost | ExtensionsLibrary/ListExtensions.cs:75-85 | when the last partition starts inside the list but its `k + maxSize` passes int.MaxValue, every earlier partition is intended and the last one, which should hold list[k..], comes back empty |
| ListExtensions.PartitionDropsTail | ExtensionsLibrary/ListExtensions.cs:75-85 | a list of 2147483591 elements in 1000 partitions: maxSize is 2147484, the last partition comes back empty instead of holding 2147075 elements, and the concatenation is only the first 2145336516 elements |
| ListExtensions.PartitionProperties | ExtensionsLibrary/ListExtensions.cs:67-90 | the intended partitions: for totalPartitions > 0 there are exactly totalPartitions chunks, each of size at most m, and their concatenation is the input |
| ListExtensions.ChunksCover | ExtensionsLibrary/ListExtensions.cs:72-87 | chunks of size m that reach past the end of the list concatenate back to the list |
| ListExtensions.ChunksFlatten | ExtensionsLibrary/ListExtensions.cs:72-87 | the first i chunks concatenate to the first min(i*m, n) elements |
| ListExtensions.SearchList | ExtensionsLibrary/ListExtensions.cs:95-119 | empty for a blank search value or a null list; otherwise, in order, the items with a column whose text contains the trimmed value ignoring case |
| ListExtensions.AnyColumnMatches | ExtensionsLibrary/ListExtensions.cs:107-115 | the inner loop finds a match iff some column of the item matches |
| ListExtensions.SearchListMembership | ExtensionsLibrary/ListExtensions.cs:95-119 | an item is in the result iff it is in the list and matches, and it appears exactly as often as in the list |
| EnumerableExtensions.ToEmptyIfNull | ExtensionsLibrary/EnumerableExtensions.cs:23-26 | null becomes a fresh empty list; a non-null list is returned itself |
| EnumerableExtensions.ToEmptyListIfNull | ExtensionsLibrary/EnumerableExtensions.cs:34-37 | a fresh list holding the elements, empty for null |
| EnumerableExtensions.HasRecordsIsNotEmpty | ExtensionsLibrary/EnumerableExtensions.cs:45-61 | HasRecords is the negation of IsNullOrEmpty for every input including null, and holds iff there is an element |
| EnumerableExtensions.ToCommaSeparatedList | ExtensionsLibrary/EnumerableExtensions.cs:70-73 | a null list throws; otherwise `string.Join` of the texts, with null rendered as "" and the length accounted for |
| EnumerableExtensions.AddIfNotNull | ExtensionsLibrary/EnumerableExtensions.cs:82-90 | the item is appended iff it is non-null, and the same list is returned |
| EnumerableExtensions.AddRangeIfNotNullOrEmpty | ExtensionsLibrary/EnumerableExtensions.cs:99-107 | all of listToAdd is appended in order iff it is non-null and non-empty; the list is unchanged otherwise |
| EnumerableExtensions.ContainsCaseInsensitive | ExtensionsLibrary/EnumerableExtensions.cs:172-180 | false for a null or empty list or a null word; otherwise true iff some non-null element equals the word ignoring case |
| EnumerableExtensions.EncodedPairs | ExtensionsLibrary/EnumerableExtensions.cs:191-199 | one pair per entry whose raw key is not "oauth_signature" or "realm" |
| EnumerableExtensions.PairLeTransitive | ExtensionsLibrary/EnumerableExtensions.cs:201-209 | the comparator (ordinal by name, then by value) is transitive |
| EnumerableExtensions.PairLeTotal | ExtensionsLibrary/EnumerableExtensions.cs:201-209 | the comparator orders any two pairs |
| EnumerableExtensions.PairLeAntisymmetric | ExtensionsLibrary/EnumerableExtensions.cs:201-209 | the comparator tells any two different pairs apart |
| EnumerableExtensions.Insert | ExtensionsLibrary/EnumerableExtensions.cs:201-209 | inserting adds exactly one copy of the pair |
| EnumerableExtensions.InsertSorted | ExtensionsLibrary/EnumerableExtensions.cs:201-209 | inserting into a sorted list keeps it sorted |
| EnumerableExtensions.SortPairs | ExtensionsLibrary/EnumerableExtensions.cs:201-209 | the sorted list is a permutation of the pairs |
| EnumerableExtensions.SortPairsSorted | ExtensionsLibrary/EnumerableExtensions.cs:201-209 | the sorted list is ordered by the comparator |
| EnumerableExtensions.SortedUnique | ExtensionsLibrary/EnumerableExtensions.cs:201-209 | two sorted permutations of the same pairs are equal, so the result does not depend on the sort algorithm or its stability |
| EnumerableExtensions.ToNormalizedString | ExtensionsLibrary/EnumerableExtensions.cs:188-217 | the result is the sorted pairs, each rendered as '&' name '=' value, with the leading '&' characters trimmed |
| EnumerableExtensions.CollectPairs | ExtensionsLibrary/EnumerableExtensions.cs:191-199 | the first loop builds the encoded pairs of the included entries, in order, with a null value encoded as "" |
| EnumerableExtensions.AppendPairs | ExtensionsLibrary/EnumerableExtensions.cs:210-214 | the last loop appends '&' name '=' value for every pair, in order |
| EnumerableExtensions.EncodedPairsMembership | ExtensionsLibrary/EnumerableExtensions.cs:191-199 | a pair is produced exactly for each included entry, from its encoded key and encoded value (null read as "") |
| EnumerableExtensions.NormalizedPairsSorted | ExtensionsLibrary/EnumerableExtensions.cs:201-209 | the pairs that are written are sorted and are a permutation of the encoded pairs |
| EnumerableExtensions.NormalizedStringIsJoin | ExtensionsLibrary/EnumerableExtensions.cs:210-216 | when no encoded name starts with '&', the output is the sorted "name=value" pairs joined by '&'; it is "" when no pair remains |
| EnumerableExtensions.TrimmedPrefixEachIsJoin | ExtensionsLibrary/EnumerableExtensions.cs:210-216 | trimming the leading '&' characters from the '&'-prefixed renderings gives their '&'-join |
| StringBuilderExtensions.AppendWithDelimiter | ExtensionsLibrary/StringBuilderExtensions.cs:15-29 | the same builder is returned, and its new contents are given by AppendedWithDelimiter of the old contents |
| StringBuilderExtensions.AppendWithDelimiterCases | ExtensionsLibrary/StringBuilderExtensions.cs:17-27 | a skipped blank value leaves the contents; an empty builder gets exactly the value; a non-empty one gets delimiter and value; the old contents stay a prefix |
| StringBuilderExtensions.AppendAllIsJoin | ExtensionsLibrary/StringBuilderExtensions.cs:15-29 | appending non-empty values one by one to an empty builder gives their `string.Join` |
| ApiHelper.AppendToPath | ExtensionsLibrary/ApiHelper.cs:14-20 | null reads as empty; the result is the left part, the separator, then the right part, with exactly one separator at the junction |
| ApiHelper.LeftPart | ExtensionsLibrary/ApiHelper.cs:16-19 | the left part is a prefix of the trimmed path and does not end with a space or the separator |
| ApiHelper.RightPart | ExtensionsLibrary/ApiHelper.cs:16-19 | the right part is a suffix of the trimmed path and does not start with a space or the separator |
| ApiHelper.AppendToPathBlank | ExtensionsLibrary/ApiHelper.cs:14-20 | two blank paths give just the separator |
| ApiHelper.AppendUrlEncoded | ExtensionsLibrary/ApiHelper.cs:22-37 | '&' is written first iff the builder was non-empty, then enc(name) "=" enc(value); the old contents are kept |
| IOExtensions.LeftPart | ExtensionsLibrary/IOExtensions.cs:19-22 | the left part is a prefix of the trimmed path and does not end with '\\' |
| IOExtensions.RightPart | ExtensionsLibrary/IOExtensions.cs:19-22 | the right part is a suffix of the trimmed path and does not start with '\\' |
| IOExtensions.CombinePaths | ExtensionsLibrary/IOExtensions.cs:17-23 | nulls read as empty; left part, '\\', right part, with exactly one separator at the junction |
| IOExtensions.CombinePathsBlank | ExtensionsLibrary/IOExtensions.cs:17-23 | two null or blank paths give "\\" |
| GuidExtensions.B64Char | ExtensionsLibrary/GuidExtensions.cs:32 | each 6-bit value maps to a character of the base-64 alphabet |
| GuidExtensions.B64Value | ExtensionsLibrary/GuidExtensions.cs:42 | each alphabet character maps back to the 6-bit value that produced it |
| GuidExtensions.B64ValueOfChar | ExtensionsLibrary/GuidExtensions.cs:32-42 | the character map and the value map are inverse |
| GuidExtensions.Base64Encode | ExtensionsLibrary/GuidExtensions.cs:32 | the encoding is whole quartets and is empty iff the input is |
| GuidExtensions.DecodeEncodeGroup | ExtensionsLibrary/GuidExtensions.cs:32-42 | decoding an encoded 3-byte group gives back the three bytes |
| GuidExtensions.Base64Length | ExtensionsLibrary/GuidExtensions.cs:32 | the encoding has 4 * ceil(n / 3) characters |
| GuidExtensions.Base64RoundTrip | ExtensionsLibrary/GuidExtensions.cs:32-42 | `Convert.FromBase64String` of `Convert.ToBase64String(b)` is b, for every byte sequence |
| GuidExtensions.NoSpaceInEncoding | ExtensionsLibrary/GuidExtensions.cs:32 | the encoding holds no character the decoder skips |
| GuidExtensions.DecodeQuartetsEncode | ExtensionsLibrary/GuidExtensions.cs:32-42 | decoding the quartets of an encoding gives the bytes back |
| GuidExtensions.EncodingOf16 | ExtensionsLibrary/GuidExtensions.cs:32-35 | 16 bytes encode to 24 characters, the last two "==" and the first 22 from the alphabet |
| GuidExtensions.UrlSafeShape | ExtensionsLibrary/GuidExtensions.cs:32-35 | after the two substitutions the text is the encoding with '/' and '+' mapped character by character |
| GuidExtensions.Encode | ExtensionsLibrary/GuidExtensions.cs:30-36 | exactly 22 characters, none of them '+', '/' or '=' |
| GuidExtensions.Decode | ExtensionsLibrary/GuidExtensions.cs:38-44 | a successful decode undoes '_'→'/' and '-'→'+', appends "==" and base-64 decodes to the returned bytes |
| GuidExtensions.DecodeEncode | ExtensionsLibrary/GuidExtensions.cs:30-44 | Decode(Encode(g)) == g for every GUID |
| GuidExtensions.EncodeInjective | ExtensionsLibrary/GuidExtensions.cs:30-36 | different GUIDs have different codes |
| GuidExtensions.GetShortGuid | ExtensionsLibrary/GuidExtensions.cs:13-17 | prefix, then the 22-character code of the drawn GUID, then suffix, with a null prefix or suffix rendered empty |
| JsonExtensions.LastSignificant | ExtensionsLibrary/JsonExtensions.cs:177-186 | the backward scan stops at the last byte that is neither 0 nor white space, and finds none when every byte is skipped |
| JsonExtensions.Overwrite | ExtensionsLibrary/JsonExtensions.cs:187-195 | writing at p keeps the bytes before p and the old bytes past the written ones, and the length is max(old length, p + written length) |
| JsonExtensions.ElementText | ExtensionsLibrary/JsonExtensions.cs:189 | the text written over the bracket ends with ']' |
| JsonExtensions.WriteJsonToFileAsArrayElement | ExtensionsLibrary/JsonExtensions.cs:162-210 | a missing file is created as "[" NL json NL "]"; a closing ']' found by the backward scan is overwritten with "," NL json NL "]"; any other last byte leaves the file unchanged |
| JsonExtensions.AppendKeepsArrayClosed | ExtensionsLibrary/JsonExtensions.cs:187-195 | after an append the last significant byte is the new ']', so the file can be appended to again |
| JsonExtensions.OverwriteClosing | ExtensionsLibrary/JsonExtensions.cs:187-195 | writing bytes that end in ']' at the last significant position moves that position to the new ']' |
| JsonExtensions.AppendWithoutBracketIsNoop | ExtensionsLibrary/JsonExtensions.cs:178-198 | without a significant byte, or with one other than ']', the file is unchanged |
| NumericMethods.IsPositiveValue | ExtensionsLibrary/NumericMethods.cs:14-17 | true iff the nullable has a value above 0 |
| NumericMethods.IsPositiveLongValue | ExtensionsLibrary/NumericMethods.cs:26-29 | true iff the nullable has a value above 0 |
| NumericMethods.IsPositiveOverloadsAgree | ExtensionsLibrary/NumericMethods.cs:14-29 | true iff a value is present and above 0; the int and long overloads agree, and both are false for null |
| NumericMethods.ToLong | ExtensionsLibrary/NumericMethods.cs:86-89 | the value is preserved |
| NumericMethods.IsPrime | ExtensionsLibrary/NumericMethods.cs:38-59 | true iff no i in [2, number) divides number; so false for 1, true for 2, true for every number <= 0, and for number >= 1 true iff number is prime |
| NumericMethods.PrimeIffNoDivisor | ExtensionsLibrary/NumericMethods.cs:50-58 | for n >= 1, having no divisor in [2, n) is having only the divisors 1 and n |
| NumericMethods.IsPrimeNonPositive | ExtensionsLibrary/NumericMethods.cs:37-58 | as written, every number below 1 passes the test although none is prime |
| NumericMethods.IsPrimeIntended | ExtensionsLibrary/NumericMethods.cs:30-58 | true exactly for the primes, and agreeing with the loop's test on every number >= 1 |
| NumericMethods.ToHoursMinutesSecondsAndMiliseconds | ExtensionsLibrary/NumericMethods.cs:96-100 | throws an overflow error exactly when the count is beyond the range `TimeSpan` accepts |
| NumericMethods.LayoutFields | ExtensionsLibrary/NumericMethods.cs:98 | the reading is HH "h:" MM "m:" SS "s:" FF "ms", field by field |
| NumericMethods.D2RoundTrip | ExtensionsLibrary/NumericMethods.cs:98 | D2 of a number below 100 is two digits that read back as that number |
| NumericMethods.D2Milliseconds | ExtensionsLibrary/NumericMethods.cs:98 | D2 of a number below 1000 is two or three digits that read back as that number |
| NumericMethods.ReadingFields | ExtensionsLibrary/NumericMethods.cs:98 | the reading has 16 or 17 characters, its separators in place and its digit fields reading back as hours, minutes, seconds and milliseconds |
| NumericMethods.ClockReading | ExtensionsLibrary/NumericMethods.cs:96-100 | for 0 <= ms in range, the fields are (ms div 3600000) mod 24, (ms div 60000) mod 60, (ms div 1000) mod 60 and ms mod 1000 |
| NumericMethods.ClockFieldsRecoverTimeOfDay | ExtensionsLibrary/NumericMethods.cs:96-100 | the four fields determine ms modulo one day, so only whole days are dropped |
| DateExtensions.IsBetweenDatesProperties | ExtensionsLibrary/DateExtensions.cs:16-19 | an inclusive tick-range test: false for every date when start > end, and true for the date itself |
| DateExtensions.IsBetweenDates | ExtensionsLibrary/DateExtensions.cs:16-19 | true only when start <= end; for start = end, true iff the date is that instant |
| DateExtensions.BucketOf | ExtensionsLibrary/DateExtensions.cs:43-97 | the rung chosen is the one whose interval of seconds holds the elapsed time |
| DateExtensions.BucketUnique | ExtensionsLibrary/DateExtensions.cs:43-97 | every elapsed time falls on exactly one rung |
| DateExtensions.BucketMonotone | ExtensionsLibrary/DateExtensions.cs:43-97 | a longer elapsed time never selects an earlier rung |
| DateExtensions.ToElapsedTimeInWords | ExtensionsLibrary/DateExtensions.cs:26-34 | "" exactly for null; the wording never is "" otherwise |
| DateExtensions.ElapsedWords | ExtensionsLibrary/DateExtensions.cs:41-98 | the wording is never empty |
| DateExtensions.ElapsedWordsAgo | ExtensionsLibrary/DateExtensions.cs:41-98 | "just now" and "yesterday" exactly on their rungs, and every other wording ends in " ago" |
| DateExtensions.WordsInThePast | ExtensionsLibrary/DateExtensions.cs:41-98 | for a past end time, "N minutes/hours/days ago" shows the whole units elapsed with N in range; "one month ago" iff fewer than 60 days; "one year ago" iff fewer than 730 days |
| DateExtensions.MinutesBelowHour | ExtensionsLibrary/DateExtensions.cs:54-57 | on the minutes rung the count of minutes is 2..59 and equals `TimeSpan.Minutes` |
| DateExtensions.HoursBelowDay | ExtensionsLibrary/DateExtensions.cs:64-67 | on the hours rung the count of hours is 2..23 and equals `TimeSpan.Hours` |
| DateExtensions.ToFormatOrDefault | ExtensionsLibrary/DateExtensions.cs:103-111 | null gives the default value; a date gives its formatted text |
| DateExtensions.AdjustTime | ExtensionsLibrary/DateExtensions.cs:132-141 | the adjusted date is a valid date |
| DateExtensions.AdjustTimeProperties | ExtensionsLibrary/DateExtensions.cs:132-141 | null stays null; a valid time keeps year, month and day, sets hour, minute and second, drops the fraction and is idempotent; an invalid time throws |
| ObjectExtensions.TrimmedValue | ExtensionsLibrary/ObjectExtensions.cs:28-35 | only a writable string property with a non-null value changes |
| ObjectExtensions.TrimmedValues | ExtensionsLibrary/ObjectExtensions.cs:28-35 | every property is treated on its own, in declaration order |
| ObjectExtensions.TrimmedValuesIdempotent | ExtensionsLibrary/ObjectExtensions.cs:28-35 | trimming the properties twice is trimming them once |
| ObjectExtensions.TrimmedValuesAreTrim | ExtensionsLibrary/ObjectExtensions.cs:28-35 | null values stay null and the changed values are trimmed |
| ObjectExtensions.TrimStringProperties | ExtensionsLibrary/ObjectExtensions.cs:17-38 | null returns null; otherwise the same object is returned with its values replaced by their trimmed forms |
| ObjectExtensions.TrimProperties | ExtensionsLibrary/ObjectExtensions.cs:28-35 | the property loop sets every property to its trimmed value |
| ObjectExtensions.TrimProperty | ExtensionsLibrary/ObjectExtensions.cs:30-34 | one turn of the loop changes only property i |
| ObjectExtensions.TrimStringPropertiesOfElements | ExtensionsLibrary/ObjectExtensions.cs:46-59 | a null input is returned as is; otherwise every element is trimmed in place and the same collection returned |
| ObjectExtensions.QueryPairs | ExtensionsLibrary/ObjectExtensions.cs:68-71 | one "name=value" piece per property |
| ObjectExtensions.ToQueryString | ExtensionsLibrary/ObjectExtensions.cs:66-72 | "" iff the object has no properties; otherwise it starts with the first property's name and '=' (its pieces are given by QueryStringSplits) |
| ObjectExtensions.QueryStringSplits | ExtensionsLibrary/ObjectExtensions.cs:66-72 | split on '&', the query string is exactly the list of "name=value" pairs, one per property in order: the name, '=', then `UrlEncode` of the value's `ToString()`, or nothing for a null value |
| ObjectExtensions.Candidates | ExtensionsLibrary/ObjectExtensions.cs:98-111 | one candidate update per property, in declaration order |
| ObjectExtensions.ObjectComare.constructor | ExtensionsLibrary/ObjectExtensions.cs:92-112 | the type name is the before-object's; the updates are the diff of the two snapshots |
| ObjectExtensions.CompareTo | ExtensionsLibrary/ObjectExtensions.cs:81-85 | a fresh comparison holding the before-object's type name and the diff |
| ObjectExtensions.DiffMembership | ExtensionsLibrary/ObjectExtensions.cs:98-111 | an update is listed iff some property differs between before and after, and it carries that property's name with both values; two nulls count as equal |
| ObjectExtensions.DiffOfIdentical | ExtensionsLibrary/ObjectExtensions.cs:102 | comparing an object with an identical snapshot yields no updates |
| ObjectExtensions.TrimDiff | ExtensionsLibrary/ObjectExtensions.cs:17-38 | comparing an object before and after trimming lists only string properties whose value was untrimmed, with the trimmed value as after |
| ModelStateExtensions.Message | ExtensionsLibrary/ModelStateExtensions.cs:43 | the error message when it is non-empty; otherwise the exception's message; a null exception throws |
| ModelStateExtensions.Messages | ExtensionsLibrary/ModelStateExtensions.cs:39-46 | one message per error, in order, or a null-reference error when one message cannot be read |
| ModelStateExtensions.ItemOf | ExtensionsLibrary/ModelStateExtensions.cs:32-46 | the item copies the entry's key, state and attempted value |
| ModelStateExtensions.ItemsOf | ExtensionsLibrary/ModelStateExtensions.cs:22-48 | one item per entry, in order, or the first failure |
| ModelStateExtensions.GetModelStateItems | ExtensionsLibrary/ModelStateExtensions.cs:14-52 | the loop yields the items of the selected entries, in order |
| ModelStateExtensions.GetModelStateItem | ExtensionsLibrary/ModelStateExtensions.cs:32-48 | the loop body builds the item of one entry |
| ModelStateExtensions.CollectMessages | ExtensionsLibrary/ModelStateExtensions.cs:39-46 | the inner loop collects the messages of the errors in order |
| ModelStateExtensions.ItemsOfSnoc | ExtensionsLibrary/ModelStateExtensions.cs:48 | adding an entry adds its item at the end |
| ModelStateExtensions.ItemFailsAll | ExtensionsLibrary/ModelStateExtensions.cs:43 | one unreadable message among the selected entries makes the whole call throw |
| ModelStateExtensions.ModelStateItemsProperties | ExtensionsLibrary/ModelStateExtensions.cs:14-52 | null gives no items; with errorsOnly every item is invalid; without it there is one item per entry with its key and as many messages as errors |
| ModelStateExtensions.ErrorMessagesToString | ExtensionsLibrary/ModelStateExtensions.cs:85-89 | "" for no messages and the message itself for one |
| ModelStateExtensions.ErrorMessagesToStringShape | ExtensionsLibrary/ModelStateExtensions.cs:85-89 | the joined length is the messages' total length plus one separator between neighbours, and the first message comes first |
| ClaimsIdentityExtensions.FindFirst | ExtensionsLibrary/ClaimsIdentityExtensions.cs:58-62 | a claim is found iff one satisfies the test, and it is one of the claims |
| ClaimsIdentityExtensions.FindFirstValue | ExtensionsLibrary/ClaimsIdentityExtensions.cs:12-85 | null iff no claim has the type (ignoring case); otherwise the value of one of the claims |
| ClaimsIdentityExtensions.UserEmail | ExtensionsLibrary/ClaimsIdentityExtensions.cs:42-65 | a non-null result is non-blank and is the value of one of the claims |
| ClaimsIdentityExtensions.UserEmailChain | ExtensionsLibrary/ClaimsIdentityExtensions.cs:44-64 | the email claim is used when non-blank; else the UPN when non-blank and containing '@'; else the value of the first "/name" claim when it passes the same test; else null |
| ClaimsIdentityExtensions.UserEmailNone | ExtensionsLibrary/ClaimsIdentityExtensions.cs:42-65 | no email, UPN or "/name" claim gives null |
| ClaimsIdentityExtensions.UserSortableName | ExtensionsLibrary/ClaimsIdentityExtensions.cs:92-95 | last name, ", ", first name, with a missing name rendered empty |
| ClaimsIdentityExtensions.UserSortableNameSplits | ExtensionsLibrary/ClaimsIdentityExtensions.cs:92-95 | when the surname has no comma, the first comma-separated piece is the surname |
| BooleanExtensions.ToYesNoString | ExtensionsLibrary/BooleanExtensions.cs:10-13 | "Yes" for true and "No" for false |
| BooleanExtensions.NullableToYesNoString | ExtensionsLibrary/BooleanExtensions.cs:5-8 | "Yes" iff the value is true; "No" for false and for null |
| BooleanExtensions.ToBoolean | ExtensionsLibrary/BooleanExtensions.cs:15-18 | the value when present, the default otherwise; the default default is false |
| BooleanExtensions.YesNoOverloadsAgree | ExtensionsLibrary/BooleanExtensions.cs:5-8 | the bool? overload is the bool overload of the value read as false when null, so null gives "No" |
| TypeExtensions.IsNumericType | ExtensionsLibrary/TypeExtensions.cs:10-30 | true iff the unwrapped type code is not one of the seven non-numeric codes |
| TypeExtensions.NullableClassifiedAsInner | ExtensionsLibrary/TypeExtensions.cs:12-14 | Nullable<T> is classified as T, and the answer depends only on the unwrapped type code |
| TypeExtensions.EnumClassifiedAsUnderlying | ExtensionsLibrary/TypeExtensions.cs:12-14 | an enumeration is classified by its underlying integer type, so an int-based enum is numeric |
| Text.TrimIdempotent | ExtensionsLibrary/ObjectExtensions.cs:33 | `string.Trim` applied twice is applied once |
| Text.OrdinalLessTransitive | ExtensionsLibrary/EnumerableExtensions.cs:204-205 | ordinal string comparison is transitive |
| Text.OrdinalLessTotal | ExtensionsLibrary/EnumerableExtensions.cs:203-205 | ordinal string comparison orders any two different strings |
| Text.SplitJoin | ExtensionsLibrary/ObjectExtensions.cs:66-72 | splitting the join of separator-free pieces on the separator gives the pieces back |
| Text.WordsJoin | ExtensionsLibrary/StringExtensions.cs:747-756 | the words of well-shaped pieces joined by single spaces are those pieces |

## Findings

| source | as written | input that shows it | evidently intended | confidence | as-written member | corrected member |
|---|---|---|---|---|---|---|
| ExtensionsLibrary/NumericMethods.cs:37-58 | for `number <= 0` the checks for 1 and 2 fail, the divisor loop from 2 up to number - 1 runs no turn and the method returns true | `IsPrime(0)`, `IsPrime(-7)` and `IsPrime(int.MinValue)` all return true | false for every number below 2, since the method is documented to answer whether the number is prime | medium; not executed (callers may never pass numbers below 1) | NumericMethods.IsPrimeNonPositive | NumericMethods.IsPrimeIntended |
| ExtensionsLibrary/ListExtensions.cs:75-85 | the inner loop's bound `k + maxSize` and the running offset `k += maxSize` are 32-bit `int` and wrap | a list of 2,147,483,591 elements (`Array.MaxLength`) in 1,000 partitions: maxSize is 2,147,484, the last partition starts at k = 2,145,336,516, `k + maxSize` = 2,147,484,000 wraps to -2,147,483,296, the inner loop never runs and the last 2,147,075 elements are missing from the result | every partition holds list[i*maxSize .. min((i+1)*maxSize, n)], so the partitions concatenate to the list (bound computed in 64 bits, or as `j < list.Count` with `j - k < maxSize`) | medium; not executed (needs a list near the 2^31 element limit) | ListExtensions.PartitionDropsTail | ListExtensions.PartitionProperties |
| ExtensionsLibrary/StringExtensions.cs:510-511 | the buffer growth `(str.Length / pattern.Length) * (replacement.Length - pattern.Length)` is computed in 32-bit `int` and wraps | s = "a" followed by 999,999 other characters, pattern "a", a 2,149-character replacement: the product 2,148,000,000 wraps negative, the buffer has 1,000,000 cells and the first write past it throws IndexOutOfRangeException | a buffer that always holds the result (growth computed in 64 bits or checked) | high; not executed | StringExtensions.ReplaceIgnoreCaseOverflows | StringExtensions.ReplaceWithoutOverflow |

## Left out

- Character classes. `char.IsWhiteSpace` is the 25 code points `RemoveWhiteSpace` lists; .NET's set is the same. `char.IsControl` is the C0 and C1 ranges. Casing (`ToUpper`, `ToLower`, culture-sensitive `IndexOf`) is ASCII-only and length-preserving. Culture, Unicode casing and normalisation are not modelled.
- Strings are sequences of Unicode scalar values (Dafny `char`), whereas .NET strings are sequences of UTF-16 code units. The two agree only for text inside the Basic Multilingual Plane; a character outside it is one `char` here and a surrogate pair in .NET. The members where this shows:
  - StringExtensions.ReverseString: `Array.Reverse` on the `char[]` swaps the two halves of a surrogate pair and so yields lone surrogates; the model reverses whole characters.
  - StringExtensions.Left, StringExtensions.Right, StringExtensions.Reduce, StringExtensions.ReplaceCharacterAt, StringExtensions.ReplaceCharacterAtIndexPosition: lengths and indices count characters here and UTF-16 units in .NET.
  - StringExtensions.CountWords: `w.Length > 1` counts a single supplementary character as a long word in .NET, not here.
  - JsonExtensions.WriteJsonToFileAsArrayElement: `Encoding.ASCII` writes "??" for a supplementary character; the model writes one '?'.
  - Text.OrdinalLess (and so `ToNormalizedString`'s sort): .NET orders by UTF-16 unit, which differs from scalar order when a supplementary character is compared with one in U+E000..U+FFFF.
- `Uri.EscapeDataString`, `HttpUtility.UrlEncode`, `object.ToString()`, `DateTime.ToString(format)`, UTF-8 encoding and `Environment.NewLine` are parameters of the members that use them.
- A `null` receiver of an extension method, where the source dereferences it, is not modelled (for example `Left` and `Reduce` on `null` s). The `this` argument is a value.
- `GuidEncoder.Encode(string guidText)` is not modelled: parsing GUID text belongs to `new Guid(string)`. A GUID is its 16 bytes in `ToByteArray` order.
- `Convert.FromBase64String` is modelled for the input `Decode` can produce. It skips space, tab, CR and LF; it accepts whole quartets with padding only in the last one; and it ignores the unused low bits of a padded quartet. Its other rejections (for example a quartet "x===") all give `Format` errors.
- `WriteJsonToFileAsArrayElement`: the `lock`, the `FileStream` API, the JSON serialisation of the object and its formatting are not modelled. The file is its byte sequence and the serialised text is an input. The `ASCII` encoding of the overwrite maps non-ASCII characters to '?'.
- `ToElapsedTimeInWords` uses integer ticks for the `TotalSeconds` double, and "now" is a parameter.
- `Partition`: the double-precision `Math.Ceiling(n / (double)t)` is integer ceiling division; for 32-bit counts the two agree. The 32-bit wrap of `k` and `k + maxSize` is modelled (see Findings); a list is a value, so the partitions' in-place `List.Add` calls are not.
- `ToHoursMinutesSecondsAndMiliseconds`: `TimeSpan.FromMilliseconds` rounding of the double argument is not modelled; counts are whole milliseconds.
- `NumericMethods.ToHoursMinutesSecondsAndMiliseconds`: for negative counts the result is computed, with C#'s truncating `/` and `%`, but no lemma describes its shape.
- `ObjectExtensions`: reflection is an ordered list of properties, each with a name, a string flag, a writable flag and a value. `Equals` on values is structural equality of the `Value` datatype; custom `Equals` overrides are not modelled. `ObjectComare` requires both objects to share the property list, as `t.GetProperties()` reads the after-object by the before-object's type.
- `ModelStateExtensions`: the dictionary is a sequence of entries (key, state, attempted value, errors). `ErrorMessages` is a sequence held by the item. The `IsInvalid` property is a predicate covered by `ModelStateItemsProperties`.
- `ClaimsIdentityExtensions.UserIdentityName` reads `Identity.Name`, which the claim-sequence model does not hold. `UserFirstName`, `UserLastName`, `UserPrincipalName`, `UserRole` and `UserFullName` are one-line calls of `FindFirstValue`, whose contract they share.
- `EnumerableExtensions.ToNormalizedString`: a `NameValueCollection` is a sequence of (key, comma-joined value) entries with non-null keys. The in-place `List.Sort` is a value-level insertion sort; `SortedUnique` shows that any sort by the same comparator gives the same list.
- `DateExtensions`: `DateTime.Kind` and time zones are not modelled. `AdjustTime` drops the fraction of a second, as the `DateTime` constructor does.
- `TypeExtensions`: a runtime type is its type code, an enumeration over an underlying code, or `Nullable<T>`. Other reflection is not modelled.
- The asynchronous, database, web, crypto, imaging, CSV and serialisation helpers of the library are not part of this model. They are I/O, concurrency or calls into foreign libraries.
- StringExtensions.IsNumeric: `char.IsNumber` also accepts the other Unicode number categories (Nd, Nl, No, for example '½', '²' or '٣'); the model accepts only '0'..'9', in line with the ASCII-only character classes above.
- StringExtensions.ReplaceIgnoreCase: an `OutOfMemoryException` for a huge buffer is not modelled; every size from 0 to 2^31 - 1 is allocated.
- ObjectExtensions.CompareTo: a null after-object, for which `GetValue` throws a `TargetException`, is not modelled; objects are values and never null.

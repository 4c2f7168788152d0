/** The .NET string and character primitives the extension methods rely on:
    character classes, `Trim`, ordinal search, `Split`/`Join`, and decimal
    rendering of integers. Characters are Dafny `char`s (Unicode scalar values). */
module Text {
  import opened Wrappers

  // ---------------------------------------------------------------------------
  // Character classes
  // ---------------------------------------------------------------------------

  /** `char.IsWhiteSpace`: the space separators, the line and paragraph
      separators, U+0009..U+000D and U+0085 — 25 code points in all. */
  predicate IsWhiteSpace(c: char) {
    || c == ' ' || c == '\U{00A0}' || c == '\U{1680}'
    || ('\U{2000}' <= c <= '\U{200A}')
    || c == '\U{202F}' || c == '\U{205F}' || c == '\U{3000}'
    || c == '\U{2028}' || c == '\U{2029}'
    || ('\t' <= c <= '\r')
    || c == '\U{0085}'
  }

  /** `char.IsControl`: the C0 controls and DEL through the C1 controls. */
  predicate IsControl(c: char) {
    c <= '\U{001F}' || ('\U{007F}' <= c <= '\U{009F}')
  }

  /** The class `[ -~]`: printable ASCII, U+0020..U+007E. */
  predicate IsPrintableAscii(c: char) {
    ' ' <= c <= '~'
  }

  predicate IsDigit(c: char) {
    '0' <= c <= '9'
  }

  /** Upper-casing of one character. Only the ASCII letters are mapped, so the
      mapping preserves length, as an ordinal case-insensitive comparison needs. */
  function ToUpper(c: char): (u: char)
    ensures 'a' <= c <= 'z' ==> 'A' <= u <= 'Z'
    ensures !('a' <= c <= 'z') ==> u == c
  {
    if 'a' <= c <= 'z' then (c as int - 32) as char else c
  }

  function ToLower(c: char): (l: char)
    ensures 'A' <= c <= 'Z' ==> 'a' <= l <= 'z'
    ensures !('A' <= c <= 'Z') ==> l == c
  {
    if 'A' <= c <= 'Z' then (c as int + 32) as char else c
  }

  function Upper(s: string): string {
    seq(|s|, i requires 0 <= i < |s| => ToUpper(s[i]))
  }

  function Lower(s: string): string {
    seq(|s|, i requires 0 <= i < |s| => ToLower(s[i]))
  }

  /** Equality under `StringComparison.OrdinalIgnoreCase`. */
  predicate EqualsIgnoreCase(a: string, b: string) {
    Upper(a) == Upper(b)
  }

  /** Lower-casing and upper-casing tell the same strings apart. */
  lemma LowerUpperAgree(a: string, b: string)
    ensures Lower(a) == Lower(b) <==> Upper(a) == Upper(b)
  {
    if Lower(a) == Lower(b) {
      assert |a| == |Lower(a)| == |Lower(b)| == |b|;
      forall i | 0 <= i < |a|
        ensures Upper(a)[i] == Upper(b)[i]
      {
        assert Lower(a)[i] == Lower(b)[i];
      }
    }
    if Upper(a) == Upper(b) {
      assert |a| == |Upper(a)| == |Upper(b)| == |b|;
      forall i | 0 <= i < |a|
        ensures Lower(a)[i] == Lower(b)[i]
      {
        assert Upper(a)[i] == Upper(b)[i];
      }
    }
  }

  lemma UpperSlice(s: string, i: nat, j: nat)
    requires i <= j <= |s|
    ensures Upper(s[i..j]) == Upper(s)[i..j]
  {
  }

  // ---------------------------------------------------------------------------
  // Null and blank strings
  // ---------------------------------------------------------------------------

  predicate AllWhiteSpace(s: string) {
    forall i :: 0 <= i < |s| ==> IsWhiteSpace(s[i])
  }

  /** `string.IsNullOrEmpty`. */
  predicate IsNullOrEmpty(s: Option<string>) {
    s.None? || s.value == []
  }

  /** `string.IsNullOrWhiteSpace`. */
  predicate IsNullOrWhiteSpace(s: Option<string>) {
    s.None? || AllWhiteSpace(s.value)
  }

  // ---------------------------------------------------------------------------
  // Trimming
  // ---------------------------------------------------------------------------

  /** `TrimStart(chars)`: drops every leading character that `drop` accepts. */
  function TrimStartBy(s: string, drop: char -> bool): (r: string)
    ensures |r| <= |s| && r == s[|s| - |r|..]
    ensures r != [] ==> !drop(r[0])
    ensures forall i :: 0 <= i < |s| - |r| ==> drop(s[i])
    decreases |s|
  {
    if s != [] && drop(s[0]) then TrimStartBy(s[1..], drop) else s
  }

  /** `TrimEnd(chars)`: drops every trailing character that `drop` accepts. */
  function TrimEndBy(s: string, drop: char -> bool): (r: string)
    ensures |r| <= |s| && r == s[..|r|]
    ensures r != [] ==> !drop(r[|r| - 1])
    ensures forall i :: |r| <= i < |s| ==> drop(s[i])
    decreases |s|
  {
    if s != [] && drop(s[|s| - 1]) then TrimEndBy(s[..|s| - 1], drop) else s
  }

  /** `string.Trim()`: leading and trailing white space removed. */
  function Trim(s: string): (r: string)
    ensures r != [] ==> !IsWhiteSpace(r[0]) && !IsWhiteSpace(r[|r| - 1])
  {
    TrimEndBy(TrimStartBy(s, IsWhiteSpace), IsWhiteSpace)
  }

  lemma TrimStartByNoop(s: string, drop: char -> bool)
    requires s == [] || !drop(s[0])
    ensures TrimStartBy(s, drop) == s
  {
  }

  lemma TrimStartByDropsOne(s: string, drop: char -> bool)
    requires s != [] && drop(s[0])
    ensures TrimStartBy(s, drop) == TrimStartBy(s[1..], drop)
  {
  }

  lemma TrimEndByNoop(s: string, drop: char -> bool)
    requires s == [] || !drop(s[|s| - 1])
    ensures TrimEndBy(s, drop) == s
  {
  }

  /** Trimming a string that neither starts nor ends with white space changes nothing. */
  lemma TrimNoop(s: string)
    requires s == [] || (!IsWhiteSpace(s[0]) && !IsWhiteSpace(s[|s| - 1]))
    ensures Trim(s) == s
  {
    TrimStartByNoop(s, IsWhiteSpace);
    TrimEndByNoop(s, IsWhiteSpace);
  }

  /** `Trim` is idempotent. */
  lemma TrimIdempotent(s: string)
    ensures Trim(Trim(s)) == Trim(s)
  {
    TrimNoop(Trim(s));
  }

  /** A string trims to the empty string exactly when it is all white space. */
  lemma {:induction false} TrimEmptyIff(s: string)
    ensures Trim(s) == [] <==> AllWhiteSpace(s)
  {
    var a := TrimStartBy(s, IsWhiteSpace);
    if a == [] {
      assert forall i :: 0 <= i < |s| ==> IsWhiteSpace(s[i]);
    } else {
      assert !IsWhiteSpace(a[0]) && a[0] == s[|s| - |a|];
      assert !(0 < |a| && IsWhiteSpace(a[0]));
    }
  }

  /** The trimmed string is a contiguous piece of the original. */
  lemma TrimIsSlice(s: string)
    ensures exists i, j :: 0 <= i <= j <= |s| && Trim(s) == s[i..j]
  {
    var a := TrimStartBy(s, IsWhiteSpace);
    var b := TrimEndBy(a, IsWhiteSpace);
    var i := |s| - |a|;
    assert a == s[i..];
    assert b == a[..|b|];
    assert b == s[i..i + |b|];
    assert Trim(s) == b;
  }

  // ---------------------------------------------------------------------------
  // Ordinal search
  // ---------------------------------------------------------------------------

  predicate MatchAt(hay: string, needle: string, i: nat) {
    i + |needle| <= |hay| && hay[i..i + |needle|] == needle
  }

  /** `hay.IndexOf(needle, from)` under an ordinal comparison. */
  function IndexOf(hay: string, needle: string, from: nat): (r: Option<nat>)
    requires from <= |hay|
    ensures r.Some? ==> from <= r.value && MatchAt(hay, needle, r.value)
    ensures r.Some? ==> forall j :: from <= j < r.value ==> !MatchAt(hay, needle, j)
    ensures r.None? ==> forall j :: from <= j <= |hay| ==> !MatchAt(hay, needle, j)
    decreases |hay| - from
  {
    if MatchAt(hay, needle, from) then Some(from)
    else if from == |hay| then None
    else IndexOf(hay, needle, from + 1)
  }

  /** `hay.Contains(needle)` under an ordinal comparison. */
  predicate Contains(hay: string, needle: string) {
    IndexOf(hay, needle, 0).Some?
  }

  /** `hay.Contains(needle, StringComparison.OrdinalIgnoreCase)`. */
  predicate ContainsIgnoreCase(hay: string, needle: string) {
    Contains(Upper(hay), Upper(needle))
  }

  lemma ContainsIff(hay: string, needle: string)
    ensures Contains(hay, needle) <==> exists i :: 0 <= i <= |hay| && MatchAt(hay, needle, i)
  {
  }

  /** `string.CompareOrdinal(a, b) < 0`: lexicographic order on characters. */
  predicate OrdinalLess(a: string, b: string)
    decreases |a|
  {
    if a == [] then b != []
    else b != [] && (a[0] < b[0] || (a[0] == b[0] && OrdinalLess(a[1..], b[1..])))
  }

  lemma {:induction false} OrdinalLessIrreflexive(a: string)
    ensures !OrdinalLess(a, a)
    decreases |a|
  {
    if a != [] {
      OrdinalLessIrreflexive(a[1..]);
    }
  }

  lemma {:induction false} OrdinalLessTransitive(a: string, b: string, c: string)
    requires OrdinalLess(a, b) && OrdinalLess(b, c)
    ensures OrdinalLess(a, c)
    decreases |a|
  {
    if a != [] && a[0] == b[0] && b[0] == c[0] {
      OrdinalLessTransitive(a[1..], b[1..], c[1..]);
    }
  }

  /** Any two different strings are ordered one way or the other. */
  lemma {:induction false} OrdinalLessTotal(a: string, b: string)
    ensures a == b || OrdinalLess(a, b) || OrdinalLess(b, a)
    decreases |a|
  {
    if a != [] && b != [] && a[0] == b[0] {
      OrdinalLessTotal(a[1..], b[1..]);
      if a[1..] == b[1..] {
        assert a == [a[0]] + a[1..] && b == [b[0]] + b[1..];
      }
    }
  }

  predicate StartsWith(s: string, prefix: string) {
    |prefix| <= |s| && s[..|prefix|] == prefix
  }

  predicate EndsWith(s: string, suffix: string) {
    |suffix| <= |s| && s[|s| - |suffix|..] == suffix
  }

  // ---------------------------------------------------------------------------
  // Sequences: filtering, flattening, joining, splitting
  // ---------------------------------------------------------------------------

  /** `Where(keep)`, in order. Defined from the back, as a loop builds it. */
  function Filter<T>(xs: seq<T>, keep: T -> bool): (r: seq<T>)
    ensures |r| <= |xs|
    ensures forall i :: 0 <= i < |r| ==> keep(r[i])
    decreases |xs|
  {
    if xs == [] then []
    else Filter(xs[..|xs| - 1], keep) + (if keep(xs[|xs| - 1]) then [xs[|xs| - 1]] else [])
  }

  /** Extending the input by one element extends its filter by that element
      when it is kept. */
  lemma FilterPrefixStep<T>(xs: seq<T>, keep: T -> bool, i: nat)
    requires i < |xs|
    ensures Filter(xs[..i + 1], keep) == Filter(xs[..i], keep) + (if keep(xs[i]) then [xs[i]] else [])
  {
    assert xs[..i + 1][..i] == xs[..i];
  }

  /** An element survives the filter exactly when it is in the input and kept. */
  lemma {:induction false} FilterMembership<T>(xs: seq<T>, keep: T -> bool, x: T)
    ensures x in Filter(xs, keep) <==> x in xs && keep(x)
    decreases |xs|
  {
    if xs != [] {
      var init := xs[..|xs| - 1];
      FilterMembership(init, keep, x);
      assert xs == init + [xs[|xs| - 1]];
    }
  }

  lemma {:induction false} FilterConcat<T>(a: seq<T>, b: seq<T>, keep: T -> bool)
    ensures Filter(a + b, keep) == Filter(a, keep) + Filter(b, keep)
    decreases |b|
  {
    if b != [] {
      var init := b[..|b| - 1];
      FilterConcat(a, init, keep);
      assert (a + b)[..|a + b| - 1] == a + init;
    } else {
      assert a + b == a;
    }
  }

  /** A sequence whose every element is kept is its own filter. */
  lemma {:induction false} FilterAllKept<T>(xs: seq<T>, keep: T -> bool)
    requires forall i :: 0 <= i < |xs| ==> keep(xs[i])
    ensures Filter(xs, keep) == xs
    decreases |xs|
  {
    if xs != [] {
      FilterAllKept(xs[..|xs| - 1], keep);
    }
  }

  /** Every kept element occurs in the filter exactly as often as in the
      input, and a dropped one not at all. */
  lemma {:induction false} FilterMultiplicity<T>(xs: seq<T>, keep: T -> bool, x: T)
    ensures multiset(Filter(xs, keep))[x] == if keep(x) then multiset(xs)[x] else 0
    decreases |xs|
  {
    if xs != [] {
      var init := xs[..|xs| - 1];
      FilterMultiplicity(init, keep, x);
      assert xs == init + [xs[|xs| - 1]];
    }
  }

  /** A sequence none of whose elements is kept filters to nothing. */
  lemma FilterNoneKept<T>(xs: seq<T>, keep: T -> bool)
    requires forall i :: 0 <= i < |xs| ==> !keep(xs[i])
    ensures Filter(xs, keep) == []
  {
    if Filter(xs, keep) != [] {
      FilterMembership(xs, keep, Filter(xs, keep)[0]);
    }
  }

  /** `f` applied to every element, in order. */
  function Map<A, B>(xs: seq<A>, f: A -> B): (r: seq<B>)
    ensures |r| == |xs|
  {
    seq(|xs|, i requires 0 <= i < |xs| => f(xs[i]))
  }

  lemma MapSnoc<A, B>(xs: seq<A>, x: A, f: A -> B)
    ensures Map(xs + [x], f) == Map(xs, f) + [f(x)]
  {
    assert forall i :: 0 <= i < |xs| ==> (xs + [x])[i] == xs[i];
  }

  /** Filtering twice by the same predicate is filtering once. */
  lemma FilterIdempotent<T>(xs: seq<T>, keep: T -> bool)
    ensures Filter(Filter(xs, keep), keep) == Filter(xs, keep)
  {
    FilterAllKept(Filter(xs, keep), keep);
  }

  function Flatten<T>(xss: seq<seq<T>>): seq<T>
    decreases |xss|
  {
    if xss == [] then [] else Flatten(xss[..|xss| - 1]) + xss[|xss| - 1]
  }

  lemma FlattenSnoc<T>(xss: seq<seq<T>>, xs: seq<T>)
    ensures Flatten(xss + [xs]) == Flatten(xss) + xs
  {
    assert (xss + [xs])[..|xss|] == xss;
  }

  lemma {:induction false} FlattenCons<T>(xs: seq<T>, xss: seq<seq<T>>)
    ensures Flatten([xs] + xss) == xs + Flatten(xss)
    decreases |xss|
  {
    if xss == [] {
      assert [xs] + xss == [] + [xs];
      FlattenSnoc([], xs);
    } else {
      var init, last := xss[..|xss| - 1], xss[|xss| - 1];
      FlattenCons(xs, init);
      assert [xs] + xss == ([xs] + init) + [last];
      FlattenSnoc([xs] + init, last);
      assert xss == init + [last];
      FlattenSnoc(init, last);
    }
  }

  /** `string.Join(sep, xs)`. */
  function Join(sep: string, xs: seq<string>): string
    decreases |xs|
  {
    if xs == [] then ""
    else if |xs| == 1 then xs[0]
    else Join(sep, xs[..|xs| - 1]) + sep + xs[|xs| - 1]
  }

  /** The length of a join: every element plus one separator between each pair. */
  lemma {:induction false} JoinLength(sep: string, xs: seq<string>)
    ensures |Join(sep, xs)| == |Flatten(xs)| + (if xs == [] then 0 else (|xs| - 1) * |sep|)
    decreases |xs|
  {
    if |xs| > 1 {
      JoinLength(sep, xs[..|xs| - 1]);
    } else if |xs| == 1 {
      assert Flatten(xs) == Flatten(xs[..0]) + xs[0];
    }
  }

  /** A join starts with its first element. */
  lemma {:induction false} JoinStartsWithFirst(sep: string, xs: seq<string>)
    requires xs != []
    ensures StartsWith(Join(sep, xs), xs[0])
    decreases |xs|
  {
    if |xs| > 1 {
      JoinStartsWithFirst(sep, xs[..|xs| - 1]);
    }
  }

  /** Prefixing every element with the separator and concatenating gives the
      join preceded by one separator. */
  function PrefixEach(sep: string, xs: seq<string>): string
    decreases |xs|
  {
    if xs == [] then "" else PrefixEach(sep, xs[..|xs| - 1]) + sep + xs[|xs| - 1]
  }

  lemma {:induction false} PrefixEachIsJoin(sep: string, xs: seq<string>)
    requires xs != []
    ensures PrefixEach(sep, xs) == sep + Join(sep, xs)
    decreases |xs|
  {
    var init, last := xs[..|xs| - 1], xs[|xs| - 1];
    assert PrefixEach(sep, xs) == PrefixEach(sep, init) + sep + last;
    if |xs| == 1 {
      assert init == [];
      assert Join(sep, xs) == last;
    } else {
      PrefixEachIsJoin(sep, init);
      assert Join(sep, xs) == Join(sep, init) + sep + last;
      assert sep + Join(sep, init) + sep + last == sep + (Join(sep, init) + sep + last);
    }
  }

  /** `s.Split(c)`: the pieces between occurrences of `c`, empty ones kept.
      Defined from the back, like `Join`. */
  function Split(s: string, c: char): (r: seq<string>)
    ensures |r| >= 1
    decreases |s|
  {
    if s == [] then [""]
    else
      var init := Split(s[..|s| - 1], c);
      if s[|s| - 1] == c then init + [""]
      else init[..|init| - 1] + [init[|init| - 1] + [s[|s| - 1]]]
  }

  /** Appending text free of the separator extends the last piece. */
  lemma {:induction false} SplitAppendPiece(s: string, t: string, c: char)
    requires c !in t
    ensures Split(s + t, c) == ExtendLast(Split(s, c), t)
    decreases |t|
  {
    if t == [] {
      assert s + t == s;
      ExtendLastEmpty(Split(s, c));
    } else {
      var t', ch := t[..|t| - 1], t[|t| - 1];
      SnocParts(s, t, c);
      SplitAppendPiece(s, t', c);
      SplitOtherAtEnd(s + t', ch, c);
      ExtendLastTwice(Split(s, c), t', [ch]);
    }
  }

  lemma SnocParts(s: string, t: string, c: char)
    requires t != [] && c !in t
    ensures c !in t[..|t| - 1] && t[|t| - 1] != c
    ensures s + t == (s + t[..|t| - 1]) + [t[|t| - 1]]
    ensures t[..|t| - 1] + [t[|t| - 1]] == t
  {
  }

  /** The pieces with `t` appended to the last one. */
  function ExtendLast(pieces: seq<string>, t: string): (r: seq<string>)
    requires pieces != []
    ensures |r| == |pieces|
  {
    pieces[..|pieces| - 1] + [pieces[|pieces| - 1] + t]
  }

  lemma ExtendLastEmpty(pieces: seq<string>)
    requires pieces != []
    ensures ExtendLast(pieces, "") == pieces
  {
    assert pieces[|pieces| - 1] + "" == pieces[|pieces| - 1];
  }

  lemma ExtendLastTwice(pieces: seq<string>, t: string, u: string)
    requires pieces != []
    ensures ExtendLast(ExtendLast(pieces, t), u) == ExtendLast(pieces, t + u)
  {
    var q := ExtendLast(pieces, t);
    assert q[..|q| - 1] == pieces[..|pieces| - 1];
    assert q[|q| - 1] + u == pieces[|pieces| - 1] + (t + u);
  }

  /** A character other than the separator at the end extends the last piece. */
  lemma SplitOtherAtEnd(s: string, ch: char, c: char)
    requires ch != c
    ensures Split(s + [ch], c) == ExtendLast(Split(s, c), [ch])
  {
    assert (s + [ch])[..|s + [ch]| - 1] == s;
  }

  /** A separator at the end starts a new, empty piece. */
  lemma SplitSeparatorAtEnd(s: string, c: char)
    ensures Split(s + [c], c) == Split(s, c) + [""]
  {
    assert (s + [c])[..|s + [c]| - 1] == s;
  }

  /** One more piece after the separator. */
  lemma SplitJoinStep(j: string, last: string, c: char, init: seq<string>)
    requires Split(j, c) == init && c !in last
    ensures Split(j + [c] + last, c) == init + [last]
  {
    SplitSeparatorAtEnd(j, c);
    SplitAppendPiece(j + [c], last, c);
    ExtendEmptyLast(init, last);
  }

  lemma ExtendEmptyLast(init: seq<string>, last: string)
    ensures ExtendLast(init + [""], last) == init + [last]
  {
    var pieces := init + [""];
    assert pieces[..|pieces| - 1] == init;
    assert pieces[|pieces| - 1] + last == last;
  }

  /** Splitting a join on its one-character separator gives the pieces back
      when none of them contains the separator. */
  lemma {:induction false} SplitJoin(xs: seq<string>, c: char)
    requires xs != []
    requires forall i :: 0 <= i < |xs| ==> c !in xs[i]
    ensures Split(Join([c], xs), c) == xs
    decreases |xs|
  {
    if |xs| == 1 {
      SplitNoSeparator(xs[0], c);
    } else {
      var init := xs[..|xs| - 1];
      SplitJoin(init, c);
      JoinSnoc([c], xs);
      SplitJoinStep(Join([c], init), xs[|xs| - 1], c, init);
    }
  }

  /** Text without the separator is a single piece. */
  lemma SplitNoSeparator(x: string, c: char)
    requires c !in x
    ensures Split(x, c) == [x]
  {
    SplitAppendPiece("", x, c);
    ExtendEmptyLast([], x);
    assert "" + x == x && [] + [""] == [""];
  }

  lemma JoinSnoc(sep: string, xs: seq<string>)
    requires |xs| > 1
    ensures Join(sep, xs) == Join(sep, xs[..|xs| - 1]) + sep + xs[|xs| - 1]
    ensures xs == xs[..|xs| - 1] + [xs[|xs| - 1]]
  {
  }

  /** The leading run of characters outside `delims`. */
  function RunLength(s: string, delims: set<char>): (n: nat)
    ensures n <= |s|
    ensures forall j :: 0 <= j < n ==> s[j] !in delims
    ensures n < |s| ==> s[n] in delims
    decreases |s|
  {
    if s == [] || s[0] in delims then 0 else 1 + RunLength(s[1..], delims)
  }

  /** `s.Split(delims, StringSplitOptions.RemoveEmptyEntries)`: the maximal
      non-empty runs of characters outside `delims`, in order. */
  function Words(s: string, delims: set<char>): (r: seq<string>)
    ensures forall i :: 0 <= i < |r| ==> r[i] != []
    ensures forall i, j :: 0 <= i < |r| && 0 <= j < |r[i]| ==> r[i][j] !in delims
    decreases |s|
  {
    if s == [] then []
    else if s[0] in delims then Words(s[1..], delims)
    else
      var n := RunLength(s, delims);
      [s[..n]] + Words(s[n..], delims)
  }

  function SumLengths(xs: seq<string>): nat
    decreases |xs|
  {
    if xs == [] then 0 else |xs[0]| + SumLengths(xs[1..])
  }

  /** The words of a string occupy at most as many characters as the string. */
  lemma {:induction false} WordsLength(s: string, delims: set<char>)
    ensures SumLengths(Words(s, delims)) <= |s|
    decreases |s|
  {
    if s != [] {
      if s[0] in delims {
        WordsLength(s[1..], delims);
      } else {
        var n := RunLength(s, delims);
        WordsLength(s[n..], delims);
        assert Words(s, delims)[1..] == Words(s[n..], delims);
      }
    }
  }

  /** Text free of the delimiters is a single word. */
  lemma WordsOfWord(w: string, delims: set<char>)
    requires w != [] && forall j :: 0 <= j < |w| ==> w[j] !in delims
    ensures Words(w, delims) == [w]
  {
    assert w[0] !in delims;
    assert RunLength(w, delims) == |w|;
    assert w[..|w|] == w && w[|w|..] == [];
    assert Words(w, delims) == [w[..|w|]] + Words(w[|w|..], delims);
  }

  /** A delimiter ends the leading run. */
  lemma {:induction false} RunLengthStops(a: string, d: char, b: string, delims: set<char>)
    requires d in delims
    ensures RunLength(a + [d] + b, delims) == RunLength(a, delims)
    decreases |a|
  {
    var x := a + [d] + b;
    if a == [] {
      assert x[0] == d;
    } else if a[0] !in delims {
      assert x[0] == a[0];
      assert x[1..] == a[1..] + [d] + b;
      RunLengthStops(a[1..], d, b, delims);
    } else {
      assert x[0] == a[0];
    }
  }

  /** A delimiter separates the words before it from the words after it. */
  lemma {:induction false} WordsAppend(a: string, d: char, b: string, delims: set<char>)
    requires d in delims
    ensures Words(a + [d] + b, delims) == Words(a, delims) + Words(b, delims)
    decreases |a|
  {
    var x := a + [d] + b;
    if a == [] {
      assert x[0] == d && x[1..] == b;
    } else if a[0] in delims {
      assert x[0] == a[0];
      assert x[1..] == a[1..] + [d] + b;
      WordsAppend(a[1..], d, b, delims);
    } else {
      assert x[0] == a[0];
      var n := RunLength(a, delims);
      RunLengthStops(a, d, b, delims);
      assert x[..n] == a[..n];
      assert x[n..] == a[n..] + [d] + b;
      WordsAppend(a[n..], d, b, delims);
    }
  }

  /** Joining non-empty, delimiter-free words with a delimiter and splitting
      the result into words gives the words back. */
  lemma {:induction false} WordsJoin(ws: seq<string>, d: char, delims: set<char>)
    requires d in delims
    requires forall k :: 0 <= k < |ws| ==> ws[k] != [] && forall j :: 0 <= j < |ws[k]| ==> ws[k][j] !in delims
    ensures Words(Join([d], ws), delims) == ws
    decreases |ws|
  {
    if |ws| == 1 {
      WordsOfWord(ws[0], delims);
    } else if |ws| > 1 {
      var init := ws[..|ws| - 1];
      WordsJoin(init, d, delims);
      JoinSnoc([d], ws);
      WordsOfWord(ws[|ws| - 1], delims);
      WordsAppend(Join([d], init), d, ws[|ws| - 1], delims);
    }
  }

  // ---------------------------------------------------------------------------
  // Replacement
  // ---------------------------------------------------------------------------

  /** `Replace(oldValue, newValue)` on a string or a `StringBuilder`, for a
      one-character `oldValue`. */
  function ReplaceChar(s: string, target: char, replacement: string): string
    decreases |s|
  {
    if s == [] then "" else (if s[0] == target then replacement else [s[0]]) + ReplaceChar(s[1..], target, replacement)
  }

  lemma {:induction false} ReplaceCharConcat(a: string, b: string, target: char, replacement: string)
    ensures ReplaceChar(a + b, target, replacement) == ReplaceChar(a, target, replacement) + ReplaceChar(b, target, replacement)
    decreases |a|
  {
    if a != [] {
      ReplaceCharConcat(a[1..], b, target, replacement);
      assert (a + b)[1..] == a[1..] + b;
    } else {
      assert a + b == b;
    }
  }

  lemma ReplaceCharAbsent(s: string, target: char, replacement: string)
    requires target !in s
    ensures ReplaceChar(s, target, replacement) == s
  {
  }

  /** On a one-character string, or one without the target, a replacement
      step is a single case. */
  lemma ReplaceCharOneOrNone(s: string, target: char, replacement: string)
    requires |s| == 1 || target !in s
    ensures ReplaceChar(s, target, replacement) == if target in s then replacement else s
  {
    if |s| == 1 {
      assert s[1..] == [];
    }
  }

  /** Replacing a character by a single character is a pointwise map. */
  lemma {:induction false} ReplaceCharPointwise(s: string, target: char, d: char)
    ensures |ReplaceChar(s, target, [d])| == |s|
    ensures forall i :: 0 <= i < |s| ==> ReplaceChar(s, target, [d])[i] == if s[i] == target then d else s[i]
    decreases |s|
  {
    if s != [] {
      ReplaceCharPointwise(s[1..], target, d);
    }
  }

  // ---------------------------------------------------------------------------
  // Decimal rendering
  // ---------------------------------------------------------------------------

  function Digit(d: nat): (c: char)
    requires d < 10
    ensures IsDigit(c)
  {
    ('0' as int + d) as char
  }

  /** `n.ToString()` for a non-negative integer. */
  function NatToString(n: nat): (r: string)
    ensures |r| >= 1
    ensures forall i :: 0 <= i < |r| ==> IsDigit(r[i])
    decreases n
  {
    if n < 10 then [Digit(n)] else NatToString(n / 10) + [Digit(n % 10)]
  }

  function DigitValue(c: char): (d: nat)
    requires IsDigit(c)
    ensures d < 10
  {
    c as int - '0' as int
  }

  /** The value of a string of decimal digits. */
  function ParseNat(s: string): nat
    requires forall i :: 0 <= i < |s| ==> IsDigit(s[i])
    decreases |s|
  {
    if s == [] then 0 else ParseNat(s[..|s| - 1]) * 10 + DigitValue(s[|s| - 1])
  }

  /** Reading back the rendering of a number gives the number. */
  lemma {:induction false} ParseNatToString(n: nat)
    ensures ParseNat(NatToString(n)) == n
    decreases n
  {
    if n >= 10 {
      ParseNatToString(n / 10);
      var r := NatToString(n);
      assert r[..|r| - 1] == NatToString(n / 10);
    }
  }

  /** `n.ToString()` for any integer: a minus sign before the magnitude. */
  function IntToString(n: int): string {
    if n < 0 then "-" + NatToString(-n) else NatToString(n)
  }

  /** `s.PadLeft(width, c)`. */
  function PadLeft(s: string, width: int, c: char): (r: string)
    ensures |r| == Max(|s|, width)
    ensures r[|r| - |s|..] == s
  {
    if |s| < width then seq(width - |s|, _ => c) + s else s
  }
}

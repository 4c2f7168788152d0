/** EnumerableExtensions.cs: null-tolerant list helpers and the OAuth 1.0
    parameter normalisation of section 3.4.1.3.2 of RFC 5849. */
module EnumerableExtensions {
  import opened Wrappers
  import opened Text
  import opened Framework
  import StringExtensions

  // ---------------------------------------------------------------------------
  // Null-tolerant helpers
  // ---------------------------------------------------------------------------

  /** `ToEmptyIfNull`: the list itself, or a new empty list for null. */
  method ToEmptyIfNull<T(==)>(list: List?<T>) returns (r: List<T>)
    ensures list != null ==> r == list
    ensures list == null ==> fresh(r) && r.items == []
  {
    if list != null {
      return list;
    }
    r := new List([]);
  }

  /** `ToEmptyListIfNull`: always a new list, holding the enumerable's
      elements in order, or none for null. */
  method ToEmptyListIfNull<T(==)>(enumerable: Option<seq<T>>) returns (r: List<T>)
    ensures fresh(r)
    ensures enumerable.None? ==> r.items == []
    ensures enumerable.Some? ==> r.items == enumerable.value
  {
    r := new List(if enumerable.None? then [] else enumerable.value);
  }

  /** `IsNullOrEmpty` on an enumerable. */
  predicate ListIsNullOrEmpty<T>(list: Option<seq<T>>) {
    list.None? || list.value == []
  }

  /** `HasRecords`. */
  predicate HasRecords<T>(list: Option<seq<T>>) {
    list.Some? && |list.value| > 0
  }

  /** `IsNullOrEmpty` and `HasRecords` are each other's negation, null included. */
  lemma HasRecordsIsNotEmpty<T>(list: Option<seq<T>>)
    ensures HasRecords(list) <==> !ListIsNullOrEmpty(list)
    ensures HasRecords(list) <==> exists x :: x in list.GetOr([])
  {
    if HasRecords(list) {
      assert list.value[0] in list.value;
    }
  }

  /** `ToCommaSeparatedList(list, separator)`: `string.Join`, which throws for
      a null list and renders a null separator or element as empty. Elements
      are given as their `ToString()` text. */
  function ToCommaSeparatedList(list: Option<seq<Option<string>>>, separator: Option<string>): (r: Result<string>)
    ensures r.Err? <==> list.None?
    ensures r.Ok? ==> r.value == Join(separator.GetOr(""), Texts(list.value))
    ensures r.Ok? && list.value != [] ==>
              |r.value| == |Flatten(Texts(list.value))| + (|list.value| - 1) * |separator.GetOr("")|
  {
    if list.None? then Err(ArgumentNull)
    else
      JoinLength(separator.GetOr(""), Texts(list.value));
      Ok(Join(separator.GetOr(""), Texts(list.value)))
  }

  /** The default separator. */
  const DefaultSeparator: string := ", "

  /** Null elements render as the empty string. */
  function Texts(xs: seq<Option<string>>): (r: seq<string>)
    ensures |r| == |xs|
    ensures forall i :: 0 <= i < |xs| ==> r[i] == xs[i].GetOr("")
  {
    seq(|xs|, i requires 0 <= i < |xs| => xs[i].GetOr(""))
  }

  /** `AddIfNotNull(list, item)`. */
  method AddIfNotNull<T(==)>(list: List<Option<T>>, item: Option<T>) returns (r: List<Option<T>>)
    modifies list
    ensures r == list
    ensures item.Some? ==> list.items == old(list.items) + [item]
    ensures item.None? ==> list.items == old(list.items)
  {
    if item.Some? {
      list.Add(item);
    }
    return list;
  }

  /** `AddRangeIfNotNullOrEmpty(list, listToAdd)`: `AddRange` appends the
      elements in order. */
  method AddRangeIfNotNullOrEmpty<T(==)>(list: List<T>, listToAdd: Option<seq<T>>) returns (r: List<T>)
    modifies list
    ensures r == list
    ensures !ListIsNullOrEmpty(listToAdd) ==> list.items == old(list.items) + listToAdd.value
    ensures ListIsNullOrEmpty(listToAdd) ==> list.items == old(list.items)
  {
    if !ListIsNullOrEmpty(listToAdd) {
      list.items := list.items + listToAdd.value;
    }
    return list;
  }

  /** Whether some non-null element equals `word` ignoring case. */
  function AnyEqualsIgnoreCase(xs: seq<Option<string>>, word: string): (r: bool)
    ensures r <==> exists i :: 0 <= i < |xs| && xs[i].Some? && EqualsIgnoreCase(xs[i].value, word)
    decreases |xs|
  {
    if xs == [] then false
    else (xs[0].Some? && EqualsIgnoreCase(xs[0].value, word)) || AnyEqualsIgnoreCase(xs[1..], word)
  }

  /** `ContainsCaseInsensitive(list, searchWord)`: a null element never equals
      a non-null search word. */
  function ContainsCaseInsensitive(list: Option<seq<Option<string>>>, searchWord: Option<string>): (r: bool)
    ensures ListIsNullOrEmpty(list) || searchWord.None? ==> !r
    ensures r <==> list.Some? && searchWord.Some?
                   && exists i :: 0 <= i < |list.value| && list.value[i].Some?
                                  && EqualsIgnoreCase(list.value[i].value, searchWord.value)
  {
    if ListIsNullOrEmpty(list) || searchWord.None? then false
    else AnyEqualsIgnoreCase(list.value, searchWord.value)
  }

  // ---------------------------------------------------------------------------
  // OAuth 1.0 parameter normalisation
  // ---------------------------------------------------------------------------

  /** An entry of a `NameValueCollection` as `AllKeys` and the indexer give it:
      a key and its (comma-joined) value, `None` for null. */
  type Entry = (string, Option<string>)

  /** An encoded name/value pair. */
  type Pair = (string, string)

  /** The parameters section 3.4.1.3.1 of RFC 5849 excludes. */
  predicate Included(e: Entry) {
    e.0 != "oauth_signature" && e.0 != "realm"
  }

  /** The pairs the first loop builds, from the included entries in order. */
  function EncodedPairs(collection: seq<Entry>, escape: string -> string): (r: seq<Pair>)
    ensures |r| == |Filter(collection, Included)|
    decreases |collection|
  {
    if collection == [] then []
    else
      var init := EncodedPairs(collection[..|collection| - 1], escape);
      var e := collection[|collection| - 1];
      if Included(e) then
        init + [(StringExtensions.ToRfc3986EncodedString(e.0, escape),
                 StringExtensions.ToRfc3986EncodedString(e.1.GetOr(""), escape))]
      else init
  }

  /** The pair order: by name, then by value, both ordinal. */
  predicate PairLess(p: Pair, q: Pair) {
    OrdinalLess(p.0, q.0) || (p.0 == q.0 && OrdinalLess(p.1, q.1))
  }

  predicate PairLe(p: Pair, q: Pair) {
    p == q || PairLess(p, q)
  }

  lemma PairLeTransitive(p: Pair, q: Pair, r: Pair)
    requires PairLe(p, q) && PairLe(q, r)
    ensures PairLe(p, r)
  {
    if p != q && q != r {
      if OrdinalLess(p.0, q.0) && OrdinalLess(q.0, r.0) {
        OrdinalLessTransitive(p.0, q.0, r.0);
      } else if p.0 == q.0 && q.0 == r.0 {
        OrdinalLessTransitive(p.1, q.1, r.1);
      }
    }
  }

  lemma PairLeTotal(p: Pair, q: Pair)
    ensures PairLe(p, q) || PairLe(q, p)
  {
    OrdinalLessTotal(p.0, q.0);
    OrdinalLessTotal(p.1, q.1);
  }

  lemma PairLeAntisymmetric(p: Pair, q: Pair)
    requires PairLe(p, q) && PairLe(q, p)
    ensures p == q
  {
    if p != q {
      if OrdinalLess(p.0, q.0) && OrdinalLess(q.0, p.0) {
        OrdinalLessTransitive(p.0, q.0, p.0);
        OrdinalLessIrreflexive(p.0);
      } else if OrdinalLess(p.0, q.0) || OrdinalLess(q.0, p.0) {
        OrdinalLessIrreflexive(p.0);
      } else {
        OrdinalLessTransitive(p.1, q.1, p.1);
        OrdinalLessIrreflexive(p.1);
      }
    }
  }

  predicate Sorted(xs: seq<Pair>) {
    forall i, j :: 0 <= i < j < |xs| ==> PairLe(xs[i], xs[j])
  }

  /** Insertion of one pair into a sorted list. */
  function Insert(p: Pair, xs: seq<Pair>): (r: seq<Pair>)
    ensures multiset(r) == multiset(xs) + multiset{p}
    decreases |xs|
  {
    if xs == [] then [p]
    else if PairLe(p, xs[0]) then [p] + xs
    else
      assert xs == [xs[0]] + xs[1..];
      [xs[0]] + Insert(p, xs[1..])
  }

  lemma {:induction false} InsertSorted(p: Pair, xs: seq<Pair>)
    requires Sorted(xs)
    ensures Sorted(Insert(p, xs))
    decreases |xs|
  {
    if xs == [] {
    } else if PairLe(p, xs[0]) {
      forall j | 0 < j < |xs|
        ensures PairLe(p, xs[j])
      {
        PairLeTransitive(p, xs[0], xs[j]);
      }
    } else {
      InsertSorted(p, xs[1..]);
      PairLeTotal(p, xs[0]);
      var r := Insert(p, xs[1..]);
      forall j | 0 <= j < |r|
        ensures PairLe(xs[0], r[j])
      {
        assert r[j] in multiset(r);
        assert r[j] == p || r[j] in multiset(xs[1..]);
        if r[j] != p {
          var k :| 0 <= k < |xs[1..]| && xs[1..][k] == r[j];
          assert xs[k + 1] == r[j];
        }
      }
    }
  }

  /** `List.Sort` with the comparison of the source: the sorted permutation. */
  function SortPairs(xs: seq<Pair>): (r: seq<Pair>)
    ensures multiset(r) == multiset(xs)
    decreases |xs|
  {
    if xs == [] then []
    else
      assert xs == [xs[0]] + xs[1..];
      Insert(xs[0], SortPairs(xs[1..]))
  }

  lemma {:induction false} SortPairsSorted(xs: seq<Pair>)
    ensures Sorted(SortPairs(xs))
    decreases |xs|
  {
    if xs != [] {
      SortPairsSorted(xs[1..]);
      InsertSorted(xs[0], SortPairs(xs[1..]));
    }
  }

  /** Two sorted lists with the same elements are equal: since the comparison
      tells any two different pairs apart, the order `List.Sort` produces does
      not depend on the sorting algorithm or its stability. */
  lemma {:induction false} SortedUnique(a: seq<Pair>, b: seq<Pair>)
    requires Sorted(a) && Sorted(b) && multiset(a) == multiset(b)
    ensures a == b
    decreases |a|
  {
    assert |a| == |multiset(a)| == |multiset(b)| == |b|;
    if a != [] {
      SortedHeadsEqual(a, b);
      TailMultiset(a);
      TailMultiset(b);
      SortedUnique(a[1..], b[1..]);
      assert a == [a[0]] + a[1..] && b == [b[0]] + b[1..];
    }
  }

  lemma SortedHeadsEqual(a: seq<Pair>, b: seq<Pair>)
    requires Sorted(a) && Sorted(b) && multiset(a) == multiset(b) && a != [] && b != []
    ensures a[0] == b[0]
  {
    assert a[0] in multiset(b) && b[0] in multiset(a);
    SortedHeadIsLeast(b, a[0]);
    SortedHeadIsLeast(a, b[0]);
    PairLeAntisymmetric(a[0], b[0]);
  }

  lemma TailMultiset<T>(a: seq<T>)
    requires a != []
    ensures multiset(a[1..]) == multiset(a) - multiset{a[0]}
  {
    assert a == [a[0]] + a[1..];
  }

  lemma SortedHeadIsLeast(a: seq<Pair>, x: Pair)
    requires Sorted(a) && x in a
    ensures PairLe(a[0], x)
  {
    var i :| 0 <= i < |a| && a[i] == x;
    if i > 0 {
      assert PairLe(a[0], a[i]);
    }
  }

  /** "name=value". */
  function Render(p: Pair): string {
    p.0 + "=" + p.1
  }

  function RenderAll(ps: seq<Pair>): (r: seq<string>)
    ensures |r| == |ps|
    ensures forall i :: 0 <= i < |ps| ==> r[i] == Render(ps[i])
  {
    seq(|ps|, i requires 0 <= i < |ps| => Render(ps[i]))
  }

  predicate IsAmpersand(c: char) { c == '&' }

  /** The result of `ToNormalizedString`: the sorted pairs, each preceded by
      '&', with every leading '&' then trimmed. */
  function NormalizedString(collection: seq<Entry>, escape: string -> string): string {
    TrimStartBy(PrefixEach("&", RenderAll(SortPairs(EncodedPairs(collection, escape)))), IsAmpersand)
  }

  /** `ToNormalizedString(collection)`: `escape` is `Uri.EscapeDataString`. */
  method ToNormalizedString(collection: seq<Entry>, escape: string -> string) returns (r: string)
    ensures r == NormalizedString(collection, escape)
  {
    var keyValuePairList := CollectPairs(collection, escape);
    keyValuePairList := SortPairs(keyValuePairList);
    var stringBuilder := new StringBuilder("");
    AppendPairs(stringBuilder, keyValuePairList);
    assert stringBuilder.contents == PrefixEach("&", RenderAll(keyValuePairList));
    r := TrimStartBy(stringBuilder.contents, IsAmpersand);
  }

  /** The first loop of `ToNormalizedString`: the excluded keys are compared
      before encoding, and a null value is encoded as the empty string. */
  method CollectPairs(collection: seq<Entry>, escape: string -> string) returns (keyValuePairList: seq<Pair>)
    ensures keyValuePairList == EncodedPairs(collection, escape)
  {
    keyValuePairList := [];
    for n := 0 to |collection|
      invariant keyValuePairList == EncodedPairs(collection[..n], escape)
    {
      assert collection[..n + 1][..n] == collection[..n];
      var allKey := collection[n].0;
      if allKey != "oauth_signature" && allKey != "realm" {
        var str := collection[n].1.GetOr("");
        keyValuePairList := keyValuePairList + [(StringExtensions.ToRfc3986EncodedString(allKey, escape),
                                                 StringExtensions.ToRfc3986EncodedString(str, escape))];
      }
    }
    assert collection[..|collection|] == collection;
  }

  /** The last loop of `ToNormalizedString`: '&', name, '=', value for each pair. */
  method AppendPairs(stringBuilder: StringBuilder, keyValuePairList: seq<Pair>)
    modifies stringBuilder
    ensures stringBuilder.contents == old(stringBuilder.contents) + PrefixEach("&", RenderAll(keyValuePairList))
  {
    for n := 0 to |keyValuePairList|
      invariant stringBuilder.contents == old(stringBuilder.contents) + PrefixEach("&", RenderAll(keyValuePairList[..n]))
    {
      var keyValuePair := keyValuePairList[n];
      stringBuilder.Append("&");
      stringBuilder.Append(keyValuePair.0);
      stringBuilder.Append("=");
      stringBuilder.Append(keyValuePair.1);
      assert RenderAll(keyValuePairList[..n + 1])[..n] == RenderAll(keyValuePairList[..n]);
    }
    assert keyValuePairList[..|keyValuePairList|] == keyValuePairList;
  }

  /** A pair is built exactly for each entry whose raw key is not excluded,
      its name and value encoded, a null value encoded as the empty string. */
  lemma {:induction false} EncodedPairsMembership(collection: seq<Entry>, escape: string -> string, e: Entry)
    ensures e in collection && Included(e) ==>
              (StringExtensions.ToRfc3986EncodedString(e.0, escape),
               StringExtensions.ToRfc3986EncodedString(e.1.GetOr(""), escape)) in EncodedPairs(collection, escape)
    ensures forall p :: p in EncodedPairs(collection, escape) ==>
              exists f :: f in collection && Included(f)
                          && p == (StringExtensions.ToRfc3986EncodedString(f.0, escape),
                                   StringExtensions.ToRfc3986EncodedString(f.1.GetOr(""), escape))
    decreases |collection|
  {
    if collection != [] {
      var init := collection[..|collection| - 1];
      EncodedPairsMembership(init, escape, e);
      assert collection == init + [collection[|collection| - 1]];
    }
  }

  /** The sorted list is ordered by name then value and holds the encoded pairs. */
  lemma NormalizedPairsSorted(collection: seq<Entry>, escape: string -> string)
    ensures Sorted(SortPairs(EncodedPairs(collection, escape)))
    ensures multiset(SortPairs(EncodedPairs(collection, escape))) == multiset(EncodedPairs(collection, escape))
  {
    SortPairsSorted(EncodedPairs(collection, escape));
  }

  /** The output is the sorted "name=value" pairs joined by '&', provided no
      encoded name starts with '&' (percent-encoding writes '&' as "%26");
      with no pairs it is empty. */
  lemma NormalizedStringIsJoin(collection: seq<Entry>, escape: string -> string)
    requires forall p :: p in EncodedPairs(collection, escape) ==> p.0 == [] || p.0[0] != '&'
    ensures NormalizedString(collection, escape)
            == Join("&", RenderAll(SortPairs(EncodedPairs(collection, escape))))
    ensures EncodedPairs(collection, escape) == [] ==> NormalizedString(collection, escape) == ""
  {
    var pairs := EncodedPairs(collection, escape);
    var sorted := SortPairs(pairs);
    forall p | p in sorted
      ensures p.0 == [] || p.0[0] != '&'
    {
      assert multiset(sorted)[p] > 0;
    }
    TrimmedPrefixEachIsJoin(sorted);
  }

  lemma TrimmedPrefixEachIsJoin(ps: seq<Pair>)
    requires forall p :: p in ps ==> p.0 == [] || p.0[0] != '&'
    ensures TrimStartBy(PrefixEach("&", RenderAll(ps)), IsAmpersand) == Join("&", RenderAll(ps))
  {
    var rendered := RenderAll(ps);
    if ps != [] {
      PrefixEachIsJoin("&", rendered);
      var j := Join("&", rendered);
      FirstRenderedChar(ps);
      JoinStartsWithFirst("&", rendered);
      assert j[0] == rendered[0][0];
      TrimStartByDropsOne("&" + j, IsAmpersand);
      assert ("&" + j)[1..] == j;
      TrimStartByNoop(j, IsAmpersand);
    }
  }

  /** The first rendered pair is not empty and does not start with '&'. */
  lemma FirstRenderedChar(ps: seq<Pair>)
    requires ps != [] && (ps[0].0 == [] || ps[0].0[0] != '&')
    ensures RenderAll(ps)[0] != [] && RenderAll(ps)[0][0] != '&'
  {
    var first := Render(ps[0]);
    assert first == ps[0].0 + "=" + ps[0].1;
    assert |ps[0].0| == 0 ==> first[0] == '=';
    assert |ps[0].0| > 0 ==> first[0] == ps[0].0[0];
  }
}

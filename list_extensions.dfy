/** ListExtensions.cs: add-if-absent and remove-if-present on lists and hash
    sets, even partitioning, and a case-insensitive multi-column search. */
module ListExtensions {
  import opened Wrappers
  import opened Text
  import opened Framework

  // ---------------------------------------------------------------------------
  // Add if absent, remove if present
  // ---------------------------------------------------------------------------

  /** `AddIfNotExists(list, element)`: appends `element` unless the list holds it. */
  method AddIfNotExists<T(==)>(list: List<T>, element: T) returns (r: List<T>)
    modifies list
    ensures r == list
    ensures element in old(list.items) ==> list.items == old(list.items)
    ensures element !in old(list.items) ==> list.items == old(list.items) + [element]
  {
    if !list.Contains(element) {
      list.Add(element);
    }
    return list;
  }

  /** The list after each of `values` is added unless already present, values
      added earlier in the same pass included. */
  function AddAllAbsent<T(==)>(xs: seq<T>, values: seq<T>): seq<T>
    decreases |values|
  {
    if values == [] then xs
    else
      var ys := AddAllAbsent(xs, values[..|values| - 1]);
      var v := values[|values| - 1];
      if v in ys then ys else ys + [v]
  }

  /** `AddIfNotExists(list, values)`: a null list or null values change nothing.
      The values are those of `values` when the call starts: when `values` is
      `list` itself every value is already present and nothing is added. */
  method AddIfNotExistsValues<T(==)>(list: List?<T>, values: List?<T>) returns (r: List?<T>)
    modifies list
    ensures r == list
    ensures list != null && values != null ==> list.items == AddAllAbsent(old(list.items), old(values.items))
    ensures list != null && values == null ==> list.items == old(list.items)
  {
    if list != null && values != null {
      var vs := values.items;
      for i := 0 to |vs|
        invariant list.items == AddAllAbsent(old(list.items), vs[..i])
      {
        assert vs[..i + 1][..i] == vs[..i];
        if !list.Contains(vs[i]) {
          list.Add(vs[i]);
        }
      }
      assert vs[..|vs|] == vs;
    }
    return list;
  }

  predicate NoDuplicates<T(==)>(xs: seq<T>) {
    forall i, j :: 0 <= i < j < |xs| ==> xs[i] != xs[j]
  }

  /** Adding absent values keeps the original list as a prefix, holds exactly
      the old elements and the values, and keeps a duplicate-free list free of
      duplicates. */
  lemma {:induction false} AddAllAbsentProperties<T>(xs: seq<T>, values: seq<T>, x: T)
    ensures StartsWithSeq(AddAllAbsent(xs, values), xs)
    ensures x in AddAllAbsent(xs, values) <==> x in xs || x in values
    ensures NoDuplicates(xs) ==> NoDuplicates(AddAllAbsent(xs, values))
    decreases |values|
  {
    if values != [] {
      var init := values[..|values| - 1];
      AddAllAbsentProperties(xs, init, x);
      assert values == init + [values[|values| - 1]];
    }
  }

  predicate StartsWithSeq<T(==)>(s: seq<T>, prefix: seq<T>) {
    |prefix| <= |s| && s[..|prefix|] == prefix
  }

  /** Adding a list to itself changes nothing. */
  lemma AddAllAbsentSelf<T>(xs: seq<T>)
    ensures AddAllAbsent(xs, xs) == xs
  {
    AddAllAbsentPresent(xs, xs);
  }

  lemma {:induction false} AddAllAbsentPresent<T>(xs: seq<T>, values: seq<T>)
    requires forall i :: 0 <= i < |values| ==> values[i] in xs
    ensures AddAllAbsent(xs, values) == xs
    decreases |values|
  {
    if values != [] {
      AddAllAbsentPresent(xs, values[..|values| - 1]);
    }
  }

  /** `RemoveIfExists(list, element)`: `List<T>.Remove` of the first occurrence. */
  method RemoveIfExists<T(==)>(list: List<T>, element: T) returns (r: List<T>)
    modifies list
    ensures r == list
    ensures list.items == RemoveFirst(old(list.items), element)
  {
    if list.Contains(element) {
      var _ := list.Remove(element);
    }
    return list;
  }

  /** Removing the first occurrence takes exactly one copy of the element out
      and keeps the other elements in order; an absent element changes nothing. */
  lemma RemoveFirstProperties<T>(xs: seq<T>, x: T)
    ensures x !in xs ==> RemoveFirst(xs, x) == xs
    ensures x in xs ==> |RemoveFirst(xs, x)| == |xs| - 1
    ensures multiset(RemoveFirst(xs, x)) == multiset(xs) - multiset{x}
    ensures x in xs ==> exists i :: 0 <= i < |xs| && xs[i] == x && (forall j :: 0 <= j < i ==> xs[j] != x)
                                    && RemoveFirst(xs, x) == xs[..i] + xs[i + 1..]
  {
    if x in xs {
      var i := FirstIndex(xs, x);
      assert xs == xs[..i] + [x] + xs[i + 1..];
      assert multiset(xs) == multiset(xs[..i]) + multiset{x} + multiset(xs[i + 1..]);
    } else {
      assert multiset(xs)[x] == 0;
    }
  }

  /** `AddIfNotExists(set, element)` on a `HashSet`. */
  method AddIfNotExistsToSet<T(==)>(list: HashSet<T>, element: T) returns (r: HashSet<T>)
    modifies list
    ensures r == list
    ensures list.elements == old(list.elements) + {element}
  {
    if !list.Contains(element) {
      var _ := list.Add(element);
    }
    return list;
  }

  /** `RemoveIfExists(set, element)` on a `HashSet`. */
  method RemoveIfExistsFromSet<T(==)>(list: HashSet<T>, element: T) returns (r: HashSet<T>)
    modifies list
    ensures r == list
    ensures list.elements == old(list.elements) - {element}
  {
    if list.Contains(element) {
      var _ := list.Remove(element);
    }
    return list;
  }

  // ---------------------------------------------------------------------------
  // Partition
  // ---------------------------------------------------------------------------

  /** `(int)Math.Ceiling(n / (double)t)` for t > 0. For 32-bit operands the
      quotient in double precision is within 1/t of the exact one, so the
      ceiling is the integer ceiling. */
  function CeilDiv(n: nat, t: nat): (m: nat)
    requires t > 0
    ensures m * t >= n
    ensures n > 0 ==> (m - 1) * t < n
    ensures n == 0 ==> m == 0
  {
    (n + t - 1) / t
  }

  /** Chunk `i`: the elements from `i * m` up to `(i + 1) * m`, cut at the end. */
  function Chunk<T>(xs: seq<T>, m: nat, i: nat): seq<T> {
    xs[Min(i * m, |xs|)..Min(i * m + m, |xs|)]
  }

  /** The first `count` chunks of size `m`. */
  function Chunks<T>(xs: seq<T>, m: nat, count: nat): seq<seq<T>> {
    seq(count, i requires 0 <= i < count => Chunk(xs, m, i))
  }

  /** The partitions `Partition` is meant to return: chunk `i` of size
      ceil(n / totalPartitions), none when `totalPartitions <= 0`. */
  function Partitions<T>(xs: seq<T>, totalPartitions: int): seq<seq<T>> {
    if totalPartitions <= 0 then [] else Chunks(xs, CeilDiv(|xs|, totalPartitions), totalPartitions)
  }

  /** The offset `k` at the start of outer turn `i`: `k += maxSize` is
      unchecked 32-bit `int` arithmetic. */
  function KAt(m: nat, i: nat): int
    decreases i
  {
    if i == 0 then 0 else Wrap32(KAt(m, i - 1) + m)
  }

  /** One inner loop as written: `j` runs from `k` while below the wrapped
      `k + maxSize`, stops at the end of the list, and a negative `j` makes
      the list indexer throw. */
  function ChunkAsWritten<T>(xs: seq<T>, k: int, m: nat): Result<seq<T>> {
    var bound := Wrap32(k + m);
    if bound <= k then Ok([])
    else if k < 0 then Err(ArgumentOutOfRange)
    else Ok(xs[Min(k, |xs|)..Min(bound, |xs|)])
  }

  /** The first `count` partitions as written, or the first exception. */
  function ChunksAsWritten<T>(xs: seq<T>, m: nat, count: nat): Result<seq<seq<T>>>
    decreases count
  {
    if count == 0 then Ok([])
    else
      match ChunksAsWritten(xs, m, count - 1)
      case Err(e) => Err(e)
      case Ok(ps) =>
        match ChunkAsWritten(xs, KAt(m, count - 1), m)
        case Err(e) => Err(e)
        case Ok(c) => Ok(ps + [c])
  }

  /** What `Partition` returns, 32-bit offsets included. */
  function PartitionAsWritten<T>(xs: seq<T>, totalPartitions: int): Result<seq<seq<T>>> {
    if totalPartitions <= 0 then Ok([])
    else ChunksAsWritten(xs, CeilDiv(|xs|, totalPartitions), totalPartitions)
  }

  /** `Partition(list, totalPartitions)`: `totalPartitions` lists of at most
      `maxSize` consecutive elements, filled in order, with the running offset
      `k` kept in a 32-bit `int`. With no partitions to make the loop never
      runs. */
  method Partition<T>(list: seq<T>, totalPartitions: int) returns (r: Result<seq<seq<T>>>)
    ensures r == PartitionAsWritten(list, totalPartitions)
  {
    var partitions := [];
    if totalPartitions <= 0 {
      return Ok(partitions);
    }
    var maxSize := CeilDiv(|list|, totalPartitions);
    var k := 0;
    for i := 0 to totalPartitions
      invariant k == KAt(maxSize, i)
      invariant ChunksAsWritten(list, maxSize, i) == Ok(partitions)
    {
      var partition := TakeChunk(list, k, maxSize);
      if partition.Err? {
        ErrPersists(list, maxSize, i + 1, totalPartitions);
        return Err(partition.error);
      }
      k := Wrap32(k + maxSize);
      partitions := partitions + [partition.value];
    }
    return Ok(partitions);
  }

  /** The inner loop of `Partition`: from index `k` up to the wrapped
      `k + maxSize`, cut at the end of the list. */
  method TakeChunk<T>(list: seq<T>, k: int, maxSize: nat) returns (r: Result<seq<T>>)
    ensures r == ChunkAsWritten(list, k, maxSize)
  {
    var partition := [];
    var bound := Wrap32(k + maxSize);
    var j := k;
    while j < bound
      invariant k <= j
      invariant j == k || (0 <= k && j <= bound)
      invariant j == k ==> partition == []
      invariant 0 <= k ==> partition == list[Min(k, |list|)..Min(j, |list|)]
    {
      if j >= |list| {
        break;
      }
      if j < 0 {
        return Err(ArgumentOutOfRange);
      }
      partition := partition + [list[j]];
      j := j + 1;
    }
    return Ok(partition);
  }

  /** Once an inner loop has thrown, the whole call has. */
  lemma {:induction false} ErrPersists<T>(xs: seq<T>, m: nat, c: nat, d: nat)
    requires c <= d && ChunksAsWritten(xs, m, c).Err?
    ensures ChunksAsWritten(xs, m, d) == ChunksAsWritten(xs, m, c)
    decreases d - c
  {
    if c < d {
      ErrPersists(xs, m, c + 1, d);
    }
  }

  /** While `i * m` fits in 32 bits the running offset is exact. */
  lemma {:induction false} KAtExact(m: nat, i: nat)
    requires i * m < 0x8000_0000
    ensures KAt(m, i) == i * m
    decreases i
  {
    if i > 0 {
      MulMono(i - 1, i, m);
      KAtExact(m, i - 1);
      SuccMul(i - 1, m);
    }
  }

  /** While the end offset `c * m` fits in 32 bits, the first `c` partitions
      as written are the intended ones. */
  lemma {:induction false} ChunksWithoutWrap<T>(xs: seq<T>, m: nat, c: nat)
    requires c * m < 0x8000_0000
    ensures ChunksAsWritten(xs, m, c) == Ok(Chunks(xs, m, c))
    decreases c
  {
    if c > 0 {
      MulMono(c - 1, c, m);
      ChunksWithoutWrap(xs, m, c - 1);
      KAtExact(m, c - 1);
      SuccMul(c - 1, m);
      ChunkWithoutWrap(xs, m, c - 1);
      ChunksStep(xs, m, c - 1);
      ChunksSnoc(xs, m, c - 1);
    } else {
      assert Chunks(xs, m, 0) == [];
    }
  }

  /** One more outer turn appends its partition. */
  lemma ChunksStep<T>(xs: seq<T>, m: nat, c: nat)
    requires ChunksAsWritten(xs, m, c).Ok? && ChunkAsWritten(xs, KAt(m, c), m).Ok?
    ensures ChunksAsWritten(xs, m, c + 1)
            == Ok(ChunksAsWritten(xs, m, c).value + [ChunkAsWritten(xs, KAt(m, c), m).value])
  {
  }

  lemma ChunksSnoc<T>(xs: seq<T>, m: nat, c: nat)
    ensures Chunks(xs, m, c + 1) == Chunks(xs, m, c) + [Chunk(xs, m, c)]
  {
  }

  /** Chunk `i` as written, at the exact offset `i * m`, is the intended chunk. */
  lemma ChunkWithoutWrap<T>(xs: seq<T>, m: nat, i: nat)
    requires i * m + m < 0x8000_0000
    ensures ChunkAsWritten(xs, i * m, m) == Ok(Chunk(xs, m, i))
  {
    if m == 0 {
      assert i * m == 0;
    }
  }

  /** When the last partition's end offset `totalPartitions * maxSize` fits
      in 32 bits, `Partition` returns the intended partitions. */
  lemma PartitionWithoutWrap<T>(xs: seq<T>, totalPartitions: int)
    requires totalPartitions > 0
    requires totalPartitions * CeilDiv(|xs|, totalPartitions) < 0x8000_0000
    ensures PartitionAsWritten(xs, totalPartitions) == Ok(Partitions(xs, totalPartitions))
  {
    ChunksWithoutWrap(xs, CeilDiv(|xs|, totalPartitions), totalPartitions);
  }

  /** In particular a list and a partition count whose sum is at most 2^31
      never wrap. */
  lemma PartitionOfSmallList<T>(xs: seq<T>, totalPartitions: int)
    requires totalPartitions > 0 && |xs| + totalPartitions <= 0x8000_0000
    ensures PartitionAsWritten(xs, totalPartitions) == Ok(Partitions(xs, totalPartitions))
  {
    var m := CeilDiv(|xs|, totalPartitions);
    if |xs| > 0 {
      SuccMul(m - 1, totalPartitions);
    }
    assert totalPartitions * m < 0x8000_0000;
    PartitionWithoutWrap(xs, totalPartitions);
  }

  /** When the last of `count` chunks starts inside the list but its end
      offset `k + m` passes `int.MaxValue`, the wrapped bound is negative and
      the last inner loop collects nothing: the chunks before it are the
      intended ones, and the last chunk, which holds elements, comes back
      empty. */
  lemma LastChunkLost<T>(xs: seq<T>, m: nat, count: nat, k: nat)
    requires |xs| < 0x8000_0000 && m < 0x8000_0000
    requires count > 0 && k == (count - 1) * m
    requires k < |xs| && 0x8000_0000 <= k + m
    ensures ChunksAsWritten(xs, m, count) == Ok(Chunks(xs, m, count - 1) + [[]])
    ensures Chunk(xs, m, count - 1) == xs[k..]
  {
    ChunksWithoutWrap(xs, m, count - 1);
    KAtExact(m, count - 1);
    WrappedEndIsEmpty(xs, k, m);
    ChunksStep(xs, m, count - 1);
  }

  /** A start inside 32 bits with an end past them collects nothing. */
  lemma WrappedEndIsEmpty<T>(xs: seq<T>, k: nat, m: nat)
    requires k < 0x8000_0000 <= k + m && m < 0x8000_0000
    ensures ChunkAsWritten(xs, k, m) == Ok([])
  {
    assert Wrap32(k + m) == k + m - 0x1_0000_0000;
  }

  /** The first `c` chunks of size `m`, with an empty one after them, cover
      the first `c * m` elements. */
  lemma FirstChunksFlatten<T>(xs: seq<T>, m: nat, c: nat, k: nat)
    requires k == c * m && k <= |xs|
    ensures Flatten(Chunks(xs, m, c) + [[]]) == xs[..k]
  {
    var ps := Chunks(xs, m, c);
    ChunksFlatten(xs, m, c, ps);
    assert ps[..c] == ps;
    FlattenSnoc(ps, []);
  }

  /** A list of `Array.MaxLength` = 2147483591 elements in 1000 partitions:
      maxSize is 2147484, the last partition starts at k = 2145336516, and
      `k + maxSize` = 2147484000 wraps negative, so the last partition comes
      back empty and its 2147075 elements are lost. */
  lemma PartitionDropsTail<T>(xs: seq<T>)
    requires |xs| == 2147483591
    ensures CeilDiv(|xs|, 1000) == 2147484
    ensures PartitionAsWritten(xs, 1000) == Ok(Partitions(xs, 1000)[..999] + [[]])
    ensures |Partitions(xs, 1000)[999]| == 2147075
    ensures Flatten(Partitions(xs, 1000)[..999] + [[]]) == xs[..2145336516]
  {
    var m := CeilDiv(|xs|, 1000);
    assert m == 2147484;
    LastChunkLost(xs, m, 1000, 2145336516);
    assert Partitions(xs, 1000)[..999] == Chunks(xs, m, 999);
    FirstChunksFlatten(xs, m, 999, 2145336516);
  }

  /** The intended partitions: there are exactly `totalPartitions`, none larger than
      ceil(n / totalPartitions), and concatenated they give back the input. */
  lemma PartitionProperties<T>(xs: seq<T>, totalPartitions: int)
    requires totalPartitions > 0
    ensures |Partitions(xs, totalPartitions)| == totalPartitions
    ensures forall i :: 0 <= i < totalPartitions ==>
              |Partitions(xs, totalPartitions)[i]| <= CeilDiv(|xs|, totalPartitions)
    ensures Flatten(Partitions(xs, totalPartitions)) == xs
  {
    var m := CeilDiv(|xs|, totalPartitions);
    forall i | 0 <= i < totalPartitions
      ensures |Partitions(xs, totalPartitions)[i]| <= m
    {
      ChunkSize(xs, m, i, i * m);
    }
    ChunksCover(xs, m, totalPartitions, m * totalPartitions);
  }

  /** No chunk is longer than `m`. */
  lemma ChunkSize<T>(xs: seq<T>, m: nat, i: nat, a: nat)
    requires a == i * m
    ensures |Chunk(xs, m, i)| <= m
  {
  }

  /** Chunks reaching past the end of the list flatten back to it. */
  lemma ChunksCover<T>(xs: seq<T>, m: nat, count: nat, a: nat)
    requires a == m * count && a >= |xs|
    ensures Flatten(Chunks(xs, m, count)) == xs
  {
    var ps := Chunks(xs, m, count);
    ChunksFlatten(xs, m, count, ps);
    assert ps[..count] == ps;
    assert count * m == a;
  }

  lemma {:induction false} ChunksFlatten<T>(xs: seq<T>, m: nat, i: nat, ps: seq<seq<T>>)
    requires i <= |ps| && forall p :: 0 <= p < |ps| ==> ps[p] == Chunk(xs, m, p)
    ensures Flatten(ps[..i]) == xs[..Min(i * m, |xs|)]
    decreases i
  {
    if i > 0 {
      ChunksFlatten(xs, m, i - 1, ps);
      FlattenPrefixStep(ps, i);
      ChunkAfterPrefix(xs, m, i - 1);
    }
  }

  /** The prefix covered by the first `k` chunks, followed by chunk `k`, is
      the prefix covered by the first `k + 1`. */
  lemma ChunkAfterPrefix<T>(xs: seq<T>, m: nat, k: nat)
    ensures xs[..Min(k * m, |xs|)] + Chunk(xs, m, k) == xs[..Min((k + 1) * m, |xs|)]
  {
    SuccMul(k, m);
    ChunkJoin(xs, k * m, m);
  }

  /** The elements before offset `a`, then the next chunk of `m`, are the
      elements before `a + m`. */
  lemma ChunkJoin<T>(xs: seq<T>, a: nat, m: nat)
    ensures xs[..Min(a, |xs|)] + xs[Min(a, |xs|)..Min(a + m, |xs|)] == xs[..Min(a + m, |xs|)]
  {
    SliceThen(xs, Min(a, |xs|), Min(a + m, |xs|));
  }

  lemma FlattenPrefixStep<T>(ps: seq<seq<T>>, i: nat)
    requires 0 < i <= |ps|
    ensures Flatten(ps[..i]) == Flatten(ps[..i - 1]) + ps[i - 1]
  {
    assert ps[..i][..i - 1] == ps[..i - 1];
  }

  lemma SliceThen<T>(xs: seq<T>, a: nat, b: nat)
    requires a <= b <= |xs|
    ensures xs[..a] + xs[a..b] == xs[..b]
  {
  }

  // ---------------------------------------------------------------------------
  // SearchList
  // ---------------------------------------------------------------------------

  /** A column value matches when it is not null and its text contains the
      search value, ignoring case. */
  predicate ColumnMatches(x: Option<string>, searchValue: string) {
    x.Some? && ContainsIgnoreCase(x.value, searchValue)
  }

  /** An item matches when one of its columns does. */
  predicate ItemMatches<T>(item: T, searchValue: string, columns: seq<T -> Option<string>>) {
    exists k :: 0 <= k < |columns| && ColumnMatches(columns[k](item), searchValue)
  }

  /** The items `SearchList` keeps, in their original order. */
  function SearchResult<T>(listToSearch: Option<seq<T>>, searchValue: Option<string>,
                           columns: seq<T -> Option<string>>): seq<T> {
    if IsNullOrWhiteSpace(searchValue) || listToSearch.None? then []
    else Filter(listToSearch.value, Matching(Trim(searchValue.value), columns))
  }

  function Matching<T>(searchValue: string, columns: seq<T -> Option<string>>): T -> bool {
    item => ItemMatches(item, searchValue, columns)
  }

  /** `SearchList(listToSearch, searchValue, columns)`: each column is a
      selector followed by `ToString()`, `None` standing for a null selection. */
  method SearchList<T>(listToSearch: Option<seq<T>>, searchValue: Option<string>,
                       columns: seq<T -> Option<string>>) returns (output: seq<T>)
    ensures output == SearchResult(listToSearch, searchValue, columns)
  {
    output := [];
    if IsNullOrWhiteSpace(searchValue) || listToSearch.None? {
      return;
    }
    var sv := Trim(searchValue.value);
    var items := listToSearch.value;
    ghost var keep := Matching(sv, columns);
    for n := 0 to |items|
      invariant output == Filter(items[..n], keep)
    {
      var listItem := items[n];
      var found := AnyColumnMatches(listItem, sv, columns);
      if found {
        output := output + [listItem];
      }
      FilterPrefixStep(items, keep, n);
    }
    assert items[..|items|] == items;
  }

  /** The inner loop of `SearchList`: whether some column of `listItem`
      contains the search value. */
  method AnyColumnMatches<T>(listItem: T, sv: string, columns: seq<T -> Option<string>>) returns (found: bool)
    ensures found == ItemMatches(listItem, sv, columns)
  {
    found := false;
    for c := 0 to |columns|
      invariant !found
      invariant forall k :: 0 <= k < c ==> !ColumnMatches(columns[k](listItem), sv)
    {
      var x := columns[c](listItem);
      if x.Some? && ContainsIgnoreCase(x.value, sv) {
        found := true;
        return;
      }
    }
  }

  /** An item is in the result exactly when it is in the list and one of its
      columns matches, and it appears as often as in the list. */
  lemma SearchListMembership<T>(items: seq<T>, searchValue: string, columns: seq<T -> Option<string>>, x: T)
    requires !AllWhiteSpace(searchValue)
    ensures var r := SearchResult(Some(items), Some(searchValue), columns);
            && (x in r <==> x in items && ItemMatches(x, Trim(searchValue), columns))
            && multiset(r)[x] == if ItemMatches(x, Trim(searchValue), columns) then multiset(items)[x] else 0
  {
    var keep := Matching(Trim(searchValue), columns);
    FilterMembership(items, keep, x);
    FilterMultiplicity(items, keep, x);
  }
}

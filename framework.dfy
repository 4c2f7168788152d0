/** The mutable .NET types the extension methods update in place. Each is a
    class whose one field holds the abstract contents; the framework's own
    primitive operations (`Add`, `Remove`, `Append`) are methods that state the
    new contents. */
module Framework {

  /** The index of the first occurrence of `x`. */
  function FirstIndex<T(==)>(xs: seq<T>, x: T): (i: nat)
    requires x in xs
    ensures i < |xs| && xs[i] == x
    ensures forall j :: 0 <= j < i ==> xs[j] != x
  {
    if xs[0] == x then 0 else 1 + FirstIndex(xs[1..], x)
  }

  /** What `List<T>.Remove` leaves: the first occurrence of `x` taken out. */
  function RemoveFirst<T(==)>(xs: seq<T>, x: T): seq<T> {
    if x in xs then xs[..FirstIndex(xs, x)] + xs[FirstIndex(xs, x) + 1..] else xs
  }

  /** `List<T>`: an ordered, growable sequence of elements. */
  class List<T(==)> {
    var items: seq<T>

    constructor (items: seq<T>)
      ensures this.items == items
    {
      this.items := items;
    }

    /** `List<T>.Add`: appends at the end. */
    method Add(x: T)
      modifies this
      ensures items == old(items) + [x]
    {
      items := items + [x];
    }

    /** `List<T>.Contains`. */
    predicate Contains(x: T)
      reads this
    {
      x in items
    }

    /** `List<T>.Remove`: removes the first occurrence, if any. */
    method Remove(x: T) returns (found: bool)
      modifies this
      ensures found <==> x in old(items)
      ensures items == RemoveFirst(old(items), x)
    {
      found := x in items;
      items := RemoveFirst(items, x);
    }
  }

  /** `HashSet<T>`: an unordered set of distinct elements. */
  class HashSet<T(==)> {
    var elements: set<T>

    constructor (elements: set<T>)
      ensures this.elements == elements
    {
      this.elements := elements;
    }

    /** `HashSet<T>.Contains`. */
    predicate Contains(x: T)
      reads this
    {
      x in elements
    }

    /** `HashSet<T>.Add`. */
    method Add(x: T) returns (added: bool)
      modifies this
      ensures added <==> x !in old(elements)
      ensures elements == old(elements) + {x}
    {
      added := x !in elements;
      elements := elements + {x};
    }

    /** `HashSet<T>.Remove`. */
    method Remove(x: T) returns (removed: bool)
      modifies this
      ensures removed <==> x in old(elements)
      ensures elements == old(elements) - {x}
    {
      removed := x in elements;
      elements := elements - {x};
    }
  }

  /** `StringBuilder`: a growable character buffer. */
  class StringBuilder {
    var contents: string

    constructor (contents: string)
      ensures this.contents == contents
    {
      this.contents := contents;
    }

    /** `StringBuilder.Append(string)`: appending `null` appends nothing. */
    method Append(s: string)
      modifies this
      ensures contents == old(contents) + s
    {
      contents := contents + s;
    }
  }
}

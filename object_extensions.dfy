/** ObjectExtensions.cs: reflection over an object's public properties,
    abstracted to an ordered list of property descriptions and the object's
    current property values. */
module ObjectExtensions {
  import opened Wrappers
  import opened Text

  /** A property value: null, a string, or some other object (compared with
      `Equals`, here equality of the model value). */
  datatype Value = Null | Str(s: string) | Other(id: int)

  /** What `GetProperties()` reports about one property. */
  datatype Property = Property(name: string, isString: bool, canWrite: bool)

  /** An object whose property values can be set in place. */
  class Obj {
    const typeName: string
    const properties: seq<Property>
    var values: seq<Value>

    predicate Valid()
      reads this
    {
      |values| == |properties|
    }

    constructor(typeName: string, properties: seq<Property>, values: seq<Value>)
      requires |values| == |properties|
      ensures Valid()
      ensures this.typeName == typeName && this.properties == properties && this.values == values
    {
      this.typeName := typeName;
      this.properties := properties;
      this.values := values;
    }
  }

  // ---------------------------------------------------------------------------
  // TrimStringProperties
  // ---------------------------------------------------------------------------

  /** The new value of one property: a writable string property with a
      non-null value is trimmed; every other value stays. */
  function TrimmedValue(p: Property, v: Value): (r: Value)
    ensures !(p.isString && p.canWrite && v.Str?) ==> r == v
  {
    if p.isString && p.canWrite && v.Str? then Str(Trim(v.s)) else v
  }

  function TrimmedValues(properties: seq<Property>, values: seq<Value>): (r: seq<Value>)
    requires |values| == |properties|
    ensures |r| == |values|
    ensures forall i :: 0 <= i < |r| ==> r[i] == TrimmedValue(properties[i], values[i])
  {
    seq(|values|, i requires 0 <= i < |values| => TrimmedValue(properties[i], values[i]))
  }

  /** Trimming the properties twice is trimming them once. */
  lemma TrimmedValuesIdempotent(properties: seq<Property>, values: seq<Value>)
    requires |values| == |properties|
    ensures TrimmedValues(properties, TrimmedValues(properties, values)) == TrimmedValues(properties, values)
  {
    var once := TrimmedValues(properties, values);
    forall i | 0 <= i < |values|
      ensures TrimmedValue(properties[i], once[i]) == once[i]
    {
      if properties[i].isString && properties[i].canWrite && values[i].Str? {
        TrimIdempotent(values[i].s);
      }
    }
  }

  /** After trimming, no writable string property has leading or trailing
      white space, and the null ones are still null. */
  lemma TrimmedValuesAreTrim(properties: seq<Property>, values: seq<Value>, i: nat)
    requires |values| == |properties| && i < |values|
    ensures var r := TrimmedValues(properties, values)[i];
            && (values[i].Null? <==> r.Null?)
            && (properties[i].isString && properties[i].canWrite && r.Str? ==> Trim(r.s) == r.s)
  {
    if properties[i].isString && properties[i].canWrite && values[i].Str? {
      TrimIdempotent(values[i].s);
    }
  }

  /** `TrimStringProperties(input)`: null comes back as null; otherwise each
      string property holding a non-null value, if writable, is set to its
      trimmed value, in place, and the same object is returned. */
  method TrimStringProperties(input: Option<Obj>) returns (r: Option<Obj>)
    requires input.Some? ==> input.value.Valid()
    modifies if input.Some? then {input.value} else {}
    ensures r == input
    ensures input.Some? ==> input.value.Valid()
    ensures input.Some? ==> input.value.values == TrimmedValues(input.value.properties, old(input.value.values))
  {
    if input.Some? {
      TrimProperties(input.value);
    }
    return input;
  }

  /** The loop of `TrimStringProperties` over a non-null object. */
  method TrimProperties(obj: Obj)
    requires obj.Valid()
    modifies obj
    ensures obj.Valid() && obj.values == TrimmedValues(obj.properties, old(obj.values))
  {
    ghost var original := obj.values;
    var i := 0;
    while i < |obj.properties|
      invariant 0 <= i <= |obj.properties| && |obj.values| == |original|
      invariant forall j :: 0 <= j < i ==> obj.values[j] == TrimmedValue(obj.properties[j], original[j])
      invariant forall j :: i <= j < |original| ==> obj.values[j] == original[j]
    {
      TrimProperty(obj, i);
      i := i + 1;
    }
  }

  /** One turn of that loop: property `i`, if a writable string property
      holding a string, is set to its trimmed value. */
  method TrimProperty(obj: Obj, i: nat)
    requires obj.Valid() && i < |obj.properties|
    modifies obj
    ensures obj.values == old(obj.values)[i := TrimmedValue(obj.properties[i], old(obj.values)[i])]
  {
    var p := obj.properties[i];
    if p.isString {
      var currentValue := obj.values[i];
      if currentValue.Str? && p.canWrite {
        obj.values := obj.values[i := Str(Trim(currentValue.s))];
      }
    }
  }

  /** `TrimStringPropertiesOfElements(inputCollection)`: null and empty
      collections come back unchanged; otherwise every element is trimmed in
      place and the same collection is returned. An object listed twice is
      trimmed twice, which changes nothing more. */
  method TrimStringPropertiesOfElements(inputCollection: Option<seq<Obj>>) returns (r: Option<seq<Obj>>)
    requires inputCollection.Some? ==> forall o :: o in inputCollection.value ==> o.Valid()
    modifies if inputCollection.Some? then set o | o in inputCollection.value else {}
    ensures r == inputCollection
    ensures inputCollection.Some? ==>
              forall o :: o in inputCollection.value ==>
                old(o.Valid()) && o.Valid() && o.values == TrimmedValues(o.properties, old(o.values))
  {
    if inputCollection.None? || |inputCollection.value| == 0 {
      return inputCollection;
    }
    var items := inputCollection.value;
    var i := 0;
    while i < |items|
      invariant 0 <= i <= |items|
      invariant forall o :: o in items ==> o.Valid() && old(o.Valid())
      invariant forall o :: o in items ==>
                  o.values == if o in items[..i] then TrimmedValues(o.properties, old(o.values)) else old(o.values)
    {
      var item := items[i];
      TrimmedValuesIdempotent(item.properties, old(item.values));
      TrimProperties(item);
      assert items[..i + 1] == items[..i] + [item];
      i := i + 1;
    }
    assert items[..i] == items;
    return inputCollection;
  }

  // ---------------------------------------------------------------------------
  // ToQueryString
  // ---------------------------------------------------------------------------

  /** One "name=value" pair: `HttpUtility.UrlEncode` of the value's
      `ToString()`, and nothing after '=' for a null value. */
  function QueryPair(p: Property, v: Value, toString: Value -> string, urlEncode: string -> string): string {
    p.name + "=" + (if v.Null? then "" else urlEncode(toString(v)))
  }

  function QueryPairs(properties: seq<Property>, values: seq<Value>, toString: Value -> string,
                      urlEncode: string -> string): (r: seq<string>)
    requires |values| == |properties|
    ensures |r| == |properties|
  {
    seq(|properties|, i requires 0 <= i < |properties| => QueryPair(properties[i], values[i], toString, urlEncode))
  }

  /** `ToQueryString(obj)`: the pairs of all properties, in order, joined
      with '&'. */
  function ToQueryString(obj: Obj, toString: Value -> string, urlEncode: string -> string): (r: string)
    requires obj.Valid()
    reads obj
    ensures obj.properties == [] <==> r == ""
    ensures obj.properties != [] ==> StartsWith(r, obj.properties[0].name + "=")
  {
    var pairs := QueryPairs(obj.properties, obj.values, toString, urlEncode);
    if pairs == [] then "" else
      var head := obj.properties[0].name + "=";
      JoinStartsWithFirst("&", pairs);
      assert pairs[0][..|head|] == head;
      assert Join("&", pairs)[..|head|] == pairs[0][..|head|];
      Join("&", pairs)
  }

  /** When no property name contains '&' and the encoder never produces one,
      splitting the query string at '&' gives back one "name=value" pair per
      property, in order: the name, '=', then the encoded text of the value,
      or nothing for a null value. */
  lemma QueryStringSplits(obj: Obj, toString: Value -> string, urlEncode: string -> string)
    requires obj.Valid() && |obj.properties| > 0
    requires forall i :: 0 <= i < |obj.properties| ==> '&' !in obj.properties[i].name
    requires forall s :: '&' !in urlEncode(s)
    ensures Split(ToQueryString(obj, toString, urlEncode), '&')
            == QueryPairs(obj.properties, obj.values, toString, urlEncode)
    ensures var pairs := Split(ToQueryString(obj, toString, urlEncode), '&');
            && |pairs| == |obj.properties|
            && forall i :: 0 <= i < |pairs| ==>
                 StartsWith(pairs[i], obj.properties[i].name + "=")
                 && (obj.values[i].Null? ==> pairs[i] == obj.properties[i].name + "=")
                 && (!obj.values[i].Null? ==>
                       pairs[i] == obj.properties[i].name + "=" + urlEncode(toString(obj.values[i])))
  {
    var pairs := QueryPairs(obj.properties, obj.values, toString, urlEncode);
    forall i | 0 <= i < |pairs|
      ensures '&' !in pairs[i]
    {
      var v := obj.values[i];
      var tail := if v.Null? then "" else urlEncode(toString(v));
      assert '&' !in tail;
      assert pairs[i] == obj.properties[i].name + "=" + tail;
    }
    SplitJoin(pairs, '&');
    assert "&" == ['&'];
  }

  // ---------------------------------------------------------------------------
  // ObjectComare
  // ---------------------------------------------------------------------------

  /** One changed property. */
  datatype PropertyUpdate = PropertyUpdate(propertyName: string, valueBeforeUpdate: Value, valueAfterUpdate: Value)

  /** The change test: not the same reference, and either the old value is
      null or it does not `Equals` the new one. Two nulls are the same. */
  predicate Differs(before: Value, after: Value) {
    before != after && (before.Null? || before != after)
  }

  predicate IsChange(u: PropertyUpdate) {
    Differs(u.valueBeforeUpdate, u.valueAfterUpdate)
  }

  /** Every property paired with its two values, in declaration order. */
  function Candidates(properties: seq<Property>, before: seq<Value>, after: seq<Value>): (r: seq<PropertyUpdate>)
    requires |before| == |properties| && |after| == |properties|
    ensures |r| == |properties|
  {
    seq(|properties|, i requires 0 <= i < |properties| => PropertyUpdate(properties[i].name, before[i], after[i]))
  }

  /** The list `PropertyUpdates` holds: the candidates that changed. */
  function Diff(properties: seq<Property>, before: seq<Value>, after: seq<Value>): seq<PropertyUpdate>
    requires |before| == |properties| && |after| == |properties|
  {
    Filter(Candidates(properties, before, after), IsChange)
  }

  /** `ObjectComare(objectBeforeUpdate, objectAfterUpdate)`; both objects
      are of the type whose properties are listed. */
  class ObjectComare {
    var objectBeforeUpdate: Obj
    var objectTypeName: string
    var propertyUpdates: seq<PropertyUpdate>

    constructor(objectBeforeUpdate: Obj, objectAfterUpdate: Obj)
      requires objectBeforeUpdate.Valid() && objectAfterUpdate.Valid()
      requires objectAfterUpdate.properties == objectBeforeUpdate.properties
      ensures this.objectBeforeUpdate == objectBeforeUpdate
      ensures objectTypeName == objectBeforeUpdate.typeName
      ensures propertyUpdates == Diff(objectBeforeUpdate.properties, objectBeforeUpdate.values, objectAfterUpdate.values)
    {
      var properties := objectBeforeUpdate.properties;
      var before, after := objectBeforeUpdate.values, objectAfterUpdate.values;
      ghost var all := Candidates(properties, before, after);
      var updates: seq<PropertyUpdate> := [];
      var i := 0;
      while i < |properties|
        invariant 0 <= i <= |properties|
        invariant updates == Filter(all[..i], IsChange)
      {
        var valueBeforeUpdate := before[i];
        var valueAfterUpdate := after[i];
        assert all[..i + 1] == all[..i] + [all[i]];
        FilterConcat(all[..i], [all[i]], IsChange);
        assert Filter([all[i]], IsChange) == Filter([], IsChange) + (if IsChange(all[i]) then [all[i]] else []);
        if valueBeforeUpdate != valueAfterUpdate && (valueBeforeUpdate.Null? || valueBeforeUpdate != valueAfterUpdate) {
          updates := updates + [PropertyUpdate(properties[i].name, valueBeforeUpdate, valueAfterUpdate)];
        }
        i := i + 1;
      }
      assert all[..i] == all;
      this.objectBeforeUpdate := objectBeforeUpdate;
      objectTypeName := objectBeforeUpdate.typeName;
      propertyUpdates := updates;
    }
  }

  /** `CompareTo(objBeforeUpdate, objAfterUpdate)`. */
  method CompareTo(objBeforeUpdate: Obj, objAfterUpdate: Obj) returns (r: ObjectComare)
    requires objBeforeUpdate.Valid() && objAfterUpdate.Valid()
    requires objAfterUpdate.properties == objBeforeUpdate.properties
    ensures fresh(r)
    ensures r.objectTypeName == objBeforeUpdate.typeName
    ensures r.propertyUpdates == Diff(objBeforeUpdate.properties, objBeforeUpdate.values, objAfterUpdate.values)
  {
    r := new ObjectComare(objBeforeUpdate, objAfterUpdate);
  }

  /** An update is listed exactly when some property changed from its before
      value to its after value, and it carries that property's name and both
      values; each changed property is listed once per occurrence. */
  lemma DiffMembership(properties: seq<Property>, before: seq<Value>, after: seq<Value>, u: PropertyUpdate)
    requires |before| == |properties| && |after| == |properties|
    ensures u in Diff(properties, before, after) <==>
              exists i :: 0 <= i < |properties| && before[i] != after[i]
                          && u == PropertyUpdate(properties[i].name, before[i], after[i])
    ensures multiset(Diff(properties, before, after))[u] ==
              if IsChange(u) then multiset(Candidates(properties, before, after))[u] else 0
  {
    var all := Candidates(properties, before, after);
    FilterMembership(all, IsChange, u);
    FilterMultiplicity(all, IsChange, u);
    if u in Diff(properties, before, after) {
      var i :| 0 <= i < |all| && all[i] == u;
    }
    if exists i :: 0 <= i < |properties| && before[i] != after[i]
                   && u == PropertyUpdate(properties[i].name, before[i], after[i]) {
      var i :| 0 <= i < |properties| && before[i] != after[i]
               && u == PropertyUpdate(properties[i].name, before[i], after[i]);
      assert all[i] == u;
    }
  }

  /** Comparing an object with an identical snapshot lists no update. */
  lemma DiffOfIdentical(properties: seq<Property>, values: seq<Value>)
    requires |values| == |properties|
    ensures Diff(properties, values, values) == []
  {
    var d := Diff(properties, values, values);
    if d != [] {
      DiffMembership(properties, values, values, d[0]);
      assert false;
    }
  }

  /** Trimming an object leaves updates only on the string properties it
      actually trimmed, and each such update goes from the old text to its
      trimmed form. */
  lemma TrimDiff(properties: seq<Property>, values: seq<Value>, u: PropertyUpdate)
    requires |values| == |properties|
    requires u in Diff(properties, values, TrimmedValues(properties, values))
    ensures u.valueBeforeUpdate.Str? && u.valueAfterUpdate == Str(Trim(u.valueBeforeUpdate.s))
    ensures u.valueBeforeUpdate.s != Trim(u.valueBeforeUpdate.s)
  {
    DiffMembership(properties, values, TrimmedValues(properties, values), u);
  }
}

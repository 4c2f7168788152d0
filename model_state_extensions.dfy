/** ModelStateExtensions.cs: flattening an MVC `ModelStateDictionary` into a
    list of items with their error messages. The dictionary is its entries in
    enumeration order. */
module ModelStateExtensions {
  import opened Wrappers
  import opened Text

  datatype ModelValidationState = Unvalidated | Invalid | Valid | Skipped

  /** A `ModelError`: its message, and the message of its exception, or
      `None` when it has no exception. */
  datatype ModelError = ModelError(errorMessage: Option<string>, exception: Option<string>)

  /** One dictionary entry: key, validation state, attempted value, errors. */
  datatype Entry = Entry(key: string, validationState: ModelValidationState, attemptedValue: Option<string>,
                         errors: Option<seq<ModelError>>)

  /** A `ModelStateItem`. */
  datatype ModelStateItem = ModelStateItem(itemName: string, modelValidationState: ModelValidationState,
                                           attemptedValue: Option<string>, errorMessages: seq<string>)
  {
    /** `IsInvalid`. */
    predicate IsInvalid() {
      modelValidationState == Invalid
    }
  }

  /** The message reported for one error: its own message unless that is
      null or empty, else its exception's message; reading the message of a
      missing exception throws `NullReferenceException`. */
  function Message(e: ModelError): (r: Result<string>)
    ensures !IsNullOrEmpty(e.errorMessage) ==> r == Ok(e.errorMessage.value)
    ensures IsNullOrEmpty(e.errorMessage) && e.exception.Some? ==> r == Ok(e.exception.value)
    ensures r.Err? <==> IsNullOrEmpty(e.errorMessage) && e.exception.None?
  {
    if IsNullOrEmpty(e.errorMessage) then
      match e.exception
      case None => Err(NullReference)
      case Some(m) => Ok(m)
    else Ok(e.errorMessage.value)
  }

  /** The messages of a list of errors, one each, in order. */
  function Messages(errors: seq<ModelError>): (r: Result<seq<string>>)
    ensures r.Ok? <==> forall i :: 0 <= i < |errors| ==> Message(errors[i]).Ok?
    ensures r.Ok? ==> |r.value| == |errors| && forall i :: 0 <= i < |errors| ==> r.value[i] == Message(errors[i]).value
    ensures r.Err? ==> r.error == NullReference
    decreases |errors|
  {
    if errors == [] then Ok([])
    else
      match Messages(errors[..|errors| - 1])
      case Err(e) => Err(e)
      case Ok(init) =>
        match Message(errors[|errors| - 1])
        case Err(e) => Err(e)
        case Ok(m) => Ok(init + [m])
  }

  /** The item for one entry: its key, state and attempted value, and one
      message per error (none for a null or empty error collection). */
  function ItemOf(entry: Entry): (r: Result<ModelStateItem>)
    ensures r.Ok? ==> r.value.itemName == entry.key && r.value.modelValidationState == entry.validationState
                      && r.value.attemptedValue == entry.attemptedValue
    ensures r.Err? ==> r.error == NullReference
  {
    var errors := entry.errors.GetOr([]);
    match Messages(errors)
    case Err(e) => Err(e)
    case Ok(messages) => Ok(ModelStateItem(entry.key, entry.validationState, entry.attemptedValue, messages))
  }

  /** The items of a list of entries, in order. */
  function ItemsOf(entries: seq<Entry>): (r: Result<seq<ModelStateItem>>)
    ensures r.Ok? <==> forall i :: 0 <= i < |entries| ==> ItemOf(entries[i]).Ok?
    ensures r.Ok? ==> |r.value| == |entries| && forall i :: 0 <= i < |entries| ==> r.value[i] == ItemOf(entries[i]).value
    ensures r.Err? ==> r.error == NullReference
    decreases |entries|
  {
    if entries == [] then Ok([])
    else
      match ItemsOf(entries[..|entries| - 1])
      case Err(e) => Err(e)
      case Ok(init) =>
        match ItemOf(entries[|entries| - 1])
        case Err(e) => Err(e)
        case Ok(item) => Ok(init + [item])
  }

  /** Whether an entry is reported: all of them, or only the invalid ones
      when `errorsOnly`. */
  predicate Selected(errorsOnly: bool, entry: Entry) {
    !errorsOnly || entry.validationState == Invalid
  }

  function Selection(errorsOnly: bool): Entry -> bool {
    e => Selected(errorsOnly, e)
  }

  /** What `GetModelStateItems` returns. */
  function ModelStateItems(modelState: Option<seq<Entry>>, errorsOnly: bool): Result<seq<ModelStateItem>> {
    match modelState
    case None => Ok([])
    case Some(entries) => ItemsOf(Filter(entries, Selection(errorsOnly)))
  }

  /** `GetModelStateItems(modelState, errorsOnly)`: a null dictionary gives an
      empty list; otherwise each entry, skipped when `errorsOnly` and not
      invalid, becomes an item whose messages the inner loop collects. */
  method GetModelStateItems(modelState: Option<seq<Entry>>, errorsOnly: bool)
    returns (r: Result<seq<ModelStateItem>>)
    ensures r == ModelStateItems(modelState, errorsOnly)
  {
    var modelStateItems: seq<ModelStateItem> := [];
    if modelState.None? {
      return Ok(modelStateItems);
    }
    var entries := modelState.value;
    ghost var keep := Selection(errorsOnly);
    var k := 0;
    while k < |entries|
      invariant 0 <= k <= |entries|
      invariant ItemsOf(Filter(entries[..k], keep)) == Ok(modelStateItems)
    {
      var item := entries[k];
      FilterPrefixStep(entries, keep, k);
      if item.validationState != Invalid && errorsOnly {
        assert !keep(item);
        assert Filter(entries[..k + 1], keep) == Filter(entries[..k], keep);
        k := k + 1;
        continue;
      }
      assert keep(item);
      var modelStateItem := GetModelStateItem(item);
      if modelStateItem.Err? {
        ItemFailsAll(entries, keep, k);
        return Err(NullReference);
      }
      ItemsOfSnoc(Filter(entries[..k], keep), item, modelStateItems, modelStateItem.value);
      modelStateItems := modelStateItems + [modelStateItem.value];
      k := k + 1;
    }
    assert entries[..k] == entries;
    return Ok(modelStateItems);
  }

  /** The body of the outer loop for a reported entry: its messages, then the
      item. */
  method GetModelStateItem(item: Entry) returns (r: Result<ModelStateItem>)
    ensures r == ItemOf(item)
  {
    var errorMessages: seq<string> := [];
    if item.errors.Some? && |item.errors.value| > 0 {
      var messages := CollectMessages(item.errors.value);
      if messages.Err? {
        return Err(NullReference);
      }
      errorMessages := messages.value;
    }
    return Ok(ModelStateItem(item.key, item.validationState, item.attemptedValue, errorMessages));
  }

  lemma ItemsOfSnoc(entries: seq<Entry>, entry: Entry, items: seq<ModelStateItem>, item: ModelStateItem)
    requires ItemsOf(entries) == Ok(items) && ItemOf(entry) == Ok(item)
    ensures ItemsOf(entries + [entry]) == Ok(items + [item])
  {
    assert (entries + [entry])[..|entries|] == entries;
  }

  /** The inner loop: one message per error, in order. */
  method CollectMessages(errors: seq<ModelError>) returns (r: Result<seq<string>>)
    ensures r == Messages(errors)
  {
    var errorMessages: seq<string> := [];
    var i := 0;
    while i < |errors|
      invariant 0 <= i <= |errors|
      invariant Messages(errors[..i]) == Ok(errorMessages)
    {
      assert errors[..i + 1][..i] == errors[..i];
      var errorMessage: string;
      if IsNullOrEmpty(errors[i].errorMessage) {
        if errors[i].exception.None? {
          return Err(NullReference);
        }
        errorMessage := errors[i].exception.value;
      } else {
        errorMessage := errors[i].errorMessage.value;
      }
      errorMessages := errorMessages + [errorMessage];
      i := i + 1;
    }
    assert errors[..i] == errors;
    return Ok(errorMessages);
  }

  /** An entry that cannot be reported, among the selected ones, makes the
      whole call throw. */
  lemma ItemFailsAll(entries: seq<Entry>, keep: Entry -> bool, k: nat)
    requires k < |entries| && keep(entries[k]) && ItemOf(entries[k]).Err?
    ensures ItemsOf(Filter(entries, keep)) == Err(NullReference)
  {
    var filtered := Filter(entries, keep);
    FilterMembership(entries, keep, entries[k]);
    var j :| 0 <= j < |filtered| && filtered[j] == entries[k];
    assert ItemOf(filtered[j]).Err?;
  }

  /** A null dictionary gives no items; with `errorsOnly` every item is
      invalid; without it there is one item per entry. Each item carries its
      entry's key and one message per error, and items keep the entries'
      order since they are the selected entries mapped one by one. */
  lemma ModelStateItemsProperties(entries: seq<Entry>, errorsOnly: bool)
    ensures ModelStateItems(None, errorsOnly) == Ok([])
    ensures var r := ModelStateItems(Some(entries), errorsOnly);
            r.Ok? ==>
              && (errorsOnly ==> forall i :: 0 <= i < |r.value| ==> r.value[i].IsInvalid())
              && (!errorsOnly ==>
                    (|r.value| == |entries| &&
                     forall i :: 0 <= i < |entries| ==>
                       r.value[i].itemName == entries[i].key
                       && |r.value[i].errorMessages| == |entries[i].errors.GetOr([])|))
  {
    var keep := Selection(errorsOnly);
    if !errorsOnly {
      FilterAllKept(entries, keep);
    }
  }

  /** `ErrorMessagesToString(errorSeparator)`: the messages joined with the
      separator (a null separator counts as empty); no messages give "". */
  function ErrorMessagesToString(item: ModelStateItem, errorSeparator: Option<string>): (r: string)
    ensures item.errorMessages == [] ==> r == ""
    ensures |item.errorMessages| == 1 ==> r == item.errorMessages[0]
  {
    Join(errorSeparator.GetOr(""), item.errorMessages)
  }

  /** The joined text holds every message and one separator between each
      pair, and starts with the first message. */
  lemma ErrorMessagesToStringShape(item: ModelStateItem, errorSeparator: string)
    requires item.errorMessages != []
    ensures |ErrorMessagesToString(item, Some(errorSeparator))|
            == |Flatten(item.errorMessages)| + (|item.errorMessages| - 1) * |errorSeparator|
    ensures StartsWith(ErrorMessagesToString(item, Some(errorSeparator)), item.errorMessages[0])
  {
    JoinLength(errorSeparator, item.errorMessages);
    JoinStartsWithFirst(errorSeparator, item.errorMessages);
  }
}

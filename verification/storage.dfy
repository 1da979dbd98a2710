/** The persistence side of the widget: `localStorage` as a map from keys to
    strings, the validation `loadFromStorage` applies to the two stored
    counters, and the three writes of `saveToStorage`. */
module Storage {

  import opened Options
  import opened JsString

  /** The contents of `localStorage`. */
  type Store = map<string, string>

  const NotesKey := "notes-app-notes"
  const CreateCountKey := "notes-app-create-count"
  const DeleteCountKey := "notes-app-delete-count"

  /** Storage as the widget finds it: either touching it throws (storage
      disabled, a security error) or reads succeed against a store. */
  datatype Access = Unavailable | Available(store: Store)

  /** `getItem`: `None` stands for the `null` of a key never written. */
  function GetItem(store: Store, key: string): Option<string> {
    if key in store then Some(store[key]) else None
  }

  /** One counter as `loadFromStorage` restores it: an absent or empty
      value is 0 without parsing; otherwise the value is parsed, and NaN or
      a negative number becomes 0. */
  function LoadCounter(saved: Option<string>): (r: nat)
    ensures saved == None || saved == Some("") ==> r == 0
    ensures saved.Some? && saved.value != "" ==>
      var parsed := ParseInt(saved.value);
      && (parsed.None? ==> r == 0)
      && (parsed.Some? && parsed.value < 0 ==> r == 0)
      && (parsed.Some? && parsed.value >= 0 ==> r == parsed.value)
  {
    var parsed := if saved.Some? && saved.value != "" then ParseInt(saved.value) else Some(0);
    if parsed.None? || parsed.value < 0 then 0 else parsed.value
  }

  /** Both counters as `loadFromStorage` restores them, create count first.
      When storage cannot be read at all, both are 0. */
  function LoadCounters(access: Access): (r: (nat, nat))
    ensures access.Unavailable? ==> r == (0, 0)
    ensures access.Available? ==>
      && r.0 == LoadCounter(GetItem(access.store, CreateCountKey))
      && r.1 == LoadCounter(GetItem(access.store, DeleteCountKey))
  {
    match access
    case Unavailable => (0, 0)
    case Available(store) =>
      (LoadCounter(GetItem(store, CreateCountKey)), LoadCounter(GetItem(store, DeleteCountKey)))
  }

  /** The store after `saveToStorage`, and whether the user was shown the
      failure banner. */
  datatype SaveResult = SaveResult(store: Store, failed: bool)

  /** `saveToStorage`: writes the create counter, the delete counter and the
      notes markup, in that order. `failAt` is how many of these writes the
      browser accepts before one throws (a quota error); 3 or more means all
      succeed. The write that throws stores nothing, the ones before it
      stay, the ones after it are not attempted, and the failure is reported. */
  function SaveToStorage(store: Store, createCount: nat, deleteCount: nat, notesHtml: string, failAt: nat): (r: SaveResult)
    ensures r.failed <==> failAt < 3
    ensures forall key :: key != CreateCountKey && key != DeleteCountKey && key != NotesKey ==>
      GetItem(r.store, key) == GetItem(store, key)
    ensures GetItem(r.store, CreateCountKey) ==
      if failAt >= 1 then Some(NatToString(createCount)) else GetItem(store, CreateCountKey)
    ensures GetItem(r.store, DeleteCountKey) ==
      if failAt >= 2 then Some(NatToString(deleteCount)) else GetItem(store, DeleteCountKey)
    ensures GetItem(r.store, NotesKey) ==
      if failAt >= 3 then Some(notesHtml) else GetItem(store, NotesKey)
  {
    var s1 := if failAt >= 1 then store[CreateCountKey := NatToString(createCount)] else store;
    var s2 := if failAt >= 2 then s1[DeleteCountKey := NatToString(deleteCount)] else s1;
    var s3 := if failAt >= 3 then s2[NotesKey := notesHtml] else s2;
    SaveResult(s3, failAt < 3)
  }

  /** Saving a counter as decimal text and loading it back gives the same
      counter. */
  lemma LoadCounterOfSaved(n: nat)
    ensures LoadCounter(Some(NatToString(n))) == n
  {
    ParseIntOfNatToString(n);
  }

  /** Once both counter writes went through, loading restores exactly the
      counters that were saved, whatever the store held before. */
  lemma SaveLoadCounters(store: Store, createCount: nat, deleteCount: nat, notesHtml: string, failAt: nat)
    requires failAt >= 2
    ensures LoadCounters(Available(SaveToStorage(store, createCount, deleteCount, notesHtml, failAt).store))
      == (createCount, deleteCount)
  {
    LoadCounterOfSaved(createCount);
    LoadCounterOfSaved(deleteCount);
  }

  /** Counter text `toString` never writes still loads by `parseInt`'s
      rules: leading zeros and a `+` sign are accepted. */
  lemma LenientCountersLoad()
    ensures LoadCounter(Some("007")) == 7
    ensures LoadCounter(Some("+12")) == 12
  {
    LeadingZerosLoad();
    PlusSignLoads();
  }

  lemma LeadingZerosLoad()
    ensures LoadCounter(Some("007")) == 7
  {
    assert DigitsValue("007") == 7 by {
      assert "007"[..2] == "00" && "00"[..1] == "0" && "0"[..0] == "";
    }
    ParseIntOfDigits("", "007", "");
    assert "" + "007" + "" == "007";
  }

  lemma PlusSignLoads()
    ensures LoadCounter(Some("+12")) == 12
  {
    assert DigitsValue("12") == 12 by {
      assert "12"[..1] == "1" && "1"[..0] == "";
    }
    ParseIntOfDigits("+", "12", "");
    assert "+" + "12" + "" == "+12";
  }

  /** The malformed counters the widget must survive: a negative number and
      text that is not a number both load as 0, and so does `-0`. */
  lemma MalformedCountersLoadAsZero()
    ensures LoadCounter(Some("-5")) == 0
    ensures LoadCounter(Some("abc")) == 0
    ensures LoadCounter(Some("-0")) == 0
  {
    ParseIntOfNegated(5);
    assert "-5" == "-" + NatToString(5);
    ParseIntOfNegated(0);
    assert "-0" == "-" + NatToString(0);
    assert SkipWhitespace("abc", 0) == 0;
    assert SignLength("abc") == 0;
  }

}

/** The `NotesApp` controller with the DOM abstracted away: the container
    is a sequence of notes, `confirm()` answers are boolean parameters, and
    every operation is a pure transition between session states. */
module NotesApp {

  import opened Options
  import opened JsString
  import opened Storage
  import opened Notes

  /** The session: the notes in container order and the two counters. */
  datatype App = App(notes: seq<Note>, createCount: nat, deleteCount: nat)

  const Fresh := App([], 0, 0)

  /** `createNote`: counts one more creation and appends one new, empty,
      editable note labelled with the new count. */
  function CreateNote(app: App): (r: App)
    ensures r.createCount == app.createCount + 1
    ensures r.deleteCount == app.deleteCount
    ensures |r.notes| == |app.notes| + 1 && r.notes[..|app.notes|] == app.notes
    ensures var n := r.notes[|app.notes|];
      && n.text == ""
      && n.content == Some(ContentArea("", Some("true"), Some(Placeholder)))
      && n.role == Some("textbox")
      && n.ariaLabel == Some(NoteLabel(r.createCount))
      && n.tabindex == Some("0")
  {
    var count := app.createCount + 1;
    App(app.notes + [NewNote(count)], count, app.deleteCount)
  }

  /** The container without the note at `target`. */
  function RemoveAt(ns: seq<Note>, target: nat): (r: seq<Note>)
    requires target < |ns|
    ensures |r| == |ns| - 1
    ensures forall j :: 0 <= j < target ==> r[j] == ns[j]
    ensures forall j :: target <= j < |r| ==> r[j] == ns[j + 1]
  {
    ns[..target] + ns[target + 1..]
  }

  /** Whether `deleteNote` asks for confirmation: the trimmed text of the
      whole note element is not empty. */
  predicate NeedsConfirmation(n: Note) {
    Trim(n.text) != ""
  }

  /** `deleteNote` on the note at `target`, with `confirmed` the user's
      answer should the widget ask. A target outside the container is
      ignored; a note with some non-whitespace text is only deleted once
      confirmed. A deletion counts one more deletion, takes one off the
      create count (never below 0) and removes exactly that note. The
      source changes the counters at once and removes the note 300 ms
      later; here both happen in one step. */
  function DeleteNote(app: App, target: int, confirmed: bool): (r: App)
    ensures !(0 <= target < |app.notes|) ==> r == app
    ensures 0 <= target < |app.notes| && !AllWhitespace(app.notes[target].text) && !confirmed ==> r == app
    ensures 0 <= target < |app.notes| && (AllWhitespace(app.notes[target].text) || confirmed) ==>
      && r.deleteCount == app.deleteCount + 1
      && r.createCount == (if app.createCount == 0 then 0 else app.createCount - 1)
      && |r.notes| == |app.notes| - 1
      && (forall j :: 0 <= j < target ==> r.notes[j] == app.notes[j])
      && (forall j :: target <= j < |r.notes| ==> r.notes[j] == app.notes[j + 1])
  {
    if !(0 <= target < |app.notes|) then app
    else if NeedsConfirmation(app.notes[target]) && !confirmed then app
    else
      var count: int := app.createCount - 1;
      App(RemoveAt(app.notes, target), if count < 0 then 0 else count, app.deleteCount + 1)
  }

  /** `clearAllNotes`: once confirmed, no notes and both counters back to
      0; otherwise nothing changes. */
  function ClearAllNotes(app: App, confirmed: bool): (r: App)
    ensures confirmed ==> r.notes == [] && r.createCount == 0 && r.deleteCount == 0
    ensures !confirmed ==> r == app
  {
    if confirmed then Fresh else app
  }

  /** The data `exportNotes` serialises, without the export timestamp. */
  datatype Export = Export(notes: seq<string>, createCount: nat, deleteCount: nat)

  /** `exportNotes`: the trimmed content-area texts in container order,
      empty ones and notes without a content area left out, and both
      counters as they are. */
  method ExportNotes(app: App) returns (e: Export)
    ensures e.notes == ExportedTexts(app.notes)
    ensures forall k :: 0 <= k < |e.notes| ==> e.notes[k] != ""
    ensures e.createCount == app.createCount && e.deleteCount == app.deleteCount
  {
    var texts: seq<string> := [];
    ghost var all := ContentTexts(app.notes);
    for i := 0 to |app.notes|
      invariant texts == NonEmpty(all[..i])
    {
      var t := ContentText(app.notes[i]);
      assert all[..i + 1][..i] == all[..i];
      if t != "" {
        texts := texts + [t];
      }
    }
    assert all[..|app.notes|] == all;
    e := Export(texts, app.createCount, app.deleteCount);
  }

  /** The notes `renderNotes` leaves in the container: when storage holds
      a non-empty notes blob, the notes the browser parses from it, with
      their missing attributes backfilled; otherwise (no blob, an empty
      one, or storage that cannot be read) the container as it was. */
  function RenderNotes(current: seq<Note>, access: Access, parse: string -> seq<Note>): (r: seq<Note>)
    ensures access.Unavailable? ==> r == current
    ensures access.Available? && GetItem(access.store, NotesKey) in {None, Some("")} ==> r == current
    ensures access.Available? && NotesKey in access.store && access.store[NotesKey] != "" ==>
      var restored := parse(access.store[NotesKey]);
      && |r| == |restored|
      && (forall i :: 0 <= i < |r| ==> r[i].text == restored[i].text && Interactive(r[i]))
      && ExportedTexts(r) == ExportedTexts(restored)
      && r == Backfill(restored)
  {
    match access
    case Unavailable => current
    case Available(store) =>
      match GetItem(store, NotesKey)
      case Some(html) =>
        if html != "" then
          BackfillKeepsExport(parse(html));
          Backfill(parse(html))
        else current
      case None => current
  }

  /** The session `init` starts: counters from `loadFromStorage`, notes
      from `renderNotes` into the initially empty container. */
  function Init(access: Access, parse: string -> seq<Note>): (r: App)
    ensures (r.createCount, r.deleteCount) == LoadCounters(access)
    ensures r.notes == RenderNotes([], access, parse)
    ensures forall i :: 0 <= i < |r.notes| ==> Interactive(r.notes[i])
    ensures access.Unavailable? ==> r == Fresh
    ensures access.Available? ==>
      (NotesKey !in access.store && CreateCountKey !in access.store && DeleteCountKey !in access.store ==> r == Fresh)
  {
    var (created, deleted) := LoadCounters(access);
    App(RenderNotes([], access, parse), created, deleted)
  }

  /** Every note of the session has its `role` and, where it has a content
      area, its `contenteditable` attribute. */
  predicate AllInteractive(app: App) {
    forall i :: 0 <= i < |app.notes| ==> Interactive(app.notes[i])
  }

  /** Saving a session and starting a new one from the saved store gives
      back the same counters and notes, provided every write went through
      and the browser parses the saved markup back into the same notes
      (an empty container saves as empty markup). */
  lemma SaveThenInitRestores(app: App, store: Store, html: string, parse: string -> seq<Note>, failAt: nat)
    requires failAt >= 3
    requires parse(html) == app.notes
    requires html == "" ==> app.notes == []
    requires AllInteractive(app)
    ensures Init(Available(SaveToStorage(store, app.createCount, app.deleteCount, html, failAt).store), parse) == app
  {
    var saved := SaveToStorage(store, app.createCount, app.deleteCount, html, failAt).store;
    SaveLoadCounters(store, app.createCount, app.deleteCount, html, failAt);
    BackfillKeepsInteractive(app.notes);
    assert GetItem(saved, NotesKey) == Some(html);
  }

  /** The same round trip when the browser's parse of the saved markup only
      keeps the notes' content texts (attributes may come back missing or
      different): the restored session exports the same texts and has the
      same counters. */
  lemma SaveThenInitKeepsExport(app: App, store: Store, html: string, parse: string -> seq<Note>, failAt: nat)
    requires failAt >= 3
    requires |parse(html)| == |app.notes|
    requires forall i :: 0 <= i < |app.notes| ==> ContentText(parse(html)[i]) == ContentText(app.notes[i])
    requires html == "" ==> app.notes == []
    ensures var r := Init(Available(SaveToStorage(store, app.createCount, app.deleteCount, html, failAt).store), parse);
      && r.createCount == app.createCount && r.deleteCount == app.deleteCount
      && ExportedTexts(r.notes) == ExportedTexts(app.notes)
  {
    var saved := SaveToStorage(store, app.createCount, app.deleteCount, html, failAt).store;
    SaveLoadCounters(store, app.createCount, app.deleteCount, html, failAt);
    assert GetItem(saved, NotesKey) == Some(html);
    assert ContentTexts(parse(html)) == ContentTexts(app.notes);
  }

  /** `deleteNote` asks for confirmation exactly when the note has some
      text that is not whitespace; for a blank note the answer is never
      consulted. */
  lemma BlankNoteNeedsNoConfirmation(app: App, target: int)
    requires 0 <= target < |app.notes|
    ensures NeedsConfirmation(app.notes[target]) <==> !AllWhitespace(app.notes[target].text)
    ensures AllWhitespace(app.notes[target].text) ==> DeleteNote(app, target, false) == DeleteNote(app, target, true)
  {
  }

  /** The deleted note, put back where it was, restores the container:
      the remaining notes keep their relative order. */
  lemma DeleteKeepsOrder(app: App, target: int, confirmed: bool)
    requires 0 <= target < |app.notes|
    requires !NeedsConfirmation(app.notes[target]) || confirmed
    ensures var r := DeleteNote(app, target, confirmed);
      && r.notes[..target] + [app.notes[target]] + r.notes[target..] == app.notes
      && multiset(r.notes) + multiset{app.notes[target]} == multiset(app.notes)
  {
    var ns := app.notes;
    var r := DeleteNote(app, target, confirmed);
    assert r.notes[..target] == ns[..target];
    assert r.notes[target..] == ns[target + 1..];
    assert ns == ns[..target] + [ns[target]] + ns[target + 1..];
  }

  /** Deleting the note just created undoes the creation, apart from the
      deletion being counted. This holds while the note still shows its
      delete image: see `FallbackNoteAsks` for the note whose image failed
      to load. */
  lemma DeleteUndoesCreate(app: App, confirmed: bool)
    ensures DeleteNote(CreateNote(app), |app.notes|, confirmed)
      == app.(deleteCount := app.deleteCount + 1)
  {
    var c := CreateNote(app);
    assert AllWhitespace(c.notes[|app.notes|].text);
    assert RemoveAt(c.notes, |app.notes|) == app.notes;
  }

  /** A just-created note whose delete image failed to load carries the
      "×" of the text button in its text, so deleting it asks first: a
      refusal deletes nothing, and only a confirmation undoes the
      creation. */
  lemma FallbackNoteAsks(app: App, confirmed: bool)
    ensures var c := CreateNote(app);
      var f := c.(notes := c.notes[|app.notes| := WithTextButton(c.notes[|app.notes|])]);
      && NeedsConfirmation(f.notes[|app.notes|])
      && DeleteNote(f, |app.notes|, confirmed)
         == if confirmed then app.(deleteCount := app.deleteCount + 1) else f
  {
    var c := CreateNote(app);
    var n := WithTextButton(c.notes[|app.notes|]);
    var f := c.(notes := c.notes[|app.notes| := n]);
    assert n.text == "×";
    assert !IsWhitespace(n.text[0]);
    assert RemoveAt(f.notes, |app.notes|) == app.notes;
  }

  /** Every note's content area lies inside its text, as in any DOM. */
  predicate AllNested(app: App) {
    forall i :: 0 <= i < |app.notes| ==> Nested(app.notes[i])
  }

  /** In a session built as the DOM builds it, deleting a note whose
      content area has some non-whitespace text asks for confirmation, and
      a refusal leaves the session as it was. */
  lemma NonBlankContentNeedsConfirmation(app: App, target: int)
    requires AllNested(app)
    requires 0 <= target < |app.notes| && ContentText(app.notes[target]) != ""
    ensures NeedsConfirmation(app.notes[target])
    ensures DeleteNote(app, target, false) == app
  {
    NonBlankContentInText(app.notes[target]);
  }

  /** A new session whose parsed notes have their content inside their
      text keeps that after the backfill. */
  lemma InitKeepsNested(access: Access, parse: string -> seq<Note>)
    requires forall html: string :: forall i :: 0 <= i < |parse(html)| ==> Nested(parse(html)[i])
    ensures AllNested(Init(access, parse))
  {
    if access.Available? && NotesKey in access.store && access.store[NotesKey] != "" {
      BackfillKeepsNested(parse(access.store[NotesKey]));
    }
  }

  /** A new note is blank, so creating one does not change the export. */
  lemma CreateKeepsExport(app: App)
    ensures ExportedTexts(CreateNote(app).notes) == ExportedTexts(app.notes)
  {
    var n := NewNote(app.createCount + 1);
    ExportedTextsAppend(app.notes, [n]);
    assert ContentTexts([n]) == [""];
    assert NonEmpty([""]) == NonEmpty([]) + [];
  }

  /** A user action on the session. */
  datatype Action = Create | Delete(target: int, confirmed: bool) | ClearAll(confirmed: bool)

  function Step(app: App, a: Action): App {
    match a
    case Create => CreateNote(app)
    case Delete(target, confirmed) => DeleteNote(app, target, confirmed)
    case ClearAll(confirmed) => ClearAllNotes(app, confirmed)
  }

  /** The session after the actions, in order. */
  function Run(app: App, actions: seq<Action>): App
    decreases |actions|
  {
    if actions == [] then app else Run(Step(app, actions[0]), actions[1..])
  }

  /** Whether the action ends with `saveToStorage`: a creation always does,
      a deletion only when it goes ahead, clearing only once confirmed. The
      early returns of `deleteNote` and an unconfirmed `clearAllNotes` save
      nothing. */
  predicate Saves(app: App, a: Action) {
    match a
    case Create => true
    case Delete(target, confirmed) =>
      0 <= target < |app.notes| && (!NeedsConfirmation(app.notes[target]) || confirmed)
    case ClearAll(confirmed) => confirmed
  }

  /** An action followed by the save it ends with. `html` is the markup of
      the container after the action and `failAt` describes the writes, as
      for `SaveToStorage`. The session is the one `Step` gives, whether or
      not the save works; an action that saves nothing leaves the store as
      it was, and one whose counter writes go through leaves the store
      holding the new counters. */
  function StepAndSave(app: App, store: Store, a: Action, html: string, failAt: nat): (r: (App, SaveResult))
    ensures r.0 == Step(app, a)
    ensures !Saves(app, a) ==> r.0 == app && r.1 == SaveResult(store, false)
    ensures Saves(app, a) ==> (r.1.failed <==> failAt < 3)
    ensures Saves(app, a) && failAt >= 2 ==>
      LoadCounters(Available(r.1.store)) == (r.0.createCount, r.0.deleteCount)
    ensures Saves(app, a) && failAt >= 3 ==> GetItem(r.1.store, NotesKey) == Some(html)
  {
    var next := Step(app, a);
    if Saves(app, a) then
      var saved := SaveToStorage(store, next.createCount, next.deleteCount, html, failAt);
      LoadCounterOfSaved(next.createCount);
      LoadCounterOfSaved(next.deleteCount);
      (next, saved)
    else
      (next, SaveResult(store, false))
  }

  /** The create count is the number of notes in the container. */
  predicate CountsLiveNotes(app: App) {
    app.createCount == |app.notes|
  }

  /** Starting from a session whose create count matches its notes (a
      fresh one, say), every run of actions keeps them matching: the
      decrement on delete makes the create count the live note count. */
  lemma {:induction false} RunCountsLiveNotes(app: App, actions: seq<Action>)
    requires CountsLiveNotes(app)
    ensures CountsLiveNotes(Run(app, actions))
    decreases |actions|
  {
    if actions != [] {
      RunCountsLiveNotes(Step(app, actions[0]), actions[1..]);
    }
  }

  /** Every run of actions keeps every note's content area inside its
      text. */
  lemma {:induction false} RunKeepsNested(app: App, actions: seq<Action>)
    requires AllNested(app)
    ensures AllNested(Run(app, actions))
    decreases |actions|
  {
    if actions != [] {
      var next := Step(app, actions[0]);
      assert AllNested(next);
      RunKeepsNested(next, actions[1..]);
    }
  }

  /** Every run of actions keeps every note's `role` and `contenteditable`
      attributes present. */
  lemma {:induction false} RunKeepsInteractive(app: App, actions: seq<Action>)
    requires AllInteractive(app)
    ensures AllInteractive(Run(app, actions))
    decreases |actions|
  {
    if actions != [] {
      var next := Step(app, actions[0]);
      assert AllInteractive(next);
      RunKeepsInteractive(next, actions[1..]);
    }
  }

  /** Unless all notes are cleared, the delete count never goes down. */
  lemma {:induction false} RunDeleteCountMonotonic(app: App, actions: seq<Action>)
    requires forall k :: 0 <= k < |actions| ==> actions[k] != ClearAll(true)
    ensures Run(app, actions).deleteCount >= app.deleteCount
    decreases |actions|
  {
    if actions != [] {
      RunDeleteCountMonotonic(Step(app, actions[0]), actions[1..]);
    }
  }

  /** Three creations then one confirmed deletion leave two notes with
      create count 2 and delete count 1. */
  lemma CreateThreeDeleteOne()
    ensures var r := Run(Fresh, [Create, Create, Create, Delete(0, true)]);
      |r.notes| == 2 && r.createCount == 2 && r.deleteCount == 1
  {
    RunCountsLiveNotes(Fresh, [Create, Create, Create, Delete(0, true)]);
  }

}

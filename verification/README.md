# Notes widget: a Dafny model of the `NotesApp` controller

The notes widget keeps a list of freeform notes in one container, two
counters (notes created, notes deleted) and mirrors all three in the
browser's `localStorage`. This project models the controller class
`NotesApp` of `script.js` with the DOM abstracted away:

- the container is a `seq<Note>` in DOM order; a `Note` records the whole
  element's text, its optional `.note-content` area (text,
  `contenteditable`, `data-placeholder`) and the wrapper's `role`,
  `aria-label` and `tabindex`; `Nested` says the content area's text lies
  inside the whole text, as it does for any element and its child;
- the session is the immutable record `App(notes, createCount, deleteCount)`
  and every user operation is a pure transition;
- `confirm()` answers are boolean parameters, the browser's HTML parser is
  a function parameter `parse`, and `localStorage` is a `map<string, string>`
  that is either readable (`Available`) or throws on access (`Unavailable`);
  a failing `setItem` is described by `failAt`, the number of writes that
  succeed before one throws;
- the JavaScript built-ins the core depends on are modelled over strings of
  Unicode scalar values, with the exceptions listed under "## Left out"
  (`parseInt("-0")`, exponent notation of very large numbers, UTF-16): `trim` and `parseInt(s, 10)` skip the
  ECMAScript WhiteSpace and LineTerminator characters, `parseInt` takes an
  optional sign and the maximal run of decimal digits (no digit is NaN,
  modelled as `None`), and `toString` on a counter prints its decimal digits.

Modules: `Options` (the optional value), `JsString` (trim, parseInt,
toString), `Storage` (counter loading and saving), `Notes` (the note record,
the rehydration backfill, the export projection) and `NotesApp` (session
state, create / delete / clear / export, start-up, runs of actions).

Points of the code's behaviour that the model keeps as written:

- an empty stored counter (`""`) loads as 0 because of the truthiness test
  before `parseInt`, not because it fails to parse;
- `deleteNote` decides whether to ask for confirmation from the trimmed text
  of the whole note element (script.js:216), while the export reads only the
  content area (script.js:347). The model keeps both texts, so a blank note
  whose delete button fell back to the "×" text button is one that asks;
- the create count is decremented (floored at 0) on every deletion, so it
  equals the live note count for sessions that start consistent
  (`RunCountsLiveNotes`), not a lifetime tally;
- a failed `renderNotes` leaves the container as it was rather than
  necessarily empty.

## Model

| member | source | states |
|---|---|---|
| `JsString.Trim` | script.js:216 | `trim` gives the empty string exactly when the text is all whitespace; otherwise the result starts and ends with non-whitespace |
| `JsString.TrimIsSlice` | script.js:347 | `trim` keeps one contiguous piece of the text and drops only whitespace before and after it; with `Trim`'s end characters, that piece is the text without its leading and trailing whitespace |
| `JsString.ParseInt` | script.js:44-45 | `parseInt(s, 10)` is NaN exactly when no digit follows the leading whitespace and optional sign; a negative result comes only from a leading `-` |
| `JsString.ParseIntOfDigits` | script.js:44-45 | an optional `+` or `-`, any non-empty run of digits (leading zeros allowed) and a tail not starting with a digit parse to the digits' value, negated after `-` |
| `JsString.ParseIntStopsAtNonDigit` | script.js:44-45 | `parseInt` reads the digits and ignores whatever non-digit text follows them |
| `JsString.ParseIntSkipsWhitespace` | script.js:44-45 | leading whitespace does not change what `parseInt` reads |
| `JsString.ParseIntOfNegated` | script.js:44-45 | a minus sign before the digits gives the negated value |
| `JsString.NatToString` | script.js:67-68 | a counter's `toString` is a non-empty digit string with no leading zero |
| `JsString.DigitsValueOfNatToString` | script.js:67-68 | the digits printed for a counter denote that counter |
| `JsString.NatToStringOfDigits` | script.js:67-68 | every canonical digit string is what `toString` prints for the value it denotes |
| `JsString.ParseIntOfNatToString` | script.js:44-45 | `parseInt` reads back exactly the counter `toString` printed |
| `Storage.LoadCounter` | script.js:44-53 | an absent or empty stored counter, a NaN and a negative number all load as 0; any other value loads as the parsed number, so a loaded counter is never negative |
| `Storage.LoadCounters` | script.js:38-60 | when storage cannot be read at all both counters are 0; otherwise each counter is loaded from its own key |
| `Storage.SaveToStorage` | script.js:65-74 | the three writes happen in order create count, delete count, notes markup; a failing write keeps the earlier ones, stores nothing itself, skips the rest and is reported; no other key changes |
| `Storage.LoadCounterOfSaved` | script.js:67-68 | saving a counter as decimal text and loading it back yields the same counter |
| `Storage.SaveLoadCounters` | script.js:65-68 | once both counter writes succeed, loading restores exactly the saved counters |
| `Storage.LenientCountersLoad` | script.js:44-53 | counter text with leading zeros (`"007"`) or a `+` sign (`"+12"`) loads as its value |
| `Storage.MalformedCountersLoadAsZero` | script.js:48-53 | `"-5"`, `"abc"` and `"-0"` all load as 0 |
| `Notes.NewNote` | script.js:157-198 | the note `createNote` builds is blank, has `role="textbox"`, `tabindex="0"` and the label of its number, and its content area is blank with `contenteditable="true"` and the placeholder; its content lies inside its text |
| `Notes.WithTextButton` | script.js:186-194 | when the delete image fails to load, the "×" of the replacing text button joins the note's text; the content area and role are unchanged and stay nested |
| `Notes.Backfill` | script.js:291-305 | the backfill keeps the number, order and texts of the notes; a note without `role` gets `role="textbox"`, `aria-label="Note {index+1}"` and `tabindex="0"`; a content area without `contenteditable` gets `"true"` and the placeholder; an existing `role` is kept with its `aria-label` and `tabindex`, an existing `contenteditable` with its content area; a missing role replaces `aria-label` and `tabindex`, a missing `contenteditable` replaces `data-placeholder` |
| `Notes.BackfillKeepsNested` | script.js:291-305 | the backfill keeps every note's content text inside its whole text |
| `Notes.NonBlankContentInText` | script.js:216-217 | a note whose content area holds non-whitespace text has non-whitespace text as a whole |
| `Notes.BackfillKeepsInteractive` | script.js:293-304 | notes that already have a role and, where they have a content area, a `contenteditable` attribute come out of the backfill unchanged |
| `Notes.BackfillIdempotent` | script.js:291-305 | running the backfill twice equals running it once |
| `Notes.NonEmpty` | script.js:348 | the filter step keeps at most as many strings as it is given and none of them is empty |
| `Notes.NonEmptyPositions` | script.js:348 | the kept positions are increasing, in range, and are exactly the positions of non-empty strings |
| `Notes.NonEmptyIsSelection` | script.js:348 | the filter's k-th output is the string at the k-th kept position |
| `Notes.ExportIsSelection` | script.js:345-348 | the export lists the trimmed content text of every note that has a non-empty one, in container order, and nothing else |
| `Notes.NonEmptyAppend` | script.js:348 | filtering a concatenation concatenates the filtered parts |
| `Notes.ExportedTextsAppend` | script.js:345-348 | the export of a concatenation of containers is the concatenation of their exports |
| `Notes.BackfillKeepsExport` | script.js:290-305 | the backfill does not change what is exported |
| `NotesApp.CreateNote` | script.js:153-205 | the create count goes up by exactly 1, the delete count and all existing notes are unchanged, and one blank note with role, tab stop, editable content and the label of the new count is appended |
| `NotesApp.RemoveAt` | script.js:229-232 | removing a note shifts the later notes down by one and keeps the earlier ones |
| `NotesApp.DeleteNote` | script.js:210-236 | a note outside the container, or a note with non-whitespace text whose deletion is not confirmed, changes nothing; otherwise the delete count goes up by 1, the create count goes down by 1 but not below 0, and exactly that note is removed with the others in order |
| `NotesApp.ClearAllNotes` | script.js:363-371 | once confirmed, the container is empty and both counters are 0; unconfirmed, nothing changes |
| `NotesApp.ExportNotes` | script.js:344-358 | the export holds the non-empty trimmed content texts in container order and both counters unchanged |
| `NotesApp.RenderNotes` | script.js:256-310 | with a non-empty stored blob the container holds exactly the backfill of the parsed notes: same count and texts, all interactive, exporting what the parsed notes export; with no blob, an empty one or unreadable storage the container is left as it was |
| `NotesApp.Init` | script.js:28-33 | a new session has the loaded counters and the notes rendered from storage into the empty container, all interactive; with unreadable storage, or a store holding none of the widget's three keys, it is empty with both counters 0 |
| `NotesApp.SaveThenInitRestores` | script.js:65-69 | after a fully successful save, starting a new session from the store restores the same counters and notes, when the markup parses back to the same notes |
| `NotesApp.SaveThenInitKeepsExport` | script.js:256-305 | when the markup only parses back to notes with the same content texts, the restored session still has the same counters and exports the same texts |
| `NotesApp.BlankNoteNeedsNoConfirmation` | script.js:215-219 | confirmation is asked exactly when the note's text has a non-whitespace character, and for a blank note the answer is never consulted |
| `NotesApp.DeleteKeepsOrder` | script.js:229-232 | the deleted note put back at its position restores the container; as multisets, the container loses exactly that note |
| `NotesApp.DeleteUndoesCreate` | script.js:153-236 | while the just-created note still shows its delete image, deleting it restores the notes and the create count, with one more deletion counted |
| `NotesApp.FallbackNoteAsks` | script.js:186-194 | once the delete image of a just-created note has fallen back to the "×" button, deleting it asks first: a refusal changes nothing, a confirmation undoes the creation with one more deletion counted |
| `NotesApp.NonBlankContentNeedsConfirmation` | script.js:214-218 | in a session whose notes contain their content areas, deleting a note with non-whitespace content asks, and a refusal leaves the session unchanged |
| `NotesApp.InitKeepsNested` | script.js:256-305 | when the parsed notes contain their content areas, so do the notes of the new session |
| `NotesApp.RunKeepsNested` | script.js:153-236 | every run of actions keeps every note's content inside its text |
| `NotesApp.CreateKeepsExport` | script.js:153-198 | creating a note does not change the export, as the new note is blank |
| `NotesApp.StepAndSave` | script.js:221-235 | an action followed by the save it ends with: the session is the action's transition whatever the save does; an action that goes no further than its early return leaves the store untouched and reports nothing; otherwise the failure is reported exactly when a write throws, and once the counter writes go through the store loads back the new counters (and holds the new markup once all writes do) |
| `NotesApp.RunCountsLiveNotes` | script.js:221-222 | from a session whose create count equals its note count, every run of create, delete and clear actions keeps them equal |
| `NotesApp.RunKeepsInteractive` | script.js:159-166 | every run of actions keeps every note's `role` attribute and, where it has a content area, its `contenteditable` attribute |
| `NotesApp.RunDeleteCountMonotonic` | script.js:221 | without a confirmed clear, the delete count never decreases over a run of actions |
| `NotesApp.CreateThreeDeleteOne` | script.js:154-222 | three creations and one confirmed deletion from a fresh session leave two notes, create count 2 and delete count 1 |

## Left out

- DOM construction, `innerHTML` serialisation and parsing, focus, the CSS
  transition and all event wiring (the click, keyup, input and keydown
  handlers, the Ctrl/Cmd+N and Escape shortcuts): browser APIs. The parser
  is the `parse` parameter; the markup itself is opaque text.
- Re-binding of the delete buttons during rendering (script.js:260-289):
  handler wiring. The image-error fallback to a text button, installed by
  `createNote` (script.js:186-194) and again on rendering
  (script.js:277-287), is an event of the browser, not an action of the
  model; its effect on a note's text is `Notes.WithTextButton`. Two of its
  consequences are not part of the transitions:
  - once a just-created note's image falls back, its text is "×", so
    deleting it prompts and a refusal deletes nothing (`NotesApp.FallbackNoteAsks`);
    `NotesApp.DeleteUndoesCreate` holds only before that;
  - the text button has its own click listener (script.js:192, 284) and
    also matches the container's delegated click handler (script.js:89,
    104), so one click calls `deleteNote` twice: two prompts, and up to two
    deletions counted for one note removed. `NotesApp.DeleteNote` models
    one call.
- Editing a note's text: the browser changes the DOM; the widget only
  schedules a save.
- The 500 ms debounced save and the `beforeunload` save: timer interleaving,
  not statable as a pure transition.
- `NotesApp.CreateNote`: the `saveToStorage` call it ends with (script.js:204)
  is not part of the transition; the combined step is `NotesApp.StepAndSave`
  over `Storage.SaveToStorage`.
- `NotesApp.DeleteNote`: the `saveToStorage` call in the deferred removal
  (script.js:234) is not part of the transition; the combined step is
  `NotesApp.StepAndSave`.
- `NotesApp.ClearAllNotes`: the `saveToStorage` call after a confirmed clear
  (script.js:369) is not part of the transition; the combined step is
  `NotesApp.StepAndSave`.
- `NotesApp.DeleteNote`: the 300 ms delay between the counter update and
  the removal is collapsed into one step, so a second delete of the same
  note inside that window (which counts twice in the source) is not
  modelled.
- `confirm()` prompts: replaced by boolean parameters.
- `showError` banner, `updateCounters` display and console logging:
  presentation only; a failed save is the `failed` flag.
- The export's `exportDate` (a clock read) and the `JSON.stringify` layout:
  the export is the record `Export(notes, createCount, deleteCount)`.
- `Storage.LoadCounter`: counters are unbounded naturals; JavaScript
  numbers lose precision past 2^53 and print in exponent notation from
  10^21 on, so the round trip holds in the source only below that.
- `JsString.ParseInt`: `parseInt("-0", 10)` is the number -0 in JavaScript;
  it is modelled as 0, which it behaves like everywhere in the widget.
- `JsString.Trim`: JavaScript strings are UTF-16 code units; the model
  works on Unicode scalar values.
- `NotesApp.RenderNotes`: an exception part-way through re-binding is not
  modelled; only unreadable storage is.
- The container's initial content before rendering is taken to be empty.

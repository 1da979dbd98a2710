/** One note of the widget and the two passes over the sequence of notes
    in the container: the attribute backfill of rehydration and the text
    projection of the export. */
module Notes {

  import opened Options
  import opened JsString

  const Placeholder := "Start typing your note..."

  /** The editable `.note-content` area of a note: its text and the two
      attributes the widget sets on it. */
  datatype ContentArea = ContentArea(text: string, contenteditable: Option<string>, placeholder: Option<string>)

  /** A `.note` element. `text` is the text of the whole element: the
      content area plus any text of the delete affordance (the fallback
      button shows "×"). `content` is its content area, absent in markup
      that predates the content area. The other fields are the wrapper's
      accessibility attributes. In the DOM the content area is a child of
      the note, so its text lies inside the note's text; `Nested` states
      this. */
  datatype Note = Note(
    text: string,
    content: Option<ContentArea>,
    role: Option<string>,
    ariaLabel: Option<string>,
    tabindex: Option<string>)

  /** The accessible name of the note numbered `k`. */
  function NoteLabel(k: nat): string {
    "Note " + NatToString(k)
  }

  /** A note that has a `role` attribute and, where it has a content area,
      a `contenteditable` attribute: the presence tests the backfill makes,
      and so what both `createNote` and the backfill guarantee. The values
      of the attributes are not constrained. */
  predicate Interactive(n: Note) {
    && n.role.Some?
    && (n.content.Some? ==> n.content.value.contenteditable.Some?)
  }

  /** The content area's text sits in the note's text from position `lo`
      on (trivially so for a note without a content area). */
  predicate ContentAt(n: Note, lo: nat) {
    n.content.Some? ==>
      && lo + |n.content.value.text| <= |n.text|
      && n.text[lo..lo + |n.content.value.text|] == n.content.value.text
  }

  /** The content area's text is part of the whole note's text, as the
      `textContent` of an element contains that of its children. */
  predicate Nested(n: Note) {
    exists lo: nat | lo <= |n.text| :: ContentAt(n, lo)
  }

  /** The note `createNote` builds as the `number`-th one: empty, with the
      textbox role, a tab stop, the label of its number and a content area
      that is editable and shows the placeholder. */
  function NewNote(number: nat): (n: Note)
    ensures Interactive(n) && Nested(n)
    ensures && n.text == "" && n.content.Some? && n.content.value.text == ""
            && n.content.value.contenteditable == Some("true")
            && n.content.value.placeholder == Some(Placeholder)
            && n.role == Some("textbox") && n.tabindex == Some("0")
            && n.ariaLabel == Some(NoteLabel(number))
  {
    var n := Note("", Some(ContentArea("", Some("true"), Some(Placeholder))),
                  Some("textbox"), Some(NoteLabel(number)), Some("0"));
    assert ContentAt(n, 0);
    n
  }

  /** The note after its delete image failed to load: the text button that
      replaces the image adds "×" to the note's text. */
  function WithTextButton(n: Note): (r: Note)
    ensures r.content == n.content && r.role == n.role
    ensures r.text == n.text + "×"
    ensures Nested(n) ==> Nested(r)
  {
    var r := n.(text := n.text + "×");
    assert Nested(n) ==> Nested(r) by {
      if Nested(n) {
        var lo: nat :| lo <= |n.text| && ContentAt(n, lo);
        assert ContentAt(r, lo);
      }
    }
    r
  }

  /** The backfill of one restored note at position `index`. */
  function BackfillNote(n: Note, index: nat): Note {
    var wrapped :=
      if n.role.None? then n.(role := Some("textbox"), ariaLabel := Some(NoteLabel(index + 1)), tabindex := Some("0"))
      else n;
    match wrapped.content
    case Some(c) =>
      if c.contenteditable.None? then
        wrapped.(content := Some(c.(contenteditable := Some("true"), placeholder := Some(Placeholder))))
      else wrapped
    case None => wrapped
  }

  /** The attribute pass of `renderNotes` over the restored notes: a note
      without a role gets the textbox role, the label of its position
      (counted from 1) and a tab stop, replacing any `aria-label` and
      `tabindex` it had; a content area without `contenteditable` becomes
      editable and gets the placeholder, replacing any it had. An existing
      `role` or `contenteditable` is kept, and so are the attributes that
      go with it; the texts never change. */
  function Backfill(ns: seq<Note>): (r: seq<Note>)
    ensures |r| == |ns|
    ensures forall i :: 0 <= i < |ns| ==> r[i].text == ns[i].text && Interactive(r[i])
    ensures forall i :: 0 <= i < |ns| && ns[i].role.None? ==>
      && r[i].role == Some("textbox")
      && r[i].ariaLabel == Some(NoteLabel(i + 1))
      && r[i].tabindex == Some("0")
    ensures forall i :: 0 <= i < |ns| && ns[i].role.Some? ==>
      r[i].role == ns[i].role && r[i].ariaLabel == ns[i].ariaLabel && r[i].tabindex == ns[i].tabindex
    ensures forall i :: 0 <= i < |ns| ==> (r[i].content.Some? <==> ns[i].content.Some?)
    ensures forall i :: 0 <= i < |ns| && ns[i].content.Some? ==>
      var before := ns[i].content.value;
      var after := r[i].content.value;
      && after.text == before.text
      && (before.contenteditable.Some? ==> after == before)
      && (before.contenteditable.None? ==>
            after.contenteditable == Some("true") && after.placeholder == Some(Placeholder))
  {
    seq(|ns|, i requires 0 <= i < |ns| => BackfillNote(ns[i], i))
  }

  /** The backfill leaves notes that are already interactive as they are. */
  lemma BackfillKeepsInteractive(ns: seq<Note>)
    requires forall i :: 0 <= i < |ns| ==> Interactive(ns[i])
    ensures Backfill(ns) == ns
  {
    var r := Backfill(ns);
    forall i | 0 <= i < |ns|
      ensures r[i] == ns[i]
    {
      assert r[i] == BackfillNote(ns[i], i);
    }
  }

  /** The backfill keeps every note's content area inside its text. */
  lemma BackfillKeepsNested(ns: seq<Note>)
    ensures forall i :: 0 <= i < |ns| && Nested(ns[i]) ==> Nested(Backfill(ns)[i])
  {
    var r := Backfill(ns);
    forall i | 0 <= i < |ns| && Nested(ns[i])
      ensures Nested(r[i])
    {
      var lo: nat :| lo <= |ns[i].text| && ContentAt(ns[i], lo);
      assert ContentAt(r[i], lo);
    }
  }

  /** Running the backfill twice is running it once. */
  lemma BackfillIdempotent(ns: seq<Note>)
    ensures Backfill(Backfill(ns)) == Backfill(ns)
  {
    BackfillKeepsInteractive(Backfill(ns));
  }

  /** What `exportNotes` reads from one note: the trimmed text of its
      content area, or "" when it has none. */
  function ContentText(n: Note): string {
    match n.content
    case Some(c) => Trim(c.text)
    case None => ""
  }

  /** A note whose content area holds some non-whitespace text has some
      non-whitespace text as a whole. */
  lemma NonBlankContentInText(n: Note)
    requires Nested(n)
    ensures ContentText(n) != "" ==> Trim(n.text) != ""
  {
    if ContentText(n) != "" {
      var c := n.content.value;
      var lo: nat :| lo <= |n.text| && ContentAt(n, lo);
      var j :| 0 <= j < |c.text| && !IsWhitespace(c.text[j]);
      assert n.text[lo + j] == c.text[j];
    }
  }

  /** The texts `exportNotes` reads, one per note, in container order. */
  function ContentTexts(ns: seq<Note>): (ts: seq<string>)
    ensures |ts| == |ns|
  {
    seq(|ns|, i requires 0 <= i < |ns| => ContentText(ns[i]))
  }

  /** The filter step of the export: the non-empty strings of `ts`, in
      order. */
  function NonEmpty(ts: seq<string>): (r: seq<string>)
    ensures |r| <= |ts|
    ensures forall k :: 0 <= k < |r| ==> r[k] != ""
  {
    if ts == [] then []
    else
      var t := ts[|ts| - 1];
      NonEmpty(ts[..|ts| - 1]) + (if t == "" then [] else [t])
  }

  /** The note list of the export. */
  function ExportedTexts(ns: seq<Note>): seq<string> {
    NonEmpty(ContentTexts(ns))
  }

  /** The positions of the non-empty strings of `ts`, in increasing order:
      exactly those, each once. */
  function NonEmptyPositions(ts: seq<string>): (idx: seq<nat>)
    ensures forall k :: 0 <= k < |idx| ==> idx[k] < |ts|
    ensures forall k, l :: 0 <= k < l < |idx| ==> idx[k] < idx[l]
    ensures forall i :: 0 <= i < |ts| ==> (i in idx <==> ts[i] != "")
  {
    if ts == [] then []
    else
      var last := |ts| - 1;
      var init := NonEmptyPositions(ts[..last]);
      var r := init + (if ts[last] != "" then [last] else []);
      assert forall i :: 0 <= i < last ==> (i in r <==> i in init);
      r
  }

  /** The filter keeps exactly the selected positions: its k-th entry is the
      string at the k-th non-empty position, so it holds every non-empty
      string, in order, and nothing else. */
  lemma {:induction false} NonEmptyIsSelection(ts: seq<string>)
    ensures |NonEmpty(ts)| == |NonEmptyPositions(ts)|
    ensures forall k :: 0 <= k < |NonEmptyPositions(ts)| ==>
      NonEmpty(ts)[k] == ts[NonEmptyPositions(ts)[k]]
  {
    if ts != [] {
      var last := |ts| - 1;
      var init := ts[..last];
      NonEmptyIsSelection(init);
      var idx := NonEmptyPositions(init);
      var out := NonEmpty(ts);
      var pos := NonEmptyPositions(ts);
      assert out == NonEmpty(init) + (if ts[last] == "" then [] else [ts[last]]);
      assert pos == idx + (if ts[last] != "" then [last] else []);
      forall k | 0 <= k < |pos|
        ensures out[k] == ts[pos[k]]
      {
        if k < |idx| {
          assert out[k] == NonEmpty(init)[k] == init[idx[k]];
        }
      }
    }
  }

  /** The export lists the content text of every note whose content text
      is not empty, in container order, and nothing else: `idx` gives, for
      each exported entry, the position of the note it comes from. */
  lemma ExportIsSelection(ns: seq<Note>) returns (idx: seq<nat>)
    ensures && |ExportedTexts(ns)| == |idx|
            && forall k :: 0 <= k < |idx| ==> idx[k] < |ns| && ExportedTexts(ns)[k] == ContentText(ns[idx[k]])
    ensures forall i :: 0 <= i < |ns| ==> (i in idx <==> ContentText(ns[i]) != "")
    ensures forall k, l :: 0 <= k < l < |idx| ==> idx[k] < idx[l]
  {
    idx := NonEmptyPositions(ContentTexts(ns));
    NonEmptyIsSelection(ContentTexts(ns));
  }

  /** Filtering a concatenation is concatenating the filtered parts. */
  lemma {:induction false} NonEmptyAppend(a: seq<string>, b: seq<string>)
    ensures NonEmpty(a + b) == NonEmpty(a) + NonEmpty(b)
  {
    if b != [] {
      var last := |b| - 1;
      assert (a + b)[..|a + b| - 1] == a + b[..last];
      NonEmptyAppend(a, b[..last]);
    } else {
      assert a + b == a;
    }
  }

  /** The export of a concatenation is the concatenation of the exports. */
  lemma ExportedTextsAppend(a: seq<Note>, b: seq<Note>)
    ensures ExportedTexts(a + b) == ExportedTexts(a) + ExportedTexts(b)
  {
    assert ContentTexts(a + b) == ContentTexts(a) + ContentTexts(b);
    NonEmptyAppend(ContentTexts(a), ContentTexts(b));
  }

  /** The backfill does not change what is exported. */
  lemma BackfillKeepsExport(ns: seq<Note>)
    ensures ExportedTexts(Backfill(ns)) == ExportedTexts(ns)
  {
    assert ContentTexts(Backfill(ns)) == ContentTexts(ns);
  }

}

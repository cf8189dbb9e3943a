/** The notes page: the list of notes it holds, the reducers that change the
    list when a widget reports a drag or an edit, and note creation.

    Ids are not required to be unique: a reducer updates every note whose id
    matches. The clock, the random placement and the window size that
    creation draws on are parameters. */
module Page {
  import opened Wrappers
  import StickyNote

  datatype Note = Note(id: string, text: string, x: int, y: int)

  /** The text a newly created note starts with. */
  const NewNoteText: string := "New note"

  /** The list the page starts with: one sample note. */
  const InitialNotes: seq<Note> := [Note("1", "This is a sample note", 100, 100)]

  /** The two ways a reducer changes a matching note. */
  datatype Edit = Move(x: int, y: int) | Retext(text: string)

  function Apply(n: Note, e: Edit): Note {
    match e
    case Move(x, y) => n.(x := x, y := y)
    case Retext(t) => n.(text := t)
  }

  /** Maps over `notes`, applying `e` to every note whose id is `id` and
      keeping every other note as it is. */
  function UpdateMatching(notes: seq<Note>, id: string, e: Edit): (r: seq<Note>)
    ensures |r| == |notes|
    ensures forall k :: 0 <= k < |r| && notes[k].id == id ==> r[k] == Apply(notes[k], e)
    ensures forall k :: 0 <= k < |r| && notes[k].id != id ==> r[k] == notes[k]
    decreases |notes|
  {
    if |notes| == 0 then
      []
    else
      var head := if notes[0].id == id then Apply(notes[0], e) else notes[0];
      [head] + UpdateMatching(notes[1..], id, e)
  }

  /** The ids of `notes`, in list order. */
  function Ids(notes: seq<Note>): (ids: seq<string>)
    ensures |ids| == |notes|
    ensures forall k :: 0 <= k < |notes| ==> ids[k] == notes[k].id
  {
    seq(|notes|, k requires 0 <= k < |notes| => notes[k].id)
  }

  /** A drag-end report: every note with the reported id moves to the
      reported coordinates, keeping its id and text; the list keeps its
      length and order, and every other note is untouched. */
  function HandleDragEnd(notes: seq<Note>, id: string, x: int, y: int): (r: seq<Note>)
    ensures |r| == |notes|
    ensures Ids(r) == Ids(notes)
    ensures forall k :: 0 <= k < |r| ==> r[k].id == notes[k].id && r[k].text == notes[k].text
    ensures forall k :: 0 <= k < |r| && notes[k].id == id ==> r[k].x == x && r[k].y == y
    ensures forall k :: 0 <= k < |r| && notes[k].id != id ==> r[k] == notes[k]
  {
    UpdateMatching(notes, id, Move(x, y))
  }

  /** A text-change report: every note with the reported id takes the new
      text, keeping its id and coordinates; the list keeps its length and
      order, and every other note is untouched. */
  function HandleTextChange(notes: seq<Note>, id: string, newText: string): (r: seq<Note>)
    ensures |r| == |notes|
    ensures Ids(r) == Ids(notes)
    ensures forall k :: 0 <= k < |r| ==> r[k].id == notes[k].id && r[k].x == notes[k].x && r[k].y == notes[k].y
    ensures forall k :: 0 <= k < |r| && notes[k].id == id ==> r[k].text == newText
    ensures forall k :: 0 <= k < |r| && notes[k].id != id ==> r[k] == notes[k]
  {
    UpdateMatching(notes, id, Retext(newText))
  }

  /** Creating a note appends it: the old notes stay an unchanged prefix and
      the new last note has the default text and the given id and place. */
  function AddNewNote(notes: seq<Note>, id: string, x: int, y: int): (r: seq<Note>)
    ensures |r| == |notes| + 1
    ensures r[..|notes|] == notes
    ensures r[|notes|] == Note(id, NewNoteText, x, y)
  {
    notes + [Note(id, NewNoteText, x, y)]
  }

  /** Hands a widget's callback to the matching reducer, as the page wires
      them up. Every note the report addresses is re-rendered with exactly
      the props the reporting widget settles on; every other note is
      untouched. */
  function Dispatch(notes: seq<Note>, em: StickyNote.Emission): (r: seq<Note>)
    ensures |r| == |notes|
    ensures Ids(r) == Ids(notes)
    ensures forall k :: 0 <= k < |r| && notes[k].id == em.id ==>
      PropsOf(r[k]) == StickyNote.Settle(PropsOf(notes[k]), Some(em))
    ensures forall k :: 0 <= k < |r| && notes[k].id != em.id ==> r[k] == notes[k]
  {
    match em
    case DragEnd(id, x, y) => HandleDragEnd(notes, id, x, y)
    case TextChange(id, t) => HandleTextChange(notes, id, t)
  }

  /** No report in `ems` carries id `id`. */
  predicate Unaddressed(ems: seq<StickyNote.Emission>, id: string) {
    forall j :: 0 <= j < |ems| ==> ems[j].id != id
  }

  /** Hands a run of reports to the page, in the order they were fired. The
      list keeps its length and its ids in order, and a note that no report
      addresses is unchanged. */
  function DispatchAll(notes: seq<Note>, ems: seq<StickyNote.Emission>): (r: seq<Note>)
    ensures |r| == |notes|
    ensures Ids(r) == Ids(notes)
    ensures forall k :: 0 <= k < |r| && Unaddressed(ems, notes[k].id) ==> r[k] == notes[k]
    decreases |ems|
  {
    if |ems| == 0 then notes
    else
      var next := Dispatch(notes, ems[0]);
      assert forall j :: 1 <= j < |ems| ==> ems[1..][j - 1] == ems[j];
      DispatchAll(next, ems[1..])
  }

  /** The props the page gives the widget of note `n`: the widget carries
      the note's id, and mounts at the note's place showing its text. */
  function PropsOf(n: Note): (p: StickyNote.Props)
    ensures p.id == n.id && p.text == n.text
    ensures StickyNote.Mount(p).position == StickyNote.Point(n.x, n.y)
    ensures StickyNote.Mount(p).editText == n.text
  {
    StickyNote.Props(n.id, n.text, n.x, n.y)
  }

  // ---------------------------------------------------------------------
  // A reference lookup
  // ---------------------------------------------------------------------

  /** No note in `notes` has id `id`. */
  predicate Absent(notes: seq<Note>, id: string) {
    forall k :: 0 <= k < |notes| ==> notes[k].id != id
  }

  /** The first note with id `id`, if any. */
  function Find(notes: seq<Note>, id: string): (r: Option<Note>)
    ensures r.None? <==> Absent(notes, id)
    ensures r.Some? ==> r.value in notes && r.value.id == id
    ensures r.Some? ==> exists k :: 0 <= k < |notes| && notes[k] == r.value && Absent(notes[..k], id)
    decreases |notes|
  {
    if |notes| == 0 then None
    else if notes[0].id == id then
      assert Absent(notes[..0], id);
      Some(notes[0])
    else
      assert forall k :: 1 <= k < |notes| ==> notes[k] == notes[1..][k - 1];
      var rest := Find(notes[1..], id);
      if rest.Some? then
        var k :| 0 <= k < |notes[1..]| && notes[1..][k] == rest.value && Absent(notes[1..][..k], id);
        assert notes[..k + 1] == [notes[0]] + notes[1..][..k];
        assert Absent(notes[..k + 1], id);
        rest
      else
        rest
  }

  // ---------------------------------------------------------------------
  // Properties
  // ---------------------------------------------------------------------

  /** Looking up a note after an update finds the looked-up note's own
      lookup, edited when the ids match and unchanged otherwise. */
  lemma {:induction false} FindAfterUpdate(notes: seq<Note>, id: string, e: Edit, other: string)
    ensures Find(UpdateMatching(notes, id, e), other)
         == if other == id && Find(notes, other).Some?
            then Some(Apply(Find(notes, other).value, e))
            else Find(notes, other)
    decreases |notes|
  {
    if |notes| > 0 {
      var r := UpdateMatching(notes, id, e);
      assert r[1..] == UpdateMatching(notes[1..], id, e);
      FindAfterUpdate(notes[1..], id, e, other);
    }
  }

  /** After a drag end, the moved note is found at its new place and every
      other id is found as before. */
  lemma FindAfterDragEnd(notes: seq<Note>, id: string, x: int, y: int, other: string)
    ensures Find(notes, id).Some? ==>
      Find(HandleDragEnd(notes, id, x, y), id) == Some(Find(notes, id).value.(x := x, y := y))
    ensures other != id ==> Find(HandleDragEnd(notes, id, x, y), other) == Find(notes, other)
  {
    FindAfterUpdate(notes, id, Move(x, y), id);
    FindAfterUpdate(notes, id, Move(x, y), other);
  }

  /** A newly created note with a fresh id is found as created; with a
      taken id, the older note hides it. Every other id is found as
      before. */
  lemma {:induction false} FindAfterAdd(notes: seq<Note>, id: string, x: int, y: int, other: string)
    ensures Absent(notes, id) ==> Find(AddNewNote(notes, id, x, y), id) == Some(Note(id, NewNoteText, x, y))
    ensures !Absent(notes, id) ==> Find(AddNewNote(notes, id, x, y), id) == Find(notes, id)
    ensures other != id ==> Find(AddNewNote(notes, id, x, y), other) == Find(notes, other)
    decreases |notes|
  {
    var r := AddNewNote(notes, id, x, y);
    if |notes| > 0 {
      assert r[1..] == AddNewNote(notes[1..], id, x, y);
      assert forall k :: 1 <= k < |notes| ==> notes[k] == notes[1..][k - 1];
      FindAfterAdd(notes[1..], id, x, y, other);
    }
  }

  /** A report for an id no note has leaves the list as it was. */
  lemma UnknownIdIsNoOp(notes: seq<Note>, id: string, e: Edit)
    requires Absent(notes, id)
    ensures UpdateMatching(notes, id, e) == notes
  {
  }

  /** Moving the same note to the same place twice is the same as once. */
  lemma DragEndIdempotent(notes: seq<Note>, id: string, x: int, y: int)
    ensures HandleDragEnd(HandleDragEnd(notes, id, x, y), id, x, y) == HandleDragEnd(notes, id, x, y)
  {
  }

  /** Setting the same note's text to the same value twice is the same as once. */
  lemma TextChangeIdempotent(notes: seq<Note>, id: string, newText: string)
    ensures HandleTextChange(HandleTextChange(notes, id, newText), id, newText)
         == HandleTextChange(notes, id, newText)
  {
  }

  /** A move and a text change commute, whichever notes they address. */
  lemma DragEndAndTextChangeCommute(notes: seq<Note>, a: string, x: int, y: int, b: string, t: string)
    ensures HandleTextChange(HandleDragEnd(notes, a, x, y), b, t)
         == HandleDragEnd(HandleTextChange(notes, b, t), a, x, y)
  {
  }

  /** Dragging a note's widget by a pointer displacement and handing its
      reports to the page moves every note with that id by the same
      displacement from where the widget started, and nothing else. */
  lemma WidgetDragMovesNote(notes: seq<Note>, i: nat, grab: StickyNote.Point, to: StickyNote.Point)
    requires i < |notes|
    ensures var n := notes[i];
      var events := [StickyNote.MouseDown(grab), StickyNote.MouseMove(to), StickyNote.MouseUp];
      var trace := StickyNote.Run(PropsOf(n), StickyNote.Mount(PropsOf(n)), events);
      && |trace.emitted| == 1
      && DispatchAll(notes, trace.emitted)
         == HandleDragEnd(notes, n.id, n.x + (to.x - grab.x), n.y + (to.y - grab.y))
  {
    var n := notes[i];
    var p := PropsOf(n);
    assert p == StickyNote.Props(n.id, n.text, n.x, n.y);
    StickyNote.MountedDrag(p, grab, to);
    var em := StickyNote.DragEnd(n.id, n.x + (to.x - grab.x), n.y + (to.y - grab.y));
    var trace := StickyNote.Run(p, StickyNote.Mount(p),
      [StickyNote.MouseDown(grab), StickyNote.MouseMove(to), StickyNote.MouseUp]);
    assert trace.emitted == [em];
    DispatchOne(notes, em);
    assert Dispatch(notes, em) == HandleDragEnd(notes, n.id, em.x, em.y);
  }

  /** Editing a note's widget (click, type `value`, leave) and handing its
      reports to the page gives that note the typed text when it differs,
      and leaves the list alone when it does not. */
  lemma WidgetEditRetextsNote(notes: seq<Note>, i: nat, value: string)
    requires i < |notes|
    ensures var n := notes[i];
      var events := [StickyNote.Click, StickyNote.Change(value), StickyNote.Blur];
      var trace := StickyNote.Run(PropsOf(n), StickyNote.Mount(PropsOf(n)), events);
      && (value == n.text ==> trace.emitted == [] && DispatchAll(notes, trace.emitted) == notes)
      && (value != n.text ==>
            |trace.emitted| == 1 && DispatchAll(notes, trace.emitted) == HandleTextChange(notes, n.id, value))
  {
    var n := notes[i];
    var p := PropsOf(n);
    StickyNote.EditGesture(p, StickyNote.Mount(p), [StickyNote.Change(value)]);
    assert [StickyNote.Click] + [StickyNote.Change(value)] + [StickyNote.Blur]
        == [StickyNote.Click, StickyNote.Change(value), StickyNote.Blur];
    DispatchOne(notes, StickyNote.TextChange(n.id, value));
  }

  /** Editing a note's widget as a browser delivers it (press, release,
      click, type `value`, leave) hands the page a drag report for the
      note's unchanged place and then, when the text differs, the text
      report. */
  lemma WidgetPressedEditRetextsNote(notes: seq<Note>, i: nat, c: StickyNote.Point, value: string)
    requires i < |notes|
    ensures var n := notes[i];
      var events := [StickyNote.MouseDown(c), StickyNote.MouseUp,
                     StickyNote.Click, StickyNote.Change(value), StickyNote.Blur];
      var trace := StickyNote.Run(PropsOf(n), StickyNote.Mount(PropsOf(n)), events);
      var moved := HandleDragEnd(notes, n.id, n.x, n.y);
      DispatchAll(notes, trace.emitted)
        == if value != n.text then HandleTextChange(moved, n.id, value) else moved
  {
    var n := notes[i];
    var p := PropsOf(n);
    assert p == StickyNote.Props(n.id, n.text, n.x, n.y);
    StickyNote.MountedPressedEdit(p, c, value);
    DispatchStaleThenText(notes, n.id, n.x, n.y, n.text, value);
  }

  /** The reports of a pressed edit gesture, dispatched: the stale drag
      report, then the text report when the text changed. */
  lemma DispatchStaleThenText(notes: seq<Note>, id: string, x: int, y: int, text: string, value: string)
    ensures var d := StickyNote.DragEnd(id, x, y);
      var ems := [d] + (if value != text then [StickyNote.TextChange(id, value)] else []);
      var moved := HandleDragEnd(notes, id, x, y);
      DispatchAll(notes, ems) == if value != text then HandleTextChange(moved, id, value) else moved
  {
    var d := StickyNote.DragEnd(id, x, y);
    if value != text {
      var t := StickyNote.TextChange(id, value);
      assert [d] + [t] == [d, t];
      DispatchTwo(notes, d, t);
    } else {
      assert [d] + [] == [d];
      DispatchOne(notes, d);
    }
  }

  /** Handing two reports to the page is two dispatches in order. */
  lemma DispatchTwo(notes: seq<Note>, a: StickyNote.Emission, b: StickyNote.Emission)
    ensures DispatchAll(notes, [a, b]) == Dispatch(Dispatch(notes, a), b)
  {
    assert [a, b][1..] == [b];
    DispatchOne(Dispatch(notes, a), b);
  }

  /** A drag report for the place every note with that id already has,
      as the click that opens the editor sends, leaves the list as it was. */
  lemma StaleDragEndIsNoOp(notes: seq<Note>, id: string, x: int, y: int)
    requires forall k :: 0 <= k < |notes| && notes[k].id == id ==> notes[k].x == x && notes[k].y == y
    ensures HandleDragEnd(notes, id, x, y) == notes
  {
  }

  /** Handing a single report to the page is one dispatch. */
  lemma DispatchOne(notes: seq<Note>, em: StickyNote.Emission)
    ensures DispatchAll(notes, [em]) == Dispatch(notes, em)
  {
    assert [em][1..] == [];
  }

  /** Handing the page two runs of reports one after the other is handing
      it their concatenation. */
  lemma {:induction false} DispatchAllAppend(notes: seq<Note>, a: seq<StickyNote.Emission>, b: seq<StickyNote.Emission>)
    ensures DispatchAll(notes, a + b) == DispatchAll(DispatchAll(notes, a), b)
    decreases |a|
  {
    if |a| == 0 {
      assert a + b == b;
    } else {
      assert (a + b)[0] == a[0];
      assert (a + b)[1..] == a[1..] + b;
      DispatchAllAppend(Dispatch(notes, a[0]), a[1..], b);
    }
  }

  /** Whatever events the widget of note `i` receives, handing the reports
      it fires to the page leaves note `i` with exactly the props the
      widget ends up rendered with: the widget and the page agree. */
  lemma {:induction false} RunDispatched(notes: seq<Note>, i: nat, s: StickyNote.State, events: seq<StickyNote.Event>)
    requires i < |notes|
    ensures var tr := StickyNote.Run(PropsOf(notes[i]), s, events);
      PropsOf(DispatchAll(notes, tr.emitted)[i]) == tr.props
    decreases |events|
  {
    var p := PropsOf(notes[i]);
    if |events| == 0 {
      assert StickyNote.Run(p, s, events).emitted == [];
    } else {
      var t := StickyNote.Step(p, s, events[0]);
      var p1 := StickyNote.Settle(p, t.emitted);
      var first := ToSeq(t.emitted);
      var notes1 := DispatchAll(notes, first);
      if t.emitted.Some? {
        DispatchOne(notes, t.emitted.value);
        assert PropsOf(notes1[i]) == p1;
      } else {
        assert first == [];
        assert notes1 == notes;
      }
      var rest := StickyNote.Run(p1, t.next, events[1..]);
      RunDispatched(notes1, i, t.next, events[1..]);
      assert StickyNote.Run(p, s, events) == StickyNote.Trace(rest.final, rest.props, first + rest.emitted);
      DispatchAllAppend(notes, first, rest.emitted);
    }
  }

  /** The first drag of the page's sample note: grabbed at (110,120) and
      released at (160,100), the note at (100,100) ends up at (150,80). */
  lemma SampleNoteFirstDrag()
    ensures var n := InitialNotes[0];
      var events := [StickyNote.MouseDown(StickyNote.Point(110, 120)),
                     StickyNote.MouseMove(StickyNote.Point(160, 100)),
                     StickyNote.MouseUp];
      var trace := StickyNote.Run(PropsOf(n), StickyNote.Mount(PropsOf(n)), events);
      DispatchAll(InitialNotes, trace.emitted) == [Note("1", "This is a sample note", 150, 80)]
  {
    WidgetDragMovesNote(InitialNotes, 0, StickyNote.Point(110, 120), StickyNote.Point(160, 100));
    var r := HandleDragEnd(InitialNotes, "1", 150, 80);
    assert r[0] == Note("1", "This is a sample note", 150, 80);
  }

  /** Editing the sample note to "b", leaving, and editing it back to its
      original text reports both edits, and the page ends where it began. */
  lemma SampleNoteEditAndUndo()
    ensures var n := InitialNotes[0];
      var events := [StickyNote.Click, StickyNote.Change("b"), StickyNote.Blur,
                     StickyNote.Click, StickyNote.Change(n.text), StickyNote.Blur];
      var trace := StickyNote.Run(PropsOf(n), StickyNote.Mount(PropsOf(n)), events);
      && trace.emitted == [StickyNote.TextChange("1", "b"), StickyNote.TextChange("1", n.text)]
      && DispatchAll(InitialNotes, trace.emitted) == InitialNotes
  {
    var n := InitialNotes[0];
    var p := PropsOf(n);
    var first := [StickyNote.Change("b")];
    var second := [StickyNote.Change(n.text)];
    StickyNote.TwoEdits(p, StickyNote.Mount(p), first, second);
    assert ([StickyNote.Click] + first + [StickyNote.Blur]) + ([StickyNote.Click] + second + [StickyNote.Blur])
        == [StickyNote.Click, StickyNote.Change("b"), StickyNote.Blur,
            StickyNote.Click, StickyNote.Change(n.text), StickyNote.Blur];
    var ems := [StickyNote.TextChange("1", "b"), StickyNote.TextChange("1", n.text)];
    var once := HandleTextChange(InitialNotes, "1", "b");
    assert once == [Note("1", "b", 100, 100)];
    assert ems[1..] == [StickyNote.TextChange("1", n.text)];
    DispatchOne(once, ems[1]);
    var twice := HandleTextChange(once, "1", n.text);
    assert twice[0] == InitialNotes[0];
  }
}

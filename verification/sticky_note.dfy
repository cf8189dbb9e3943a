/** The note widget: a draggable, click-to-edit text box.

    Its local state has two independent axes, dragging and editing. Each
    event handler is a total transition from one state to the next that may
    fire one of the two callbacks the widget receives from its parent
    (`onDragEnd` or `onTextChange`). Coordinates are integers. */
module StickyNote {
  import opened Wrappers

  datatype Point = Point(x: int, y: int)

  function Add(a: Point, b: Point): Point {
    Point(a.x + b.x, a.y + b.y)
  }

  function Sub(a: Point, b: Point): Point {
    Point(a.x - b.x, a.y - b.y)
  }

  /** What the parent passes in: the note's id, its current text, and the
      coordinates the widget starts at. */
  datatype Props = Props(id: string, text: string, x: int, y: int)

  /** The widget's local state. */
  datatype State = State(
    isDragging: bool,
    position: Point,
    dragOffset: Point,
    isEditing: bool,
    editText: string)

  /** A call of one of the parent's callbacks. */
  datatype Emission =
    | DragEnd(id: string, x: int, y: int)
    | TextChange(id: string, newText: string)

  /** The events the widget reacts to. `Change` is the text area's input
      event carrying its new value. */
  datatype Event =
    | MouseDown(client: Point)
    | MouseMove(client: Point)
    | MouseUp
    | Click
    | Change(value: string)
    | Blur

  datatype Transition = Transition(next: State, emitted: Option<Emission>)

  /** The state a widget starts in: idle, viewing, at the coordinates of its
      props, with its edit buffer holding the note's text. */
  function Mount(p: Props): (s: State)
    ensures !s.isDragging && !s.isEditing
    ensures s.position == Point(p.x, p.y)
    ensures OnBlur(p, s).emitted == None
  {
    State(false, Point(p.x, p.y), Point(0, 0), false, p.text)
  }

  /** `a` and `b` agree on the editing axis. */
  predicate SameEdit(a: State, b: State) {
    a.isEditing == b.isEditing && a.editText == b.editText
  }

  /** `a` and `b` agree on the dragging axis. */
  predicate SameDrag(a: State, b: State) {
    a.isDragging == b.isDragging && a.position == b.position && a.dragOffset == b.dragOffset
  }

  // ---------------------------------------------------------------------
  // Handlers
  // ---------------------------------------------------------------------

  /** Pressing the pointer starts a drag, whether or not one is already in
      progress, and records where on the note it was grabbed: the note's
      position plus the recorded offset is the pointer. */
  function OnMouseDown(s: State, client: Point): (t: Transition)
    ensures t.next.isDragging
    ensures t.next.position == s.position
    ensures Add(t.next.position, t.next.dragOffset) == client
    ensures SameEdit(s, t.next)
    ensures t.emitted == None
  {
    Transition(s.(isDragging := true, dragOffset := Sub(client, s.position)), None)
  }

  /** While dragging, the note follows the pointer so that the grab point
      stays under it; otherwise the move is ignored. */
  function OnMouseMove(s: State, client: Point): (t: Transition)
    ensures s.isDragging ==>
      && t.next.isDragging
      && t.next.dragOffset == s.dragOffset
      && Add(t.next.position, t.next.dragOffset) == client
      && SameEdit(s, t.next)
    ensures !s.isDragging ==> t.next == s
    ensures t.emitted == None
  {
    if s.isDragging then
      Transition(s.(position := Sub(client, s.dragOffset)), None)
    else
      Transition(s, None)
  }

  /** Releasing the pointer ends a drag and reports the note's current
      position to the parent; with no drag in progress it does nothing. */
  function OnMouseUp(p: Props, s: State): (t: Transition)
    ensures !t.next.isDragging
    ensures t.next.position == s.position && t.next.dragOffset == s.dragOffset
    ensures SameEdit(s, t.next)
    ensures t.emitted.Some? <==> s.isDragging
    ensures s.isDragging ==> t.emitted == Some(DragEnd(p.id, s.position.x, s.position.y))
    ensures !s.isDragging ==> t.next == s
  {
    if s.isDragging then
      Transition(s.(isDragging := false), Some(DragEnd(p.id, s.position.x, s.position.y)))
    else
      Transition(s, None)
  }

  /** A click that is not part of a drag opens the editor; a click during a
      drag changes nothing. */
  function OnClick(s: State): (t: Transition)
    ensures SameDrag(s, t.next)
    ensures t.next.editText == s.editText
    ensures !s.isDragging ==> t.next.isEditing
    ensures s.isDragging ==> t.next == s
    ensures t.emitted == None
  {
    if !s.isDragging then
      Transition(s.(isEditing := true), None)
    else
      Transition(s, None)
  }

  /** Typing replaces the edit buffer and nothing else. */
  function OnChange(s: State, value: string): (t: Transition)
    ensures SameDrag(s, t.next)
    ensures t.next.isEditing == s.isEditing
    ensures t.next.editText == value
    ensures t.emitted == None
  {
    Transition(s.(editText := value), None)
  }

  /** Leaving the text area always closes the editor, and reports the edit
      buffer to the parent exactly when it differs from the note's text. */
  function OnBlur(p: Props, s: State): (t: Transition)
    ensures !t.next.isEditing
    ensures t.next.editText == s.editText
    ensures SameDrag(s, t.next)
    ensures t.emitted.Some? <==> s.editText != p.text
    ensures t.emitted.Some? ==> t.emitted.value == TextChange(p.id, s.editText)
  {
    var next := s.(isEditing := false);
    if s.editText != p.text then
      Transition(next, Some(TextChange(p.id, s.editText)))
    else
      Transition(next, None)
  }

  // ---------------------------------------------------------------------
  // The widget as a state machine
  // ---------------------------------------------------------------------

  predicate IsDragEvent(e: Event) {
    e.MouseDown? || e.MouseMove? || e.MouseUp?
  }

  predicate IsEditEvent(e: Event) {
    e.Click? || e.Change? || e.Blur?
  }

  /** Delivers one event. The text area, and with it its input and blur
      events, exists only while the editor is open; outside editing those
      two events cannot reach the widget and are ignored here. */
  function Step(p: Props, s: State, e: Event): (t: Transition)
    ensures IsDragEvent(e) ==> SameEdit(s, t.next)
    ensures IsEditEvent(e) ==> SameDrag(s, t.next)
    ensures t.emitted.Some? && t.emitted.value.DragEnd? ==> e.MouseUp? && s.isDragging
    ensures t.emitted.Some? && t.emitted.value.TextChange? ==> e.Blur? && s.isEditing
    ensures t.emitted.Some? ==> t.emitted.value.id == p.id
  {
    match e
    case MouseDown(c) => OnMouseDown(s, c)
    case MouseMove(c) => OnMouseMove(s, c)
    case MouseUp => OnMouseUp(p, s)
    case Click => OnClick(s)
    case Change(v) => if s.isEditing then OnChange(s, v) else Transition(s, None)
    case Blur => if s.isEditing then OnBlur(p, s) else Transition(s, None)
  }

  /** The props the widget is rendered with after it fired `em`. The parent
      applies every report to the note this widget is rendered from, and
      re-renders the widget with that note: a text report becomes its `text`
      prop, which the next blur compares against, and a drag report becomes
      its `x` and `y` props, which the widget reads only when it mounts. */
  function Settle(p: Props, em: Option<Emission>): (q: Props)
    ensures q.id == p.id
  {
    match em
    case None => p
    case Some(DragEnd(_, x, y)) => p.(x := x, y := y)
    case Some(TextChange(_, t)) => p.(text := t)
  }

  /** The outcome of a run: the widget's last state, the props it is then
      rendered with, and the callbacks fired on the way. */
  datatype Trace = Trace(final: State, props: Props, emitted: seq<Emission>)

  /** Delivers `events` in order, each to the widget as last rendered,
      collecting the callbacks fired. Every event fires at most one
      callback, every callback carries the widget's id, and the widget keeps
      its id throughout. */
  function Run(p: Props, s: State, events: seq<Event>): (r: Trace)
    ensures |r.emitted| <= |events|
    ensures forall k :: 0 <= k < |r.emitted| ==> r.emitted[k].id == p.id
    ensures r.props.id == p.id
    decreases |events|
  {
    if |events| == 0 then
      Trace(s, p, [])
    else
      var t := Step(p, s, events[0]);
      var rest := Run(Settle(p, t.emitted), t.next, events[1..]);
      Trace(rest.final, rest.props, ToSeq(t.emitted) + rest.emitted)
  }

  // ---------------------------------------------------------------------
  // Properties
  // ---------------------------------------------------------------------

  /** Running `a + b` is running `a`, then `b` from where `a` stopped. */
  lemma {:induction false} RunAppend(p: Props, s: State, a: seq<Event>, b: seq<Event>)
    ensures var ra := Run(p, s, a);
      var rb := Run(ra.props, ra.final, b);
      Run(p, s, a + b) == Trace(rb.final, rb.props, ra.emitted + rb.emitted)
    decreases |a|
  {
    if |a| == 0 {
      assert a + b == b;
    } else {
      var t := Step(p, s, a[0]);
      var p1 := Settle(p, t.emitted);
      assert (a + b)[0] == a[0];
      assert (a + b)[1..] == a[1..] + b;
      RunAppend(p1, t.next, a[1..], b);
      var mid := Run(p1, t.next, a[1..]);
      assert Run(p, s, a) == Trace(mid.final, mid.props, ToSeq(t.emitted) + mid.emitted);
      var whole := Run(p1, t.next, a[1..] + b);
      assert Run(p, s, a + b) == Trace(whole.final, whole.props, ToSeq(t.emitted) + whole.emitted);
    }
  }

  /** Running a single event is one step. */
  lemma RunOne(p: Props, s: State, e: Event)
    ensures var t := Step(p, s, e);
      Run(p, s, [e]) == Trace(t.next, Settle(p, t.emitted), ToSeq(t.emitted))
  {
  }

  /** Mouse down at pointer `p` then a move to `q` puts the note at its old
      position shifted by the pointer's displacement `q - p`. */
  lemma DragArithmetic(s: State, p: Point, q: Point)
    ensures OnMouseMove(OnMouseDown(s, p).next, q).next.position
         == Point(s.position.x + (q.x - p.x), s.position.y + (q.y - p.y))
  {
  }

  predicate AllMoves(events: seq<Event>) {
    forall k :: 0 <= k < |events| ==> events[k].MouseMove?
  }

  /** During a drag, any number of moves keeps the drag going with the same
      grab offset, fires nothing, leaves editing alone, and leaves the grab
      point under the last pointer position. */
  lemma {:induction false} MovesFollowPointer(p: Props, s: State, moves: seq<Event>)
    requires s.isDragging
    requires AllMoves(moves)
    ensures Run(p, s, moves).emitted == []
    ensures Run(p, s, moves).props == p
    ensures Run(p, s, moves).final.isDragging
    ensures Run(p, s, moves).final.dragOffset == s.dragOffset
    ensures SameEdit(s, Run(p, s, moves).final)
    ensures |moves| == 0 ==> Run(p, s, moves).final == s
    ensures |moves| > 0 ==>
      Add(Run(p, s, moves).final.position, s.dragOffset) == moves[|moves| - 1].client
    decreases |moves|
  {
    if |moves| > 0 {
      var t := Step(p, s, moves[0]);
      assert t == OnMouseMove(s, moves[0].client);
      assert Settle(p, t.emitted) == p;
      MovesFollowPointer(p, t.next, moves[1..]);
      var rest := Run(p, t.next, moves[1..]);
      assert Run(p, s, moves) == Trace(rest.final, rest.props, [] + rest.emitted);
      if |moves| > 1 {
        assert moves[1..][|moves[1..]| - 1] == moves[|moves| - 1];
      }
    }
  }

  /** Where a drag that grabbed the note at pointer `grab` from `start`
      leaves it after the moves `moves`. */
  function DragTarget(start: Point, grab: Point, moves: seq<Event>): Point
    requires AllMoves(moves)
  {
    if |moves| == 0 then start
    else Add(start, Sub(moves[|moves| - 1].client, grab))
  }

  /** A full drag gesture (press, moves, release) from any state fires
      exactly one drag-end callback, carrying the starting position shifted
      by the pointer's total displacement, ends the drag, and does not touch
      the editor; the widget is then rendered with its new place as props. */
  lemma DragGesture(p: Props, s: State, grab: Point, moves: seq<Event>)
    requires AllMoves(moves)
    ensures var r := Run(p, s, [MouseDown(grab)] + moves + [MouseUp]);
      var target := DragTarget(s.position, grab, moves);
      && r.emitted == [DragEnd(p.id, target.x, target.y)]
      && !r.final.isDragging
      && r.final.position == target
      && r.props == p.(x := target.x, y := target.y)
      && SameEdit(s, r.final)
  {
    var s1 := OnMouseDown(s, grab).next;
    RunOne(p, s, MouseDown(grab));
    RunAppend(p, s, [MouseDown(grab)], moves);
    MovesFollowPointer(p, s1, moves);
    var s2 := Run(p, s1, moves).final;
    RunAppend(p, s, [MouseDown(grab)] + moves, [MouseUp]);
    RunOne(p, s2, MouseUp);
  }

  /** A freshly mounted widget pressed at `grab`, moved once to `to` and
      released reports its props' place shifted by `to - grab`. */
  lemma MountedDrag(p: Props, grab: Point, to: Point)
    ensures Run(p, Mount(p), [MouseDown(grab), MouseMove(to), MouseUp]).emitted
         == [DragEnd(p.id, p.x + (to.x - grab.x), p.y + (to.y - grab.y))]
  {
    var moves := [MouseMove(to)];
    DragGesture(p, Mount(p), grab, moves);
    assert [MouseDown(grab)] + moves + [MouseUp] == [MouseDown(grab), MouseMove(to), MouseUp];
  }

  /** A note at (100,100) dragged by (50,-20) reports (150,80). */
  lemma DragExample(p: Props)
    requires p.x == 100 && p.y == 100
    ensures Run(p, Mount(p), [MouseDown(Point(110, 120)), MouseMove(Point(160, 100)), MouseUp]).emitted
         == [DragEnd(p.id, 150, 80)]
  {
  }

  /** Pointer events never touch the editor or the text the widget is
      rendered with, and fire only drag-end callbacks. */
  lemma {:induction false} DragEventsKeepEdit(p: Props, s: State, events: seq<Event>)
    requires forall k :: 0 <= k < |events| ==> IsDragEvent(events[k])
    ensures SameEdit(s, Run(p, s, events).final)
    ensures Run(p, s, events).props.text == p.text
    ensures forall k :: 0 <= k < |Run(p, s, events).emitted| ==> Run(p, s, events).emitted[k].DragEnd?
    decreases |events|
  {
    if |events| > 0 {
      var t := Step(p, s, events[0]);
      DragEventsKeepEdit(Settle(p, t.emitted), t.next, events[1..]);
    }
  }

  /** Click, input and blur events never move the note or change the drag
      or the place the widget is rendered at, and fire only text-change
      callbacks. */
  lemma {:induction false} EditEventsKeepDrag(p: Props, s: State, events: seq<Event>)
    requires forall k :: 0 <= k < |events| ==> IsEditEvent(events[k])
    ensures SameDrag(s, Run(p, s, events).final)
    ensures Run(p, s, events).props.x == p.x && Run(p, s, events).props.y == p.y
    ensures forall k :: 0 <= k < |Run(p, s, events).emitted| ==> Run(p, s, events).emitted[k].TextChange?
    decreases |events|
  {
    if |events| > 0 {
      var t := Step(p, s, events[0]);
      EditEventsKeepDrag(Settle(p, t.emitted), t.next, events[1..]);
    }
  }

  predicate AllChanges(events: seq<Event>) {
    forall k :: 0 <= k < |events| ==> events[k].Change?
  }

  /** The text an edit gesture leaves in the buffer: the last value typed,
      or the buffer as it was when nothing was typed. */
  function LastTyped(buffer: string, typed: seq<Event>): string
    requires AllChanges(typed)
  {
    if |typed| == 0 then buffer else typed[|typed| - 1].value
  }

  /** With the editor open, typing fires nothing and leaves the last value
      typed in the buffer. */
  lemma {:induction false} TypingFillsBuffer(p: Props, s: State, typed: seq<Event>)
    requires s.isEditing
    requires AllChanges(typed)
    ensures Run(p, s, typed).emitted == []
    ensures Run(p, s, typed).props == p
    ensures Run(p, s, typed).final.isEditing
    ensures SameDrag(s, Run(p, s, typed).final)
    ensures Run(p, s, typed).final.editText == LastTyped(s.editText, typed)
    decreases |typed|
  {
    if |typed| > 0 {
      TypingFillsBuffer(p, Step(p, s, typed[0]).next, typed[1..]);
      if |typed| > 1 {
        assert typed[1..][|typed[1..]| - 1] == typed[|typed| - 1];
      }
    }
  }

  /** Opening the editor outside a drag and typing fires nothing and leaves
      the last value typed in the open editor. */
  lemma ClickThenType(p: Props, s: State, typed: seq<Event>)
    requires !s.isDragging
    requires AllChanges(typed)
    ensures var r := Run(p, s, [Click] + typed);
      && r.final.isEditing
      && r.final.editText == LastTyped(s.editText, typed)
      && SameDrag(s, r.final)
      && r.props == p
      && r.emitted == []
  {
    RunOne(p, s, Click);
    RunAppend(p, s, [Click], typed);
    TypingFillsBuffer(p, OnClick(s).next, typed);
  }

  /** Leaving an open editor after `a` appends one blur step to the run of `a`. */
  lemma RunThenBlur(p: Props, s: State, a: seq<Event>)
    requires Run(p, s, a).final.isEditing
    ensures var r := Run(p, s, a);
      var b := OnBlur(r.props, r.final);
      Run(p, s, a + [Blur]) == Trace(b.next, Settle(r.props, b.emitted), r.emitted + ToSeq(b.emitted))
  {
    RunAppend(p, s, a, [Blur]);
    var r := Run(p, s, a);
    RunOne(r.props, r.final, Blur);
  }

  /** An edit gesture outside a drag (click, type, blur) closes the editor
      again and fires a text-change callback with the final buffer exactly
      when it differs from the note's text; otherwise nothing fires. Either
      way the widget is then rendered with the final buffer as its text. */
  lemma EditGesture(p: Props, s: State, typed: seq<Event>)
    requires !s.isDragging
    requires AllChanges(typed)
    ensures var r := Run(p, s, [Click] + typed + [Blur]);
      var text := LastTyped(s.editText, typed);
      && !r.final.isEditing
      && r.final.editText == text
      && SameDrag(s, r.final)
      && r.props == p.(text := text)
      && r.emitted == (if text != p.text then [TextChange(p.id, text)] else [])
  {
    ClickThenType(p, s, typed);
    RunThenBlur(p, s, [Click] + typed);
  }

  /** The click that opens the editor, as a browser delivers it: the press
      and release on the note come first, so the widget starts a drag,
      ends it where it began and reports that unchanged place before the
      click opens the editor. Leaving it then reports the final buffer
      exactly when it differs from the note's text. */
  lemma PressedEditGesture(p: Props, s: State, c: Point, typed: seq<Event>)
    requires AllChanges(typed)
    ensures var r := Run(p, s, [MouseDown(c), MouseUp] + ([Click] + typed + [Blur]));
      var text := LastTyped(s.editText, typed);
      && !r.final.isEditing
      && !r.final.isDragging
      && r.final.position == s.position
      && r.final.editText == text
      && r.props == p.(x := s.position.x, y := s.position.y, text := text)
      && r.emitted == [DragEnd(p.id, s.position.x, s.position.y)]
                    + (if text != p.text then [TextChange(p.id, text)] else [])
  {
    DragGesture(p, s, c, []);
    assert [MouseDown(c)] + [] + [MouseUp] == [MouseDown(c), MouseUp];
    var r1 := Run(p, s, [MouseDown(c), MouseUp]);
    EditGesture(r1.props, r1.final, typed);
    RunAppend(p, s, [MouseDown(c), MouseUp], [Click] + typed + [Blur]);
  }

  /** A fresh note pressed, released, clicked and left without typing
      reports only its unchanged place. */
  lemma PressedUntouchedEdit(p: Props, c: Point)
    ensures Run(p, Mount(p), [MouseDown(c), MouseUp, Click, Blur]).emitted == [DragEnd(p.id, p.x, p.y)]
  {
    PressedEditGesture(p, Mount(p), c, []);
    assert [MouseDown(c), MouseUp] + ([Click] + [] + [Blur]) == [MouseDown(c), MouseUp, Click, Blur];
  }

  /** A fresh note pressed, released, clicked, typed into once and left
      reports its unchanged place, then the typed text if it differs. */
  lemma MountedPressedEdit(p: Props, c: Point, value: string)
    ensures Run(p, Mount(p), [MouseDown(c), MouseUp, Click, Change(value), Blur]).emitted
         == [DragEnd(p.id, p.x, p.y)] + (if value != p.text then [TextChange(p.id, value)] else [])
  {
    PressedEditGesture(p, Mount(p), c, [Change(value)]);
    assert [MouseDown(c), MouseUp] + ([Click] + [Change(value)] + [Blur])
        == [MouseDown(c), MouseUp, Click, Change(value), Blur];
  }

  /** A drag released over the note is followed by the browser's click on
      it, which opens the editor at the note's new place. */
  lemma DragThenClickOpensEditor(p: Props, s: State, grab: Point, moves: seq<Event>)
    requires AllMoves(moves)
    ensures var r := Run(p, s, ([MouseDown(grab)] + moves + [MouseUp]) + [Click]);
      && r.final.isEditing
      && !r.final.isDragging
      && r.final.position == DragTarget(s.position, grab, moves)
      && r.final.editText == s.editText
  {
    DragGesture(p, s, grab, moves);
    var r1 := Run(p, s, [MouseDown(grab)] + moves + [MouseUp]);
    RunAppend(p, s, [MouseDown(grab)] + moves + [MouseUp], [Click]);
    RunOne(r1.props, r1.final, Click);
  }

  /** Two edit gestures in a row: the second is compared against the text
      the first one left, not against the note's text before the first. */
  lemma TwoEdits(p: Props, s: State, first: seq<Event>, second: seq<Event>)
    requires !s.isDragging
    requires AllChanges(first) && AllChanges(second)
    ensures var t1 := LastTyped(s.editText, first);
      var t2 := LastTyped(t1, second);
      var r := Run(p, s, ([Click] + first + [Blur]) + ([Click] + second + [Blur]));
      && r.props == p.(text := t2)
      && r.emitted == (if t1 != p.text then [TextChange(p.id, t1)] else [])
                    + (if t2 != t1 then [TextChange(p.id, t2)] else [])
  {
    var g1 := [Click] + first + [Blur];
    var g2 := [Click] + second + [Blur];
    EditGesture(p, s, first);
    var r1 := Run(p, s, g1);
    EditGesture(r1.props, r1.final, second);
    RunAppend(p, s, g1, g2);
  }

  /** Typing "b" into a note reading "a", leaving, then typing "a" back and
      leaving reports both texts. */
  lemma EditAndUndoExample(p: Props)
    requires p.text == "a"
    ensures Run(p, Mount(p), [Click, Change("b"), Blur, Click, Change("a"), Blur]).emitted
         == [TextChange(p.id, "b"), TextChange(p.id, "a")]
  {
    var first := [Change("b")];
    var second := [Change("a")];
    TwoEdits(p, Mount(p), first, second);
    assert LastTyped(p.text, first) == "b";
    assert LastTyped("b", second) == "a";
    assert ([Click] + first + [Blur]) + ([Click] + second + [Blur])
        == [Click, Change("b"), Blur, Click, Change("a"), Blur];
  }

  /** Typing "b" into a note reading "a" and leaving, then opening and
      leaving it again, reports "b" once. */
  lemma EditThenReopenExample(p: Props)
    requires p.text == "a"
    ensures Run(p, Mount(p), [Click, Change("b"), Blur, Click, Blur]).emitted
         == [TextChange(p.id, "b")]
  {
    var first := [Change("b")];
    var second: seq<Event> := [];
    TwoEdits(p, Mount(p), first, second);
    assert LastTyped(p.text, first) == "b";
    assert LastTyped("b", second) == "b";
    assert ([Click] + first + [Blur]) + ([Click] + second + [Blur])
        == [Click, Change("b"), Blur, Click, Blur];
  }

  /** A freshly mounted note that is clicked and left again without typing
      fires nothing. */
  lemma UntouchedEditIsSilent(p: Props)
    ensures Run(p, Mount(p), [Click, Blur]).emitted == []
  {
  }
}

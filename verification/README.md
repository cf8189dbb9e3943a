# Sticky notes: widget, note list and access gate

A model of the pure logic of a small collaborative sticky-notes web
application, in three modules that follow its source files:

- `StickyNote` (`sticky_note.dfy`) — the note widget. Its local state has a
  dragging axis (`isDragging`, `position`, `dragOffset`) and an editing axis
  (`isEditing`, `editText`). Every event handler (pointer down, move and up,
  click, text input, blur) is a total function from a state to the next
  state plus at most one call of the parent's callbacks (`onDragEnd`,
  `onTextChange`). `Run` delivers a sequence of events, and lemmas describe
  whole drag and edit gestures.
- `Page` (`page.dfy`) — the notes page. It holds the list of notes and the
  reducers the widgets' callbacks are wired to: a drag end moves the notes
  with the reported id, and a text change retexts them. Creating a note
  appends one. `Find`, a first-match lookup by id, is an independent
  reference used to state what the reducers do to a single note.
- `AccessGate` (`access_gate.dfy`) — the request gate. It decides, from
  whether a session exists and the requested path, whether to pass the
  request or redirect it to `/login` or `/`. It only intercepts `/` and
  `/login`.
- `Wrappers` (`wrappers.dfy`) — an `Option` type.

Coordinates are integers. Ids are strings and need not be unique: both
reducers update every note with a matching id, as the source's `map` does.

The page keeps its notes in local state. A drag end or text change updates
the list at once, and "Add Note" appends to it directly; there are no
server calls and no change feed in this code.

The widget's own behaviour:
- Pointer down starts a drag even while one is in progress.
- The move and release handlers are on the note element, not the document.
- The edit buffer is seeded from the note's text when the widget mounts and
  is not resynchronized when that text changes from outside.
- The parent feeds every report back: the widget is re-rendered with the
  reported text (and coordinates) as its props, so a later blur compares
  the buffer against the last reported text. `Run` models this through
  `Settle`, and the contract of `Page.Dispatch` shows that the page's
  reducers re-render every addressed note with exactly those props.
- Press, release and click all sit on the note element, so the click that
  opens the editor always follows a press and a release on the note: the
  widget starts a drag, ends it and, before the editor opens, reports the
  place the release leaves it at, which is its starting place when the
  pointer did not move in between. Likewise the click that follows a drag
  released over the note opens the editor.

## Model

| member | source | states |
|---|---|---|
| StickyNote.OnMouseDown | src/components/StickyNote.tsx:27-33 | pointer down always starts a drag, even during one; the note stays put and the recorded offset plus the position is the pointer; editing is untouched and nothing fires |
| StickyNote.OnMouseMove | src/components/StickyNote.tsx:35-41 | while dragging, the note moves so that the grab point (position plus offset) is under the pointer, with the offset kept; when not dragging the whole state is unchanged; nothing fires |
| StickyNote.OnMouseUp | src/components/StickyNote.tsx:43-48 | a drag ends and fires onDragEnd with the id and the current position exactly when one was in progress; otherwise nothing changes and nothing fires |
| StickyNote.OnClick | src/components/StickyNote.tsx:56-61 | a click outside a drag opens the editor; a click during a drag changes nothing; the drag axis and the buffer are untouched |
| StickyNote.OnChange | src/components/StickyNote.tsx:89-94 | typing sets the edit buffer to the typed value and touches nothing else |
| StickyNote.OnBlur | src/components/StickyNote.tsx:63-68 | blur always closes the editor, and fires onTextChange with the buffer if and only if the buffer differs from the note's text |
| StickyNote.Step | src/components/StickyNote.tsx:84-94 | frame conditions: pointer events never touch the editing axis, edit events never touch the dragging axis; only a release during a drag fires onDragEnd and only a blur of the open editor fires onTextChange, always with the widget's id |
| StickyNote.Mount | src/components/StickyNote.tsx:20-24 | a freshly mounted widget is idle and viewing, sits at its props' coordinates, and its buffer agrees with the note's text, so a blur would fire nothing |
| StickyNote.Run | src/components/StickyNote.tsx:27-68 | a run of events, each delivered to the widget as last re-rendered, fires at most one callback per event, each carrying the widget's id, and the widget keeps its id |
| StickyNote.DragArithmetic | src/components/StickyNote.tsx:29-39 | after pointer down at p from position s, a move to p' puts the note at s + (p' - p) |
| StickyNote.MovesFollowPointer | src/components/StickyNote.tsx:35-41 | during a drag, any number of moves keeps the drag and its offset, fires nothing, leaves editing alone and leaves the grab point under the last pointer position |
| StickyNote.DragGesture | src/components/StickyNote.tsx:27-48 | press, moves and release from any state fire exactly one onDragEnd with the start position shifted by the total pointer displacement, and end the drag without touching the editor; the widget is then rendered with that place as its props |
| StickyNote.MountedDrag | src/components/StickyNote.tsx:27-48 | a freshly mounted widget pressed, moved once and released reports its starting place shifted by the pointer displacement |
| StickyNote.DragExample | src/components/StickyNote.tsx:27-48 | a note at (100,100) dragged by (50,-20) reports (150,80) |
| StickyNote.DragEventsKeepEdit | src/components/StickyNote.tsx:27-48 | any sequence of pointer events leaves the editing axis as it was and fires only onDragEnd |
| StickyNote.EditEventsKeepDrag | src/components/StickyNote.tsx:56-68 | any sequence of click, input and blur events leaves the dragging axis as it was and fires only onTextChange |
| StickyNote.TypingFillsBuffer | src/components/StickyNote.tsx:89-94 | with the editor open, typing fires nothing, keeps the editor open and leaves the last typed value in the buffer |
| StickyNote.ClickThenType | src/components/StickyNote.tsx:56-61 | a click outside a drag followed by typing leaves the editor open with the last typed value, the drag untouched and nothing fired, counted from the click event itself |
| StickyNote.EditGesture | src/components/StickyNote.tsx:56-68 | click, type and blur outside a drag close the editor and fire onTextChange with the final text exactly when it differs from the note's text, otherwise nothing, counted from the click event itself; the widget is then rendered with the final text |
| StickyNote.PressedEditGesture | src/components/StickyNote.tsx:27-68 | the edit gesture as the browser delivers it with no pointer move between press and release (press, release, click, type, blur) fires onDragEnd at the unchanged position, then onTextChange with the final text exactly when it differs from the note's text; the editor ends closed and the note unmoved |
| StickyNote.MountedPressedEdit | src/components/StickyNote.tsx:27-68 | a fresh note pressed, released, clicked, typed into and left reports its props' place, then the typed text when it differs |
| StickyNote.DragThenClickOpensEditor | src/components/StickyNote.tsx:43-61 | the click that follows a drag released over the note opens the editor at the note's new place, with the buffer unchanged |
| StickyNote.TwoEdits | src/components/StickyNote.tsx:63-68 | in two edit gestures in a row, the second fires exactly when its text differs from the text the first left, not from the text before the first |
| StickyNote.EditAndUndoExample | src/components/StickyNote.tsx:63-68 | on a note reading "a", editing to "b" and back to "a" reports both texts |
| StickyNote.EditThenReopenExample | src/components/StickyNote.tsx:63-68 | on a note reading "a", editing to "b" and then opening and leaving again reports "b" only once |
| StickyNote.UntouchedEditIsSilent | src/components/StickyNote.tsx:63-68 | a click event and a blur on a fresh note fire nothing |
| StickyNote.PressedUntouchedEdit | src/components/StickyNote.tsx:27-68 | a fresh note pressed, released, clicked and left without typing reports only its unchanged place through onDragEnd |
| Page.UpdateMatching | src/app/page.tsx:18-39 | mapping over the list keeps its length, edits exactly the notes with the given id and keeps all others |
| Page.HandleDragEnd | src/app/page.tsx:18-20 | length and id order are preserved; every note with the id gets the new x and y and keeps its id and text; every other note is unchanged |
| Page.HandleTextChange | src/app/page.tsx:32-39 | length and id order are preserved; every note with the id gets the new text and keeps its id, x and y; every other note is unchanged |
| Page.AddNewNote | src/app/page.tsx:22-30 | the list grows by one, the old notes are an unchanged prefix, and the last note has text "New note" and the given id and coordinates |
| Page.Dispatch | src/app/page.tsx:72-82 | a widget's report reaches the reducer it is wired to: every note with the report's id is re-rendered with exactly the props the reporting widget settles on (the reported text, or the reported x and y), every other note is unchanged, and the list keeps its length and ids |
| Page.DispatchAll | src/app/page.tsx:72-82 | handing a run of reports to the page in order keeps the list's length and ids in order, and leaves every note that no report addresses unchanged; what it does to the addressed notes is stated by Page.RunDispatched |
| Page.DispatchAllAppend | src/app/page.tsx:72-82 | handing the page two runs of reports one after the other equals handing it their concatenation |
| Page.RunDispatched | src/app/page.tsx:72-82 | for any events the widget of a note receives, handing its reports to the page in order leaves that note with exactly the props the widget ends up rendered with |
| Page.PropsOf | src/app/page.tsx:72-82 | the widget of a note carries its id and text, and mounts at the note's place with the note's text in its buffer |
| Page.FindAfterUpdate | src/app/page.tsx:18-39 | looked up by id after either reducer, a note with the reported id is the old one with the edit applied, and any other id is found as before |
| Page.FindAfterDragEnd | src/app/page.tsx:19 | looked up by id after a drag end, the moved note is the old one at the new coordinates, and every other id is found as before |
| Page.FindAfterAdd | src/app/page.tsx:22-30 | after creation with a fresh id, that id is found as the new note; with a taken id the older note hides the new one; every other id is found as before |
| Page.UnknownIdIsNoOp | src/app/page.tsx:19 | a report for an id no note has leaves the list unchanged |
| Page.DragEndIdempotent | src/app/page.tsx:19 | repeating a drag end with the same id and coordinates changes nothing more |
| Page.TextChangeIdempotent | src/app/page.tsx:37 | repeating a text change with the same id and text changes nothing more |
| Page.DragEndAndTextChangeCommute | src/app/page.tsx:18-39 | a drag end and a text change give the same list in either order |
| Page.WidgetDragMovesNote | src/app/page.tsx:72-82 | dragging a note's widget by a displacement and handing its reports to the page moves the notes with that id by that displacement from where the widget started |
| Page.WidgetEditRetextsNote | src/app/page.tsx:72-82 | editing a note's widget to a new value and handing its reports to the page retexts the notes with that id; typing the same text fires nothing and leaves the list as it was, counted from the click event itself |
| Page.WidgetPressedEditRetextsNote | src/app/page.tsx:72-82 | the edit gesture as the browser delivers it hands the page a drag report for the note's unchanged place and then, when the text changed, the text report |
| Page.StaleDragEndIsNoOp | src/app/page.tsx:19 | a drag report for the place every note with that id already has leaves the list as it was |
| Page.SampleNoteFirstDrag | src/app/page.tsx:14-16 | the page's sample note at (100,100), dragged by (50,-20), ends up at (150,80) with its id and text |
| Page.SampleNoteEditAndUndo | src/app/page.tsx:14-16 | editing the sample note to "b" and back reports both edits, and the page ends with its initial list |
| AccessGate.Decide | src/middleware.ts:13-22 | no session and a path not starting with /login redirects to /login; a session and a path starting with /login redirects to /; every other combination passes; the three cases partition all inputs |
| AccessGate.Gate | src/middleware.ts:26-28 | only / and /login are intercepted and every other path passes; redirects go between those two paths only: to /login exactly for / without a session, to / exactly for /login with one |
| AccessGate.NoRedirectLoop | src/middleware.ts:13-20 | following a redirect under the same session state reaches a path that passes |
| AccessGate.GateTable | src/middleware.ts:13-28 | the outcome for each of the two intercepted pages with and without a session |

## Left out

- Page.DispatchAll: its own contract is only a frame (length, ids, unaddressed notes); the effect on the notes a run of reports addresses is stated by Page.DispatchAllAppend and Page.RunDispatched, because a closed form for an arbitrary mix of reports is the fold itself.

- StickyNote.ClickThenType: starts at the click event; the browser's press and release before it report onDragEnd at the place the release leaves the note at, which is its starting place when the pointer did not move (see StickyNote.PressedEditGesture).
- StickyNote.EditGesture: starts at the click event; the browser's press and release before it report onDragEnd at the place the release leaves the note at, which is its starting place when the pointer did not move (see StickyNote.PressedEditGesture).
- StickyNote.UntouchedEditIsSilent: starts at the click event; the browser's press and release before it report onDragEnd at the place the release leaves the note at, which is its starting place when the pointer did not move (see StickyNote.PressedUntouchedEdit).
- Page.WidgetEditRetextsNote: starts at the click event; the browser's press and release before it report onDragEnd at the place the release leaves the note at, which is its starting place when the pointer did not move (see Page.WidgetPressedEditRetextsNote).
- StickyNote.DragGesture: ends at the release; the browser's click that follows a release over the note opens the editor (see StickyNote.DragThenClickOpensEditor).

- Session retrieval and refresh through the identity provider, and building the redirect response and URL: the gate takes only whether a session exists and yields the target path.
- Next.js path matching: the two entries of the matcher are taken as exact paths, so request variants such as trailing slashes are not modelled.
- Note creation's clock-derived id and random placement inside the window: `AddNewNote` takes the id and coordinates as parameters. Because of this, a freshly generated id may collide with an existing one, as in the source.
- Floating-point pixel coordinates: coordinates are integers.
- Rendering, styles, focusing the text area when the editor opens, the click's `stopPropagation`, and the page's background click that blurs an active text area: these are DOM effects and have no state of the modelled kind.
- React's asynchronous state batching: each handler is one atomic transition, and the widget is re-rendered with its new props before the next event reaches it.
- Several widgets at once: each run follows one widget, whose every report comes back to it as new props; two notes sharing an id, and so two widgets updated by one report, are not modelled together.
- The text area's input and blur events reach the widget only while the editor is open, because the text area is rendered only then. `Step` ignores them otherwise; the handler functions themselves are unconditional, as in the source.
- The login page, the auth callback route, the notes API routes, the notes service, the fetch wrapper and the backend client set-up: these are calls into the hosted identity, database and HTTP services with no local logic worth modelling.

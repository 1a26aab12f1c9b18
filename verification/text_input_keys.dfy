/** Key handling of the older TextInput widget, as functions from its state
    before a key press to its state after it. For every key the selection
    anchor is first updated as the widget does, then the key's branch edits
    the lines, moves the cursor and fills the clipboard. A branch's
    precondition excludes the lookups that raise IndexError in the widget. */
module TextInputKeys {
  import opened TextUtil
  import opened TextInputRules
  import Serde

  /** The fields a key press reads and writes: lines, cursor,
      selection_anchor and clipboard. */
  datatype Input = Input(lines: seq<string>, cursor: Cursor, anchor: Option<Cursor>, clipboard: seq<string>)

  /** The document has a line, and the cursor and the anchor are on lines
      of it. */
  predicate Shaped(s: Input)
  {
    |s.lines| > 0 && s.cursor.lno < |s.lines|
    && (s.anchor.Some? ==> s.anchor.value.lno < |s.lines|)
  }

  /** The keys the model handles. */
  datatype Key =
    | Char(c: char)                // a printable key, quotes and brackets included
    | Tab | ShiftTab | Enter
    | ToggleComment                // ctrl+/ (reported as ctrl+underscore)
    | Copy | Cut | Paste           // ctrl+c, ctrl+x, ctrl+u or ctrl+v
    | Home(shift: bool) | End(shift: bool)
    | DocStart | DocEnd            // ctrl+home, ctrl+end
    | SelectAll                    // ctrl+a
    | PageUp(shift: bool) | PageDown(shift: bool)
    | ScrollOne                    // ctrl+up, ctrl+down
    | Maintained                   // ctrl+s, ctrl+`, ctrl+@, f1 to f12, shift+delete
    | EraseSelection               // backspace or delete while a selection exists
    | Unhandled(shift: bool)       // a key no branch handles (escape, insert, ctrl+d, ...);
                                   // shift says whether its name contains "shift"

  /** The key's name contains "shift". */
  predicate IsShifted(k: Key)
  {
    match k
    case Home(sh) => sh
    case End(sh) => sh
    case PageUp(sh) => sh
    case PageDown(sh) => sh
    case ShiftTab => true
    case Unhandled(sh) => sh
    case _ => false
  }

  /** Keys that leave the selection anchor as it is. */
  predicate KeepsSelection(k: Key)
  {
    k == ShiftTab || k == ToggleComment || k == Copy || k == Maintained
  }

  /** The anchor once a key is pressed, before the key acts. */
  function AnchorAfter(anchor: Option<Cursor>, cursor: Cursor, k: Key): (r: Option<Cursor>)
    ensures r == anchor || r == Some(cursor) || r == None || r == Some(Cursor(0, 0))
  {
    if KeepsSelection(k) then anchor
    else if k == SelectAll then Some(Cursor(0, 0))
    else if anchor.None? && IsShifted(k) then Some(cursor)
    else if anchor.Some? && !IsShifted(k) then None
    else anchor
  }

  /** Apart from the keys that keep it and select-all, a selection exists
      after the update exactly when the key is shifted; a shifted key keeps
      an existing anchor and otherwise anchors at the cursor. */
  lemma AnchorAfterSelects(anchor: Option<Cursor>, cursor: Cursor, k: Key)
    requires !KeepsSelection(k) && k != SelectAll
    ensures var r := AnchorAfter(anchor, cursor, k);
            (r.Some? <==> IsShifted(k))
            && (IsShifted(k) ==> r == Some(AnchorOr(anchor, cursor)))
  {
  }

  /** The ordered ends of the selection (_get_selected_lines): with no
      anchor both are the cursor. */
  function Ends(anchor: Option<Cursor>, cursor: Cursor): (r: (Cursor, Cursor))
    ensures Le(r.0, r.1) && (anchor.None? ==> r.0 == cursor && r.1 == cursor)
  {
    var a := AnchorOr(anchor, cursor);
    (First(a, cursor), Last(a, cursor))
  }

  // ------------------------------------------------------------ selections

  /** The lines and the insertion point once a selection, if any, is
      deleted. */
  function Cleared(lines: seq<string>, anchor: Option<Cursor>, cursor: Cursor): (r: (seq<string>, Cursor))
    requires cursor.lno < |lines| && (anchor.Some? ==> anchor.value.lno < |lines|)
    ensures |r.0| > 0
  {
    if anchor.Some? then (Deleted(lines, anchor.value, cursor), First(anchor.value, cursor))
    else (lines, cursor)
  }

  /** The insertion point left by deleting a selection is on a line, so the
      widget can read that line. */
  predicate ClearedOk(lines: seq<string>, anchor: Option<Cursor>, cursor: Cursor)
    requires cursor.lno < |lines| && (anchor.Some? ==> anchor.value.lno < |lines|)
  {
    var (d, at) := Cleared(lines, anchor, cursor);
    at.lno < |d|
  }

  /** Text typed over the selection: the selection is deleted, the text goes
      in at the insertion point and the cursor moves past it. */
  function Replaced(lines: seq<string>, anchor: Option<Cursor>, cursor: Cursor, text: string): (seq<string>, Cursor)
    requires cursor.lno < |lines| && (anchor.Some? ==> anchor.value.lno < |lines|)
    requires ClearedOk(lines, anchor, cursor)
  {
    var (d, at) := Cleared(lines, anchor, cursor);
    (Inserted(d, at, text), Cursor(at.lno, at.pos + |text|))
  }

  /** With nothing selected, typed text goes into the cursor's line alone. */
  lemma ReplacedAtCursor(lines: seq<string>, cursor: Cursor, text: string)
    requires cursor.lno < |lines|
    ensures var (r, c) := Replaced(lines, None, cursor, text);
            r == lines[cursor.lno := InsertAt(lines[cursor.lno], cursor.pos, text)]
            && c == Cursor(cursor.lno, cursor.pos + |text|)
  {
  }

  // ------------------------------------------------------------------- tab

  /** Tab replaces the selection by spaces, rather than indenting its lines,
      when the selection is a cursor, or lies on one line and is not that
      line's whole text before its last character. */
  predicate TabReplaces(lines: seq<string>, cursor: Cursor, first: Cursor, last: Cursor)
    requires cursor.lno < |lines|
  {
    first.lno == last.lno
    && (first.pos == last.pos || first.pos != 0 || last.pos != |lines[cursor.lno]| - 1)
  }

  /** The number of spaces that takes column pos to the next tab stop. */
  function TabWidth(pos: int): (w: nat)
    ensures 1 <= w <= TabSize && (pos + w) % TabSize == 0
  {
    var w := TabSize - pos % TabSize;
    ModUnique(pos + w, pos / TabSize + 1, 0, TabSize);
    w
  }

  /** A cursor on a line of the selection shifted by its line's change of
      length when the selection is reindented. */
  function ShiftedIn(lines: seq<string>, first: Cursor, last: Cursor, dedent: bool, c: Cursor): (r: Cursor)
    requires first.lno <= c.lno <= last.lno < |lines|
    ensures r.lno == c.lno
  {
    var before := lines[first.lno..last.lno + 1];
    Shifted(c, first.lno, before, ReindentAll(before, dedent))
  }

  /** The lines of the selection reindented, with the anchor, if any, and
      the cursor shifted by their lines' change of length. */
  function Indented(s: Input, anchor: Option<Cursor>, dedent: bool): (r: Input)
    requires Shaped(s) && (anchor.Some? ==> anchor.value.lno < |s.lines|)
    ensures |r.lines| == |s.lines| && r.cursor.lno == s.cursor.lno && r.clipboard == s.clipboard
    ensures anchor.Some? ==> r.anchor.Some? && r.anchor.value.lno == anchor.value.lno
    ensures anchor.None? ==> r.anchor == s.anchor
  {
    var (first, last) := Ends(anchor, s.cursor);
    s.(lines := Reindented(s.lines, first, last, dedent),
       anchor := if anchor.Some? then Some(ShiftedIn(s.lines, first, last, dedent, anchor.value)) else s.anchor,
       cursor := ShiftedIn(s.lines, first, last, dedent, s.cursor))
  }

  /** Tab after the anchor update; before is the anchor as it was. */
  function TabKey(s: Input, before: Option<Cursor>): Input
    requires Shaped(s) && (before.Some? ==> before.value.lno < |s.lines|)
    requires TabOk(s.lines, before, s.cursor)
  {
    var (first, last) := Ends(before, s.cursor);
    if TabReplaces(s.lines, s.cursor, first, last) then
      var w := TabWidth(first.pos);
      s.(lines := Inserted(Deleted(s.lines, first, last), first, Spaces(w)),
         cursor := Cursor(first.lno, first.pos + w))
    else Indented(s, before, false)
  }

  /** Where tab replaces the selection, the insertion point is on a line. */
  predicate TabOk(lines: seq<string>, before: Option<Cursor>, cursor: Cursor)
    requires cursor.lno < |lines| && (before.Some? ==> before.value.lno < |lines|)
  {
    var (first, last) := Ends(before, cursor);
    TabReplaces(lines, cursor, first, last) ==> first.lno < |Deleted(lines, first, last)|
  }

  /** Deleting an empty range inside a line changes nothing. */
  lemma DeletedNothing(lines: seq<string>, c: Cursor)
    requires At(lines, c)
    ensures Deleted(lines, c, c) == lines
  {
    var line := lines[c.lno];
    HeadTail(line, c.pos);
    SpliceOne(lines, c.lno, line);
    assert lines[c.lno := line] == lines;
  }

  /** Tab with nothing selected puts 1 to 4 spaces into the cursor's line at
      the cursor and moves the cursor to the next multiple of 4. */
  lemma TabToNextStop(s: Input)
    requires Shaped(s) && At(s.lines, s.cursor)
    ensures TabOk(s.lines, None, s.cursor)
    ensures var t := TabKey(s, None);
            var c := s.cursor;
            var w := t.cursor.pos - c.pos;
            t.lines == s.lines[c.lno := InsertAt(s.lines[c.lno], c.pos, Spaces(w))]
            && t.cursor.lno == c.lno && 1 <= w <= TabSize && t.cursor.pos % TabSize == 0
  {
    DeletedNothing(s.lines, s.cursor);
  }

  // ----------------------------------------------------------------- enter

  /** Enter after the anchor update; before is the anchor as it was. */
  function EnterKey(s: Input, before: Option<Cursor>): Input
    requires Shaped(s) && (before.Some? ==> before.value.lno < |s.lines|)
    requires var (first, last) := Ends(before, s.cursor); EnterOk(s.lines, s.cursor.pos, first, last)
  {
    var (first, last) := Ends(before, s.cursor);
    var (r, c) := Entered(s.lines, s.cursor.pos, first, last);
    s.(lines := r, cursor := c)
  }

  // ------------------------------------------------------------- copy, cut

  /** Copy fills the clipboard with the selection, or the cursor's line; cut
      also deletes it and clamps the cursor into what is left. */
  function CopyKey(s: Input, before: Option<Cursor>, cut: bool): Input
    requires Shaped(s) && (before.Some? ==> before.value.lno < |s.lines|)
  {
    var clip := Copied(s.lines, before, s.cursor);
    if cut then
      var (r, c) := CutLines(s.lines, before, s.cursor);
      s.(lines := r, cursor := c, clipboard := clip)
    else s.(clipboard := clip)
  }

  // ----------------------------------------------------------------- paste

  /** The clipboard a paste uses: the system clipboard's text read back as
      lines with the last one trimmed, when it could be read, or the
      widget's own. */
  function PasteSource(own: seq<string>, system: Option<string>): (r: seq<string>)
    ensures system.Some? ==> |r| > 0
  {
    if system.Some? then Serde.Deserialize(system.value, true) else own
  }

  /** Paste: the selection, if any, is deleted, and the clipboard goes in at
      the insertion point. */
  function PasteKey(s: Input, before: Option<Cursor>, system: Option<string>): Input
    requires Shaped(s) && (before.Some? ==> before.value.lno < |s.lines|)
    requires ClearedOk(s.lines, before, s.cursor)
  {
    var clip := PasteSource(s.clipboard, system);
    var (d, at) := Cleared(s.lines, before, s.cursor);
    var (r, c) := Pasted(d, clip, at);
    s.(lines := r, cursor := c, clipboard := clip)
  }

  // ------------------------------------------------------- printable keys

  /** A printable key. Quotes and brackets with nothing selected auto-close;
      an opening one with a selection wraps it; any other key, and a closing
      bracket with a selection, replaces the selection. */
  function CharKey(s: Input, before: Option<Cursor>, ch: char): Input
    requires Shaped(s) && (before.Some? ==> before.value.lno < |s.lines|)
    requires CharOk(s.lines, before, s.cursor, ch)
  {
    if IsQuoteOrBracket(ch) && before.None? then
      var (r, c) := ClosedChar(s.lines, s.cursor.pos, ch, s.cursor);
      s.(lines := r, cursor := c)
    else if IsQuoteOrBracket(ch) && !IsClosingBracket(ch) then
      var (r, c) := Around(s.lines, ch, before.value, s.cursor);
      s.(lines := r, cursor := c)
    else
      var (r, c) := Replaced(s.lines, before, s.cursor, [ch]);
      s.(lines := r, cursor := c)
  }

  /** The lookups of a printable key stay inside the lines. */
  predicate CharOk(lines: seq<string>, before: Option<Cursor>, cursor: Cursor, ch: char)
    requires cursor.lno < |lines| && (before.Some? ==> before.value.lno < |lines|)
  {
    if IsQuoteOrBracket(ch) && before.None? then ClosedCharOk(lines, cursor.pos, ch, cursor)
    else if IsQuoteOrBracket(ch) && !IsClosingBracket(ch) then true
    else ClearedOk(lines, before, cursor)
  }

  // ----------------------------------------------------------- navigation

  /** The keys that only move the cursor. */
  predicate Navigates(k: Key)
  {
    k.Home? || k.End? || k.DocStart? || k.DocEnd? || k.SelectAll? || k.PageUp? || k.PageDown?
  }

  /** The cursor after a navigation key; height is the visible height. */
  function Moved(lines: seq<string>, cursor: Cursor, k: Key, height: int): (c: Cursor)
    requires |lines| > 0 && cursor.lno < |lines|
    requires Navigates(k)
    ensures c.lno < |lines|
  {
    match k
    case Home(_) => Cursor(cursor.lno, 0)
    case End(_) => Cursor(cursor.lno, |lines[cursor.lno]| - 1)
    case DocStart => Cursor(0, 0)
    case PageUp(_) => Clamp(lines, cursor.pos, cursor.lno - height + 1)
    case PageDown(_) => Clamp(lines, cursor.pos, cursor.lno + height - 1)
    case _ => Cursor(|lines| - 1, |lines[|lines| - 1]| - 1)
  }

  // -------------------------------------------------------------- dispatch

  /** The lookups of a key stay inside the lines. */
  predicate KeyOk(s: Input, k: Key)
    requires Shaped(s)
  {
    match k
    case Char(ch) => CharOk(s.lines, s.anchor, s.cursor, ch)
    case Tab => TabOk(s.lines, s.anchor, s.cursor)
    case Enter =>
      var (first, last) := Ends(s.anchor, s.cursor);
      EnterOk(s.lines, s.cursor.pos, first, last)
    case Paste => ClearedOk(s.lines, s.anchor, s.cursor)
    case EraseSelection => s.anchor.Some?
    case _ => true
  }

  /** One key press (on_key): the anchor update, then the key's branch.
      marker is the language's inline comment marker, empty when it has
      none; system is the system clipboard's text when it is in use and
      readable; height is the visible height. */
  function OnKey(s: Input, k: Key, marker: string, system: Option<string>, height: int): Input
    requires Shaped(s) && KeyOk(s, k)
  {
    var before := s.anchor;
    var u := s.(anchor := AnchorAfter(before, s.cursor, k));
    match k
    case Char(ch) => CharKey(u, before, ch)
    case Tab => TabKey(u, before)
    case ShiftTab => Indented(u, before, true)
    case Enter => EnterKey(u, before)
    case ToggleComment =>
      var (first, last) := Ends(before, s.cursor);
      if marker != "" then u.(lines := Toggled(s.lines, first, last, marker)) else u
    case Copy => CopyKey(u, before, false)
    case Cut => CopyKey(u, before, true)
    case Paste => PasteKey(u, before, system)
    case ScrollOne => u
    case Maintained => u
    case EraseSelection =>
      var (d, at) := Cleared(s.lines, before, s.cursor);
      u.(lines := d, cursor := at)
    case Unhandled(_) => u
    case _ => u.(cursor := Moved(s.lines, s.cursor, k, height))
  }

  /** A paste event (on_paste) acts as the paste key. */
  function OnPaste(s: Input, system: Option<string>): Input
    requires Shaped(s) && ClearedOk(s.lines, s.anchor, s.cursor)
  {
    PasteKey(s.(anchor := None), s.anchor, system)
  }

  // ------------------------------------------------------------ invariants

  /** Every key keeps a line in the document and the cursor and the anchor
      on lines of it; erasing a selection does so when the insertion point it
      leaves is on a line (see EraseSelectionPastEnd). */
  lemma OnKeyKeepsShape(s: Input, k: Key, marker: string, system: Option<string>, height: int)
    requires Shaped(s) && KeyOk(s, k)
    requires k == EraseSelection ==> ClearedOk(s.lines, s.anchor, s.cursor)
    ensures Shaped(OnKey(s, k, marker, system, height))
  {
    var before := s.anchor;
    var u := s.(anchor := AnchorAfter(before, s.cursor, k));
    match k
    case Char(ch) => CharKeepsShape(u, before, ch);
    case Tab => TabKeepsShape(u, before);
    case Enter => EnterKeepsShape(u, before);
    case Cut => CutKeepsShape(u, before);
    case Paste => PasteKeepsShape(u, before, system);
    case EraseSelection => assert u.anchor == None;
    case _ =>
  }

  lemma CharKeepsShape(u: Input, before: Option<Cursor>, ch: char)
    requires Shaped(u) && (before.Some? ==> before.value.lno < |u.lines|) && u.anchor == None
    requires CharOk(u.lines, before, u.cursor, ch)
    ensures Shaped(CharKey(u, before, ch))
  {
  }

  lemma TabKeepsShape(u: Input, before: Option<Cursor>)
    requires Shaped(u) && (before.Some? ==> before.value.lno < |u.lines|) && u.anchor == None
    requires TabOk(u.lines, before, u.cursor)
    ensures Shaped(TabKey(u, before))
  {
  }

  lemma EnterKeepsShape(u: Input, before: Option<Cursor>)
    requires Shaped(u) && (before.Some? ==> before.value.lno < |u.lines|) && u.anchor == None
    requires var (first, last) := Ends(before, u.cursor); EnterOk(u.lines, u.cursor.pos, first, last)
    ensures Shaped(EnterKey(u, before))
  {
    var (first, last) := Ends(before, u.cursor);
    var line := u.lines[first.lno];
    if BetweenBrackets(u.lines, u.cursor.pos, first, last) {
      EnterSplitsBrackets(u.lines, u.cursor.pos, first, last);
    } else {
      EnterAutoIndents(u.lines, u.cursor.pos, first, last);
    }
  }

  lemma CutKeepsShape(u: Input, before: Option<Cursor>)
    requires Shaped(u) && (before.Some? ==> before.value.lno < |u.lines|) && u.anchor == None
    ensures Shaped(CopyKey(u, before, true))
  {
  }

  lemma PasteKeepsShape(u: Input, before: Option<Cursor>, system: Option<string>)
    requires Shaped(u) && (before.Some? ==> before.value.lno < |u.lines|) && u.anchor == None
    requires ClearedOk(u.lines, before, u.cursor)
    ensures Shaped(PasteKey(u, before, system))
  {
    var clip := PasteSource(u.clipboard, system);
    var (d, at) := Cleared(u.lines, before, u.cursor);
    if clip != [] {
      PastedShape(d, clip, at);
    }
  }

  // ------------------------------------------------------------ round trips

  /** Backspace or delete over a selection: the text between the anchor and
      the cursor goes, the cursor lands on the selection's first end, the
      selection is dropped and the clipboard kept. */
  lemma OnEraseSelection(s: Input, marker: string, system: Option<string>, height: int)
    requires Shaped(s) && s.anchor.Some?
    ensures var r := OnKey(s, EraseSelection, marker, system, height);
            r.lines == Deleted(s.lines, s.anchor.value, s.cursor)
            && r.cursor == Ends(s.anchor, s.cursor).0 && r.anchor == None && r.clipboard == s.clipboard
  {
  }

  /** With both ends of the selection on characters, erasing it makes the
      selected lines one joined line and keeps the shape. */
  lemma EraseSelectionCollapses(s: Input, marker: string, system: Option<string>, height: int)
    requires Shaped(s) && s.anchor.Some? && At(s.lines, s.anchor.value) && At(s.lines, s.cursor)
    ensures var (first, last) := Ends(s.anchor, s.cursor);
            var r := OnKey(s, EraseSelection, marker, system, height);
            r.lines == Splice(s.lines, first.lno, last.lno + 1, [Joined(s.lines, first, last)])
            && Shaped(r)
  {
    OnEraseSelection(s, marker, system, height);
    DeletedCollapses(s.lines, s.anchor.value, s.cursor);
  }

  /** When the erased range reaches the end of the last line from the start
      of its own line, that line goes and the cursor is left one line past
      the document. */
  lemma EraseSelectionPastEnd(marker: string, system: Option<string>, height: int)
    ensures var s := Input(["a", "b"], Cursor(1, 1), Some(Cursor(1, 0)), []);
            var r := OnKey(s, EraseSelection, marker, system, height);
            Shaped(s) && r.lines == ["a"] && r.cursor == Cursor(1, 0) && !Shaped(r)
  {
    var lines := ["a", "b"];
    assert Joined(lines, Cursor(1, 0), Cursor(1, 1)) == "";
    assert Splice(lines, 1, 2, []) == ["a"];
  }

  /** A key that no branch handles still runs the anchor update: a key
      without shift drops the selection, one with shift keeps it or starts
      one at the cursor; nothing else changes. */
  lemma OnUnhandledKey(s: Input, shift: bool, marker: string, system: Option<string>, height: int)
    requires Shaped(s)
    ensures OnKey(s, Unhandled(shift), marker, system, height) ==
            s.(anchor := if shift then Some(AnchorOr(s.anchor, s.cursor)) else None)
  {
    AnchorAfterSelects(s.anchor, s.cursor, Unhandled(shift));
  }

  /** Cutting a selection whose ends are on characters and pasting right
      away gives the lines back, with the cursor at the selection's end and
      the cut text on the clipboard. */
  lemma CutThenPasteKeys(s: Input, marker: string, height: int)
    requires Shaped(s) && s.anchor.Some? && At(s.lines, s.anchor.value) && At(s.lines, s.cursor)
    ensures var t := OnKey(s, Cut, marker, None, height);
            Shaped(t) && KeyOk(t, Paste)
            && var u := OnKey(t, Paste, marker, None, height);
               u.lines == s.lines && u.cursor == Last(s.anchor.value, s.cursor)
               && u.anchor == None && u.clipboard == Copied(s.lines, s.anchor, s.cursor)
  {
    OnCutKey(s, marker, None, height);
    CutThenPasteState(s);
    var t := OnKey(s, Cut, marker, None, height);
    OnPasteKey(t, marker, None, height);
  }

  /** Cut clears the anchor and cuts the selection it had. */
  lemma OnCutKey(s: Input, marker: string, system: Option<string>, height: int)
    requires Shaped(s)
    ensures OnKey(s, Cut, marker, system, height) == CopyKey(s.(anchor := None), s.anchor, true)
  {
    assert AnchorAfter(s.anchor, s.cursor, Cut) == None;
  }

  /** Paste clears the anchor and pastes over the selection it had. */
  lemma OnPasteKey(s: Input, marker: string, system: Option<string>, height: int)
    requires Shaped(s) && ClearedOk(s.lines, s.anchor, s.cursor)
    ensures OnKey(s, Paste, marker, system, height) == PasteKey(s.(anchor := None), s.anchor, system)
  {
    assert AnchorAfter(s.anchor, s.cursor, Paste) == None;
  }

  lemma CutThenPasteState(s: Input)
    requires Shaped(s) && s.anchor.Some? && At(s.lines, s.anchor.value) && At(s.lines, s.cursor)
    ensures var t := CopyKey(s.(anchor := None), s.anchor, true);
            Shaped(t) && t.anchor == None && ClearedOk(t.lines, None, t.cursor)
            && var u := PasteKey(t, None, None);
               u.lines == s.lines && u.cursor == Last(s.anchor.value, s.cursor)
               && u.anchor == None && u.clipboard == Copied(s.lines, s.anchor, s.cursor)
  {
    CutThenPaste(s.lines, s.anchor.value, s.cursor);
    CutKeepsShape(s.(anchor := None), s.anchor);
  }

  /** The comment key toggles the selected lines, or does nothing when the
      language has no marker; it keeps the cursor, the anchor and the
      clipboard. */
  lemma OnToggleComment(s: Input, marker: string, system: Option<string>, height: int)
    requires Shaped(s)
    ensures var (first, last) := Ends(s.anchor, s.cursor);
            OnKey(s, ToggleComment, marker, system, height)
              == s.(lines := if marker != "" then Toggled(s.lines, first, last, marker) else s.lines)
  {
    assert AnchorAfter(s.anchor, s.cursor, ToggleComment) == s.anchor;
  }

  /** Toggling the comment twice over lines indented by spaces that were
      not all commented gives them back; the cursor and the anchor stay. */
  lemma CommentTwiceKeys(s: Input, marker: string, system: Option<string>, height: int)
    requires Shaped(s) && GoodMarker(marker)
    requires var e := Ends(s.anchor, s.cursor);
             !AllCommented(s.lines[e.0.lno..e.1.lno + 1], marker)
             && forall k :: e.0.lno <= k <= e.1.lno ==> SpaceIndented(s.lines[k])
    ensures var t := OnKey(s, ToggleComment, marker, system, height);
            Shaped(t) && OnKey(t, ToggleComment, marker, system, height) == s
  {
    var e := Ends(s.anchor, s.cursor);
    OnToggleComment(s, marker, system, height);
    var t := OnKey(s, ToggleComment, marker, system, height);
    OnToggleComment(t, marker, system, height);
    ToggleTwiceEnds(s, marker);
  }

  lemma ToggleTwiceEnds(s: Input, marker: string)
    requires Shaped(s) && GoodMarker(marker)
    requires var e := Ends(s.anchor, s.cursor);
             !AllCommented(s.lines[e.0.lno..e.1.lno + 1], marker)
             && forall k :: e.0.lno <= k <= e.1.lno ==> SpaceIndented(s.lines[k])
    ensures var e := Ends(s.anchor, s.cursor);
            Toggled(Toggled(s.lines, e.0, e.1, marker), e.0, e.1, marker) == s.lines
  {
    var e := Ends(s.anchor, s.cursor);
    ToggleTwice(s.lines, e.0, e.1, marker);
  }

  /** Tab over whole lines indents them, shifting the anchor and the cursor
      with their lines. */
  lemma OnIndentKey(s: Input, marker: string, system: Option<string>, height: int)
    requires Shaped(s)
    requires var (first, last) := Ends(s.anchor, s.cursor); !TabReplaces(s.lines, s.cursor, first, last)
    ensures OnKey(s, Tab, marker, system, height) == Indented(s.(anchor := None), s.anchor, false)
  {
    assert AnchorAfter(s.anchor, s.cursor, Tab) == None;
  }

  /** Shift+tab dedents the selected lines, shifting the anchor and the
      cursor with their lines. */
  lemma OnDedentKey(s: Input, marker: string, system: Option<string>, height: int)
    requires Shaped(s)
    ensures OnKey(s, ShiftTab, marker, system, height) == Indented(s, s.anchor, true)
  {
    assert AnchorAfter(s.anchor, s.cursor, ShiftTab) == s.anchor;
  }

  /** Tab over a selection of whole lines indented by spaces on tab stops,
      then shift+tab, gives the lines back; the cursor and the anchor come
      back too when their columns are not negative. */
  lemma IndentThenDedentKeys(s: Input, marker: string, system: Option<string>, height: int)
    requires Shaped(s) && s.anchor.Some?
    requires var (first, last) := Ends(s.anchor, s.cursor);
             !TabReplaces(s.lines, s.cursor, first, last)
             && forall k :: first.lno <= k <= last.lno ==> OnTabStop(s.lines[k]) && LStrip(s.lines[k]) != ""
    ensures var t := OnKey(s, Tab, marker, system, height);
            Shaped(t)
            && var u := OnKey(t, ShiftTab, marker, system, height);
               u.lines == s.lines
               && (s.cursor.pos >= 0 ==> u.cursor == s.cursor)
               && (s.anchor.value.pos >= 0 ==> u.anchor == s.anchor)
  {
    var (first, last) := Ends(s.anchor, s.cursor);
    OnIndentKey(s, marker, system, height);
    var t := OnKey(s, Tab, marker, system, height);
    OnDedentKey(t, marker, system, height);
    IndentThenDedent(s, first, last);
  }

  lemma IndentThenDedent(s: Input, first: Cursor, last: Cursor)
    requires Shaped(s) && s.anchor.Some? && (first, last) == Ends(s.anchor, s.cursor)
    requires forall k :: first.lno <= k <= last.lno ==> OnTabStop(s.lines[k]) && LStrip(s.lines[k]) != ""
    ensures var t := Indented(s.(anchor := None), s.anchor, false);
            var u := Indented(t, t.anchor, true);
            Shaped(t) && u.lines == s.lines
            && (s.cursor.pos >= 0 ==> u.cursor == s.cursor)
            && (s.anchor.value.pos >= 0 ==> u.anchor == s.anchor)
  {
    DedentUndoesIndentLines(s.lines, first, last);
    var a := s.anchor.value;
    var once := Reindented(s.lines, first, last, false);
    var c1 := ShiftedIn(s.lines, first, last, false, s.cursor);
    var a1 := ShiftedIn(s.lines, first, last, false, a);
    var t := Indented(s.(anchor := None), s.anchor, false);
    assert t == s.(lines := once, anchor := Some(a1), cursor := c1);
    var e := Ends(t.anchor, t.cursor);
    assert e.0.lno == first.lno && e.1.lno == last.lno;
    CursorShiftsBack(s.lines, first, last, e.0, e.1, s.cursor);
    CursorShiftsBack(s.lines, first, last, e.0, e.1, a);
  }

  /** A cursor in a selection of lines on tab stops, shifted by an indent
      and then by a dedent, comes back when its column is not negative. */
  lemma CursorShiftsBack(lines: seq<string>, first: Cursor, last: Cursor, first2: Cursor, last2: Cursor, c: Cursor)
    requires first.lno <= c.lno <= last.lno < |lines|
    requires first2.lno == first.lno && last2.lno == last.lno
    requires forall k :: first.lno <= k <= last.lno ==> OnTabStop(lines[k]) && LStrip(lines[k]) != ""
    ensures c.pos >= 0 ==>
              ShiftedIn(Reindented(lines, first, last, false), first2, last2, true,
                        ShiftedIn(lines, first, last, false, c)) == c
  {
    var line := lines[c.lno];
    var once := Reindented(lines, first, last, false);
    ShiftedInLine(lines, first, last, false, c);
    ShiftedInLine(once, first2, last2, true, ShiftedIn(lines, first, last, false, c));
    ReindentedInside(lines, first, last, false, c.lno);
    DedentUndoesIndent(line);
    IndentLonger(line);
  }

  /** A shifted cursor moves by the change of length of its own line. */
  lemma ShiftedInLine(lines: seq<string>, first: Cursor, last: Cursor, dedent: bool, c: Cursor)
    requires first.lno <= c.lno <= last.lno < |lines|
    ensures var line := lines[c.lno];
            ShiftedIn(lines, first, last, dedent, c)
              == if c.pos == 0 then c else Cursor(c.lno, c.pos + |Reindent(line, dedent)| - |line|)
  {
    var before := lines[first.lno..last.lno + 1];
    ReindentAllAt(before, dedent, c.lno - first.lno);
    assert before[c.lno - first.lno] == lines[c.lno];
  }

  /** Indenting lengthens a line. */
  lemma IndentLonger(line: string)
    ensures |Reindent(line, false)| > |line|
  {
    NewStopsBounds(LeadingWidth(line), false);
  }
}

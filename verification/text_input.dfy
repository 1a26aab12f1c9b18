/** The older TextInput widget as an object: its lines, cursor, selection
    anchor and clipboard are fields that its helpers and key handler update
    in place. Every method is specified by the functions of TextInputRules
    and TextInputKeys. */
module TextInputWidget {
  import opened TextUtil
  import opened TextInputRules
  import opened TextInputKeys
  import Serde

  /** The clipboard lines glued around a cut line, built the way the widget
      builds them: the head is prefixed to the first line, then the tail
      appended to the last. */
  lemma GlueByUpdates(head: string, clip: seq<string>, tail: string)
    requires |clip| > 0
    ensures var g := clip[0 := head + clip[0]];
            g[|g| - 1 := g[|g| - 1] + tail] == Glue(head, clip, tail)
  {
    var g := clip[0 := head + clip[0]];
    var r := g[|g| - 1 := g[|g| - 1] + tail];
    var n := |clip|;
    if n > 1 {
      var glued := Glue(head, clip, tail);
      forall i | 0 <= i < n ensures r[i] == glued[i] {
        if 0 < i < n - 1 {
          assert glued[i] == clip[1..n - 1][i - 1];
        }
      }
    }
  }

  /** Pasting a non-empty clipboard, written the way the widget does it:
      the clipboard glued around the split line replaces that line, and the
      cursor goes before the tail on the last pasted line. */
  lemma PastedByUpdates(lines: seq<string>, clip: seq<string>, at: Cursor)
    requires at.lno < |lines| && |clip| > 0
    ensures var head := Head(lines[at.lno], at.pos);
            var tail := Tail(lines[at.lno], at.pos);
            var g := clip[0 := head + clip[0]];
            var r := lines[..at.lno] + g[|g| - 1 := g[|g| - 1] + tail] + lines[at.lno + 1..];
            Pasted(lines, clip, at) == (r, Cursor(at.lno + |clip| - 1, |r[at.lno + |clip| - 1]| - |tail|))
  {
    GlueByUpdates(Head(lines[at.lno], at.pos), clip, Tail(lines[at.lno], at.pos));
  }

  /** Paste in three steps: the clipboard is chosen, the selection is
      cleared, and the clipboard goes in where the selection began. */
  lemma PasteKeyBy(s: Input, a: Option<Cursor>, system: Option<string>)
    requires Shaped(s) && (a.Some? ==> a.value.lno < |s.lines|)
    requires ClearedOk(s.lines, a, s.cursor)
    ensures var clip := PasteSource(s.clipboard, system);
            var c := Cleared(s.lines, a, s.cursor);
            var p := Pasted(c.0, clip, c.1);
            PasteKey(s, a, system) == s.(lines := p.0, cursor := p.1, clipboard := clip)
  {
  }

  /** Enter replaces the lines and the cursor by those of Entered over the
      selection's ends. */
  lemma EnterKeyBy(s: Input, before: Option<Cursor>)
    requires Shaped(s) && (before.Some? ==> before.value.lno < |s.lines|)
    requires var e := Ends(before, s.cursor); EnterOk(s.lines, s.cursor.pos, e.0, e.1)
    ensures var e := Ends(before, s.cursor);
            var r := Entered(s.lines, s.cursor.pos, e.0, e.1);
            EnterKey(s, before) == s.(lines := r.0, cursor := r.1)
  {
  }

  /** Enter between an opening bracket and its closer, written the way the
      widget computes it from the selected lines: the head keeps the
      trailing space, a line indented to the next tab stop takes the cursor,
      and the tail goes on a line indented like the first. */
  lemma BracketEnterBy(lines: seq<string>, selfPos: int, first: Cursor, last: Cursor, picked: seq<string>,
                        r: seq<string>, c: Cursor)
    requires EnterOk(lines, selfPos, first, last) && picked == lines[first.lno..last.lno + 1]
    requires var cb := CharBefore(lines[first.lno], selfPos, first.pos);
             cb.Some? && IsBracket(cb.value) && CloserOf(cb.value) == CharAt(lines[last.lno], last.pos)
    requires var indent := if IsBlank(picked[0]) then 0 else |picked[0]| - |LStrip(picked[0])|;
             var deeper := indent + TabSize - indent % TabSize;
             r == lines[..first.lno] + [Head(picked[0], first.pos) + " ", Spaces(deeper) + " ",
                                        Spaces(indent) + LStrip(Tail(picked[|picked| - 1], last.pos))] + lines[last.lno + 1..]
             && c == Cursor(first.lno + 1, deeper)
    ensures Entered(lines, selfPos, first, last) == (r, c)
  {
    assert picked[0] == lines[first.lno] && picked[|picked| - 1] == lines[last.lno];
  }

  /** Enter anywhere else: the head keeps the trailing space and the rest
      of the last line goes on a line indented like the first, the cursor
      at the start of that text or at the first endpoint's column if that
      is smaller. */
  lemma PlainEnterBy(lines: seq<string>, selfPos: int, first: Cursor, last: Cursor, picked: seq<string>)
    requires EnterOk(lines, selfPos, first, last) && picked == lines[first.lno..last.lno + 1]
    requires var cb := CharBefore(lines[first.lno], selfPos, first.pos);
             !(cb.Some? && IsBracket(cb.value) && CloserOf(cb.value) == CharAt(lines[last.lno], last.pos))
    ensures var indent := if IsBlank(picked[0]) then 0 else |picked[0]| - |LStrip(picked[0])|;
            var rest := LStrip(Tail(picked[|picked| - 1], last.pos));
            Entered(lines, selfPos, first, last)
              == (lines[..first.lno] + [Head(picked[0], first.pos) + " ", Spaces(indent) + (if rest == "" then " " else rest)]
                    + lines[last.lno + 1..],
                  Cursor(first.lno + 1, if first.pos < indent then first.pos else indent))
  {
    assert picked[0] == lines[first.lno] && picked[|picked| - 1] == lines[last.lno];
  }

  /** Cut, written the way the widget computes it: the copied range is
      deleted, then the cursor is clamped to the first endpoint's line and
      column in what is left. */
  lemma CutLinesBy(lines: seq<string>, anchor: Option<Cursor>, cursor: Cursor, first: Cursor, last: Cursor)
    requires cursor.lno < |lines| && (anchor.Some? ==> anchor.value.lno < |lines|)
    requires (first, last) == CopyRange(lines, anchor, cursor)
    ensures var r := Deleted(lines, first, last);
            var lno := if first.lno < |r| - 1 then first.lno else |r| - 1;
            CutLines(lines, anchor, cursor)
              == (r, Cursor(lno, if first.pos < |r[lno]| - 1 then first.pos else |r[lno]| - 1))
  {
  }

  /** Copy sets the clipboard; cut also takes the lines and the cursor of
      CutLines. */
  lemma CopyKeyBy(s: Input, before: Option<Cursor>, cut: bool)
    requires Shaped(s) && (before.Some? ==> before.value.lno < |s.lines|)
    ensures var clip := Copied(s.lines, before, s.cursor);
            var r := CutLines(s.lines, before, s.cursor);
            CopyKey(s, before, cut)
              == if cut then s.(lines := r.0, cursor := r.1, clipboard := clip) else s.(clipboard := clip)
  {
  }

  /** A list whose every line is the reindented line of picked is the
      reindented list. */
  lemma AllReindented(picked: seq<string>, newLines: seq<string>, dedent: bool)
    requires |newLines| == |picked|
    requires forall j :: 0 <= j < |picked| ==> newLines[j] == Reindent(picked[j], dedent)
    ensures newLines == ReindentAll(picked, dedent)
  {
    forall j | 0 <= j < |picked| ensures newLines[j] == ReindentAll(picked, dedent)[j] {
      ReindentAllAt(picked, dedent, j);
    }
  }

  /** Indentation written the way the widget computes it: the picked lines
      replaced by their reindented copies, and each shifted cursor moved by
      its own line's change of length. */
  lemma IndentedBy(s: Input, a: Option<Cursor>, dedent: bool, first: Cursor, last: Cursor,
                   picked: seq<string>, newLines: seq<string>)
    requires Shaped(s) && (a.Some? ==> a.value.lno < |s.lines|)
    requires (first, last) == Ends(a, s.cursor) && last.lno < |s.lines|
    requires picked == s.lines[first.lno..last.lno + 1] && newLines == ReindentAll(picked, dedent)
    ensures Indented(s, a, dedent)
              == s.(lines := s.lines[..first.lno] + newLines + s.lines[last.lno + 1..],
                    anchor := if a.Some? then Some(Shifted(a.value, first.lno, picked, newLines)) else s.anchor,
                    cursor := Shifted(s.cursor, first.lno, picked, newLines))
  {
  }

  class TextInput {
    var lines: seq<string>
    var cursor: Cursor
    var anchor: Option<Cursor>
    var clipboard: seq<string>
    /** The language's inline comment marker; empty when it has none. */
    const marker: string

    function State(): Input
      reads this
    {
      Input(lines, cursor, anchor, clipboard)
    }

    /** An empty widget holds one line made of the trailing space. */
    constructor(marker: string)
      ensures State() == Input([" "], Cursor(0, 0), None, []) && Shaped(State())
      ensures this.marker == marker
    {
      lines := [" "];
      cursor := Cursor(0, 0);
      anchor := None;
      clipboard := [];
      this.marker := marker;
    }

    /** The lines between the anchor, or the cursor when there is none, and
      the cursor, with the two ends in order. */
    static method GetSelectedLines(lines: seq<string>, maybeAnchor: Option<Cursor>, c: Cursor)
      returns (picked: seq<string>, first: Cursor, last: Cursor)
      requires c.lno < |lines| && (maybeAnchor.Some? ==> maybeAnchor.value.lno < |lines|)
      ensures (first, last) == Ends(maybeAnchor, c)
      ensures Le(first, last) && last.lno < |lines|
      ensures picked == lines[first.lno..last.lno + 1] && |picked| == last.lno - first.lno + 1
    {
      var a := if maybeAnchor.Some? then maybeAnchor.value else c;
      first := if Le(a, c) then a else c;
      last := if Le(c, a) then a else c;
      picked := lines[first.lno..last.lno + 1];
    }

    method InsertCharacterAtCursor(text: string, at: Cursor)
      requires at.lno < |lines|
      modifies this
      ensures lines == Inserted(old(lines), at, text)
      ensures cursor == old(cursor) && anchor == old(anchor) && clipboard == old(clipboard)
    {
      var line := lines[at.lno];
      var newLine := Head(line, at.pos) + text + Tail(line, at.pos);
      lines := lines[at.lno := newLine];
    }

    /** Deletes the range between a and c; the cursor goes to its start. */
    method DeleteSelection(a: Cursor, c: Cursor)
      requires a.lno < |lines| && c.lno < |lines|
      modifies this
      ensures lines == Deleted(old(lines), a, c) && cursor == First(a, c)
      ensures anchor == old(anchor) && clipboard == old(clipboard)
    {
      var oldLines, first, last := GetSelectedLines(lines, Some(a), c);
      var head := Head(oldLines[0], first.pos);
      var tail := Tail(oldLines[|oldLines| - 1], last.pos);
      var newLine := head + tail;
      if newLine != "" {
        lines := lines[..first.lno] + [newLine] + lines[last.lno + 1..];
      } else {
        lines := lines[..first.lno] + lines[last.lno + 1..];
        if lines == [] {
          lines := [" "];
        }
      }
      cursor := Cursor(first.lno, first.pos);
    }

    /** Puts ch before the selection and its closer after it. */
    method InsertCharactersAroundSelection(ch: char, a: Cursor)
      requires HasCloser(ch) && a.lno < |lines| && cursor.lno < |lines|
      modifies this
      ensures (lines, cursor) == Around(old(lines), ch, a, old(cursor))
      ensures anchor == old(anchor) && clipboard == old(clipboard)
    {
      var first := First(a, cursor);
      var last := Last(a, cursor);
      InsertCharacterAtCursor([ch], first);
      if first.lno == last.lno {
        cursor := Cursor(last.lno, last.pos + 1);
      } else {
        cursor := last;
      }
      InsertCharacterAtCursor([CloserOf(ch)], cursor);
    }

    /** Types ch at the cursor with nothing selected, closing it when it
      opens a pair at the end of the line. */
    method InsertClosedCharacterAtCursor(ch: char)
      requires ClosedCharOk(lines, cursor.pos, ch, cursor)
      modifies this
      ensures (lines, cursor) == ClosedChar(old(lines), old(cursor).pos, ch, old(cursor))
      ensures anchor == old(anchor) && clipboard == old(clipboard)
    {
      var at := cursor;
      if CharAt(lines[at.lno], at.pos) == ch {
        cursor := Cursor(at.lno, at.pos + 1);
      } else {
        var prev := CharBefore(lines[at.lno], cursor.pos, at.pos);
        InsertCharacterAtCursor([ch], at);
        cursor := Cursor(at.lno, at.pos + 1);
        if HasCloser(ch) && cursor.pos == |lines[cursor.lno]| - 1
           && (prev.None? || prev == Some(' ') || IsBracket(ch))
        {
          InsertCharacterAtCursor([CloserOf(ch)], cursor);
        }
      }
    }

    /** Reindents each line to the next (or, for a dedent, the previous)
      tab stop. */
    static method ReindentLines(picked: seq<string>, dedent: bool) returns (newLines: seq<string>)
      ensures newLines == ReindentAll(picked, dedent)
    {
      newLines := [];
      var i := 0;
      while i < |picked|
        invariant 0 <= i <= |picked| && |newLines| == i
        invariant forall j :: 0 <= j < i ==> newLines[j] == Reindent(picked[j], dedent)
      {
        var line := picked[i];
        var lead := |line| - |LStrip(line)|;
        var tabs := if dedent then (lead + TabSize - 1) / TabSize else lead / TabSize;
        var stops := if dedent then (if tabs == 0 then 0 else tabs - 1) else tabs + 1;
        assert stops == NewStops(LeadingWidth(line), dedent);
        newLines := newLines + [Spaces(TabSize * stops) + LStrip(line)];
        i := i + 1;
      }
      AllReindented(picked, newLines, dedent);
    }

    /** A cursor on a reindented line: kept at column 0, and otherwise moved
      by the change of its line's length. */
    static method ShiftWithLine(c: Cursor, firstLno: nat, picked: seq<string>, newLines: seq<string>)
      returns (r: Cursor)
      requires firstLno <= c.lno < firstLno + |picked| && |newLines| == |picked|
      ensures r == Shifted(c, firstLno, picked, newLines)
    {
      var change := |newLines[c.lno - firstLno]| - |picked[c.lno - firstLno]|;
      r := if c.pos == 0 then c else Cursor(c.lno, c.pos + change);
    }

    /** Reindents the selected lines and shifts the anchor, if one is given,
      and the cursor with their lines. */
    method IndentSelection(a: Option<Cursor>, dedent: bool)
      requires Shaped(State()) && (a.Some? ==> a.value.lno < |lines|)
      modifies this
      ensures State() == Indented(old(State()), a, dedent)
    {
      ghost var s0 := State();
      var picked, first, last := GetSelectedLines(lines, a, cursor);
      var newLines := ReindentLines(picked, dedent);
      lines := lines[..first.lno] + newLines + lines[last.lno + 1..];
      if a.Some? {
        var shifted := ShiftWithLine(a.value, first.lno, picked, newLines);
        anchor := Some(shifted);
      }
      cursor := ShiftWithLine(cursor, first.lno, picked, newLines);
      IndentedBy(s0, a, dedent, first, last, picked, newLines);
    }

    /** Pastes over the selection, if any: the system clipboard, when it
      could be read, replaces the widget's own first. */
    method InsertClipboardAtSelection(a: Option<Cursor>, system: Option<string>)
      requires Shaped(State()) && (a.Some? ==> a.value.lno < |lines|)
      requires ClearedOk(lines, a, cursor)
      modifies this
      ensures State() == PasteKey(old(State()), a, system)
    {
      PasteKeyBy(State(), a, system);
      ghost var cleared := Cleared(lines, a, cursor);
      if system.Some? {
        clipboard := Serde.Deserialize(system.value, true);
      }
      if a.Some? {
        DeleteSelection(a.value, cursor);
      }
      assert (lines, cursor) == cleared;
      PasteAtCursor();
    }

    /** The clipboard goes in at the cursor: its first line after the head
      of the cursor's line, its last line before the tail. */
    method PasteAtCursor()
      requires cursor.lno < |lines|
      modifies this
      ensures (lines, cursor) == Pasted(old(lines), clipboard, old(cursor))
      ensures anchor == old(anchor) && clipboard == old(clipboard)
    {
      var at := cursor;
      var head := Head(lines[at.lno], at.pos);
      var tail := Tail(lines[at.lno], at.pos);
      var clipLen := |clipboard|;
      if clipLen != 0 {
        PastedByUpdates(lines, clipboard, at);
        var newLines := clipboard;
        newLines := newLines[0 := head + newLines[0]];
        newLines := newLines[clipLen - 1 := newLines[clipLen - 1] + tail];
        lines := lines[..at.lno] + newLines + lines[at.lno + 1..];
        cursor := Cursor(at.lno + clipLen - 1, |lines[at.lno + clipLen - 1]| - |tail|);
      }
    }

    /** Moves the cursor to column x of line y, clamped into the document. */
    method MoveCursor(x: int, y: int)
      requires |lines| > 0
      modifies this
      ensures lines == old(lines) && anchor == old(anchor) && clipboard == old(clipboard)
      ensures cursor == Clamp(lines, x, y)
    {
      var maxY := |lines| - 1;
      var safeY := if y > maxY then maxY else y;
      safeY := if safeY < 0 then 0 else safeY;
      var maxX := |lines[safeY]| - 1;
      var safeX := if x > maxX then maxX else x;
      safeX := if safeX < 0 then 0 else safeX;
      cursor := Cursor(safeY, safeX);
    }

    // ---------------------------------------------------------- key branches

    /** A printable key, quotes and brackets included; before is the anchor
      as it was before the key. */
    method TypeCharacter(ch: char, before: Option<Cursor>)
      requires Shaped(State()) && (before.Some? ==> before.value.lno < |lines|)
      requires CharOk(lines, before, cursor, ch)
      modifies this
      ensures State() == CharKey(old(State()), before, ch)
    {
      if IsQuoteOrBracket(ch) && before.None? {
        InsertClosedCharacterAtCursor(ch);
      } else if IsQuoteOrBracket(ch) && !IsClosingBracket(ch) {
        InsertCharactersAroundSelection(ch, before.value);
      } else {
        if before.Some? {
          DeleteSelection(before.value, cursor);
        }
        InsertCharacterAtCursor([ch], cursor);
        cursor := Cursor(cursor.lno, cursor.pos + 1);
      }
    }

    method PressTab(before: Option<Cursor>)
      requires Shaped(State()) && (before.Some? ==> before.value.lno < |lines|)
      requires TabOk(lines, before, cursor)
      modifies this
      ensures State() == TabKey(old(State()), before)
    {
      var picked, first, last := GetSelectedLines(lines, before, cursor);
      if first.lno == last.lno
         && (first.pos == last.pos || first.pos != 0 || last.pos != |lines[cursor.lno]| - 1)
      {
        DeleteSelection(first, last);
        var indent := TabSize - first.pos % TabSize;
        InsertCharacterAtCursor(Spaces(indent), first);
        cursor := Cursor(first.lno, first.pos + indent);
      } else {
        IndentSelection(before, false);
      }
    }

    /** Enter: the selection, or the cursor's position, is replaced by a
      line break; see Entered. */
    method PressEnter(before: Option<Cursor>)
      requires Shaped(State()) && (before.Some? ==> before.value.lno < |lines|)
      requires var e := Ends(before, cursor); EnterOk(lines, cursor.pos, e.0, e.1)
      modifies this
      ensures State() == EnterKey(old(State()), before)
    {
      EnterKeyBy(State(), before);
      var oldLines, first, last := GetSelectedLines(lines, before, cursor);
      var newLines, newCursor := BreakLines(lines, cursor.pos, first, last, oldLines);
      lines := newLines;
      cursor := newCursor;
    }

    /** The lines and the cursor after enter over the selected lines picked,
      from first to last; selfPos is the cursor's column. */
    static method BreakLines(lines: seq<string>, selfPos: int, first: Cursor, last: Cursor, oldLines: seq<string>)
      returns (newLines: seq<string>, newCursor: Cursor)
      requires EnterOk(lines, selfPos, first, last) && oldLines == lines[first.lno..last.lno + 1]
      ensures (newLines, newCursor) == Entered(lines, selfPos, first, last)
    {
      var head := Head(oldLines[0], first.pos) + " ";
      var tail := Tail(oldLines[|oldLines| - 1], last.pos);
      var indent := if IsBlank(oldLines[0]) then 0 else |oldLines[0]| - |LStrip(oldLines[0])|;
      var charBefore := CharBefore(lines[first.lno], selfPos, first.pos);
      if charBefore.Some? && IsBracket(charBefore.value)
         && CloserOf(charBefore.value) == CharAt(lines[last.lno], last.pos)
      {
        var newIndent := indent + TabSize - indent % TabSize;
        newLines := lines[..first.lno] + [head, Spaces(newIndent) + " ", Spaces(indent) + LStrip(tail)] + lines[last.lno + 1..];
        newCursor := Cursor(first.lno + 1, newIndent);
        BracketEnterBy(lines, selfPos, first, last, oldLines, newLines, newCursor);
      } else {
        var rest := LStrip(tail);
        newLines := lines[..first.lno] + [head, Spaces(indent) + (if rest == "" then " " else rest)] + lines[last.lno + 1..];
        newCursor := Cursor(first.lno + 1, if first.pos < indent then first.pos else indent);
        PlainEnterBy(lines, selfPos, first, last, oldLines);
      }
    }

    /** The comment toggle over the selected lines, when the language has a
      marker. */
    method ToggleCommentKey(before: Option<Cursor>)
      requires Shaped(State()) && (before.Some? ==> before.value.lno < |lines|)
      modifies this
      ensures var e := Ends(before, old(cursor));
              lines == (if marker != "" then Toggled(old(lines), e.0, e.1, marker) else old(lines))
      ensures cursor == old(cursor) && anchor == old(anchor) && clipboard == old(clipboard)
    {
      if marker != "" {
        lines := ToggleSelectedLines(lines, before, cursor, marker);
      }
    }

    /** The selected lines replaced by their toggled form, the rest kept. */
    static method ToggleSelectedLines(lines: seq<string>, before: Option<Cursor>, c: Cursor, marker: string)
      returns (r: seq<string>)
      requires c.lno < |lines| && (before.Some? ==> before.value.lno < |lines|)
      ensures var e := Ends(before, c); r == Toggled(lines, e.0, e.1, marker)
    {
      var picked, first, last := GetSelectedLines(lines, before, c);
      r := lines[..first.lno] + ToggleAll(picked, marker) + lines[last.lno + 1..];
    }

    /** Copy, and for cut also delete, the selection or the cursor's line. */
    method CopyOrCut(before: Option<Cursor>, cut: bool)
      requires Shaped(State()) && (before.Some? ==> before.value.lno < |lines|)
      modifies this
      ensures State() == CopyKey(old(State()), before, cut)
    {
      ghost var s0 := State();
      var clip, first, last := CopySelection(lines, before, cursor);
      clipboard := clip;
      if cut {
        DeleteSelection(first, last);
        var newLno := if first.lno < |lines| - 1 then first.lno else |lines| - 1;
        cursor := Cursor(newLno, if first.pos < |lines[newLno]| - 1 then first.pos else |lines[newLno]| - 1);
        CutLinesBy(s0.lines, before, s0.cursor, first, last);
      }
      CopyKeyBy(s0, before, cut);
    }

    /** The text a copy takes: the selection line by line, or the cursor's
      whole line and an empty line; first and last bound what a cut deletes. */
    static method CopySelection(lines: seq<string>, before: Option<Cursor>, cursor: Cursor)
      returns (clip: seq<string>, first: Cursor, last: Cursor)
      requires cursor.lno < |lines| && (before.Some? ==> before.value.lno < |lines|)
      ensures clip == Copied(lines, before, cursor)
      ensures (first, last) == CopyRange(lines, before, cursor)
    {
      if before.Some? {
        clip, first, last := GetSelectedLines(lines, before, cursor);
      } else {
        clip := [lines[cursor.lno], ""];
        first := Cursor(cursor.lno, 0);
        last := Cursor(cursor.lno, |lines[cursor.lno]|);
      }
      clip := clip[|clip| - 1 := Head(clip[|clip| - 1], last.pos)];
      clip := clip[0 := Tail(clip[0], first.pos)];
    }

    // ------------------------------------------------------------- handlers

    /** The anchor update at the head of on_key; returns the anchor the key
      found. */
    method UpdateAnchor(k: Key) returns (before: Option<Cursor>)
      modifies this
      ensures before == old(anchor) && anchor == AnchorAfter(before, cursor, k)
      ensures lines == old(lines) && cursor == old(cursor) && clipboard == old(clipboard)
    {
      before := anchor;
      if KeepsSelection(k) {
      } else if k == SelectAll {
        anchor := Some(Cursor(0, 0));
      } else if before.None? && IsShifted(k) {
        anchor := Some(cursor);
      } else if before.Some? && !IsShifted(k) {
        anchor := None;
      }
    }

    /** The keys that edit the text in place: a character, tab, shift+tab,
      enter, and backspace or delete over a selection. */
    method EditKey(k: Key, before: Option<Cursor>, ghost system: Option<string>, ghost height: int)
      requires k.Char? || k.Tab? || k.ShiftTab? || k.Enter? || k.EraseSelection?
      requires Shaped(State().(anchor := before)) && KeyOk(State().(anchor := before), k)
      requires anchor == AnchorAfter(before, cursor, k)
      modifies this
      ensures State() == TextInputKeys.OnKey(old(State()).(anchor := before), k, marker, system, height)
    {
      match k {
      case Char(ch) => TypeCharacter(ch, before);
      case Tab => PressTab(before);
      case ShiftTab => IndentSelection(before, true);
      case Enter => PressEnter(before);
      case EraseSelection => DeleteSelection(before.value, cursor);
      }
    }

    /** The comment toggle and the clipboard keys. */
    method ClipboardKey(k: Key, before: Option<Cursor>, system: Option<string>, ghost height: int)
      requires k.ToggleComment? || k.Copy? || k.Cut? || k.Paste?
      requires Shaped(State().(anchor := before)) && KeyOk(State().(anchor := before), k)
      requires anchor == AnchorAfter(before, cursor, k)
      modifies this
      ensures State() == TextInputKeys.OnKey(old(State()).(anchor := before), k, marker, system, height)
    {
      match k {
      case ToggleComment => ToggleCommentKey(before);
      case Copy => CopyOrCut(before, false);
      case Cut => CopyOrCut(before, true);
      case Paste => InsertClipboardAtSelection(before, system);
      }
    }

    /** The keys that leave the text alone: navigation, scrolling, the keys
      that keep the selection without an edit and those no branch handles. */
    method OtherKey(k: Key, before: Option<Cursor>, ghost system: Option<string>, height: int)
      requires !(k.Char? || k.Tab? || k.ShiftTab? || k.Enter? || k.EraseSelection?)
      requires !(k.ToggleComment? || k.Copy? || k.Cut? || k.Paste?)
      requires Shaped(State().(anchor := before)) && Shaped(State())
      requires anchor == AnchorAfter(before, cursor, k)
      modifies this
      ensures State() == TextInputKeys.OnKey(old(State()).(anchor := before), k, marker, system, height)
    {
      if Navigates(k) {
        Navigate(k, height);
      }
    }

    /** The navigation keys: the cursor moves and nothing else changes. */
    method Navigate(k: Key, height: int)
      requires Shaped(State()) && Navigates(k)
      modifies this
      ensures lines == old(lines) && anchor == old(anchor) && clipboard == old(clipboard)
      ensures cursor == Moved(old(lines), old(cursor), k, height)
    {
      match k {
      case PageUp(_) => MoveCursor(cursor.pos, cursor.lno - height + 1);
      case PageDown(_) => MoveCursor(cursor.pos, cursor.lno + height - 1);
      case Home(_) => cursor := Cursor(cursor.lno, 0);
      case End(_) => cursor := Cursor(cursor.lno, |lines[cursor.lno]| - 1);
      case DocStart => cursor := Cursor(0, 0);
      case DocEnd => cursor := Cursor(|lines| - 1, |lines[|lines| - 1]| - 1);
      case SelectAll => cursor := Cursor(|lines| - 1, |lines[|lines| - 1]| - 1);
      }
    }

    /** One key press: the anchor update, then the key's branch. system is
      the system clipboard's text when it is in use and readable; height is
      the visible height. */
    method OnKey(k: Key, system: Option<string>, height: int)
      requires Shaped(State()) && KeyOk(State(), k)
      modifies this
      ensures State() == TextInputKeys.OnKey(old(State()), k, marker, system, height)
      ensures k != EraseSelection || ClearedOk(old(lines), old(anchor), old(cursor)) ==> Shaped(State())
    {
      if k != EraseSelection || ClearedOk(lines, anchor, cursor) {
        OnKeyKeepsShape(State(), k, marker, system, height);
      }
      var before := UpdateAnchor(k);
      if k.Char? || k.Tab? || k.ShiftTab? || k.Enter? || k.EraseSelection? {
        EditKey(k, before, system, height);
      } else if k.ToggleComment? || k.Copy? || k.Cut? || k.Paste? {
        ClipboardKey(k, before, system, height);
      } else {
        OtherKey(k, before, system, height);
      }
    }

    method OnPaste(system: Option<string>)
      requires Shaped(State()) && ClearedOk(lines, anchor, cursor)
      modifies this
      ensures State() == TextInputKeys.OnPaste(old(State()), system)
    {
      var before := anchor;
      anchor := None;
      InsertClipboardAtSelection(before, system);
    }
  }
}

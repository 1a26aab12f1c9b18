/** The newer editor widget as an object: its document, selection, undo and
    redo stacks and active completer are fields that its actions update in
    place. Each action is specified by the reference functions of History,
    EditingRules, CommentToggle and Completion. Messages to the completion
    list are returned to the caller (TextEditor) rather than queued. */
module TextAreaPlusWidget {
  import opened TextUtil
  import opened LineBuffer
  import opened History
  import opened EditingRules
  import opened CommentToggle
  import opened Completion

  /** A snapshot that can be restored: its selection addresses its text. */
  predicate SnapshotValid(s: Snapshot)
  {
    State(s.lines, s.sel).Valid()
  }

  predicate AllSnapshotsValid(stack: seq<Snapshot>)
  {
    forall i :: 0 <= i < |stack| ==> SnapshotValid(stack[i])
  }

  lemma PushValid(stack: seq<Snapshot>, s: Snapshot)
    requires |stack| <= UndoSize && AllSnapshotsValid(stack) && SnapshotValid(s)
    ensures AllSnapshotsValid(Push(stack, s))
  {
  }

  lemma ReplaceTopValid(stack: seq<Snapshot>, s: Snapshot)
    requires |stack| > 0 && AllSnapshotsValid(stack) && SnapshotValid(s)
    ensures AllSnapshotsValid(stack[|stack| - 1 := s])
  {
  }

  class TextAreaPlus {
    var lines: seq<string>
    var sel: Selection
    var undo: seq<Snapshot>
    var redo: seq<Snapshot>
    var mode: Mode
    const style: IndentStyle
    /** The language's inline comment marker; empty when it has none. */
    const marker: string

    predicate Valid()
      reads this
    {
      Doc().Valid() && Stacks(undo, redo).Valid() && style.Valid()
      && AllSnapshotsValid(undo) && AllSnapshotsValid(redo)
    }

    function Doc(): State
      reads this
    {
      State(lines, sel)
    }

    function History(): Stacks
      reads this
    {
      Stacks(undo, redo)
    }

    function Current(): Snapshot
      reads this
    {
      Snapshot(lines, sel)
    }

    constructor(text: seq<string>, style: IndentStyle, marker: string)
      requires |text| > 0 && style.Valid()
      ensures Valid()
      ensures lines == text && sel == CursorAt(Location(0, 0))
      ensures undo == [] && redo == [] && mode == NoMode
      ensures this.style == style && this.marker == marker
    {
      lines := text;
      sel := CursorAt(Location(0, 0));
      undo := [];
      redo := [];
      mode := NoMode;
      this.style := style;
      this.marker := marker;
    }

    /** Appends to a bounded stack, dropping the oldest entry when it is full. */
    static method Append(stack: seq<Snapshot>, s: Snapshot) returns (r: seq<Snapshot>)
      requires |stack| <= UndoSize
      ensures r == Push(stack, s)
    {
      r := stack;
      if |r| == UndoSize {
        r := r[1..];
      }
      r := r + [s];
    }

    method CreateUndoSnapshot()
      requires Valid()
      modifies this
      ensures Valid()
      ensures lines == old(lines) && sel == old(sel) && mode == old(mode)
      ensures History() == TakeSnapshot(old(History()), old(Current()))
    {
      var snap := Snapshot(lines, sel);
      if |undo| > 0 && undo[|undo| - 1] == snap {
        return;
      } else if |undo| > 0 && undo[|undo| - 1].lines == snap.lines {
        ReplaceTopValid(undo, snap);
        undo := undo[|undo| - 1 := snap];
      } else {
        PushValid(undo, snap);
        undo := Append(undo, snap);
        if |redo| > 0 {
          redo := [];
        }
      }
    }

    /** Undo; the returned message hides the completion list. */
    method UndoAction() returns (post: Post)
      requires Valid()
      modifies this
      ensures Valid() && post == Hide && mode == old(mode)
      ensures var u := Undo(old(History()), old(Current()));
              History() == u.stacks
              && (u.restore.Some? ==> Current() == u.restore.value)
              && (u.restore.None? ==> Current() == old(Current()))
    {
      post := Hide;
      CreateUndoSnapshot();
      ghost var h := History();
      assert h == TakeSnapshot(old(History()), old(Current()));
      if |undo| > 1 {
        var current := undo[|undo| - 1];
        PushValid(redo, current);
        undo := undo[..|undo| - 1];
        redo := Append(redo, current);
        var prev := undo[|undo| - 1];
        assert SnapshotValid(prev);
        lines := prev.lines;
        sel := prev.sel;
        assert History() == Undo(old(History()), old(Current())).stacks;
      }
    }

    method RedoAction() returns (post: Post)
      requires Valid()
      modifies this
      ensures Valid() && post == Hide && mode == old(mode)
      ensures var r := Redo(old(History()));
              History() == r.stacks
              && (r.restore.Some? ==> Current() == r.restore.value)
              && (r.restore.None? ==> Current() == old(Current()))
    {
      post := Hide;
      if |redo| > 0 {
        var state := redo[|redo| - 1];
        PushValid(undo, state);
        redo := redo[..|redo| - 1];
        undo := Append(undo, state);
        lines := state.lines;
        sel := state.sel;
      }
    }

    /** Walks up from index past whitespace-only lines and measures the
      indentation of the line it stops at. */
    method IndentLevelOfLine(index: nat) returns (level: nat)
      requires Valid() && index < |lines|
      ensures level == IndentLevel(lines, index, style.Char())
    {
      var i := index;
      var line := lines[i];
      while IsBlank(line) && i > 0
        invariant i <= index && line == lines[i]
        invariant IndentLevel(lines, i, style.Char()) == IndentLevel(lines, index, style.Char())
        decreases i
      {
        i := i - 1;
        line := lines[i];
      }
      if IsBlank(line) {
        return 0;
      }
      level := |line| - |LStripChar(line, style.Char())|;
    }

    /** Toggle comment by one edit per selected line, keeping the selection's
      offset; the result is the reference ToggleComment. */
    method ToggleCommentAction() returns (post: Post)
      requires Valid()
      modifies this
      ensures Valid() && post == Hide
      ensures Doc() == ToggleComment(old(Doc()), marker)
      ensures History() == old(History()) && mode == old(mode)
    {
      post := Hide;
      if marker == "" {
        return;
      }
      SortedEndpoints(sel);
      var first := sel.First().line;
      var last := sel.Last().line;
      var selected := lines[first..last + 1];
      assert selected == Selected(Doc());
      if AllCommented(selected, marker) {
        UncommentLines(first, last);
      } else {
        CommentBranch(Doc(), marker);
        var m := MinIndent(selected).value;
        CommentLines(first, last, m);
      }
    }

    /** Removes the marker from line k by one edit that keeps the selection's offset. */
    method UncommentLineAt(k: nat)
      requires Valid() && k < |lines| && CommentedOrBlank(lines[k], marker)
      modifies this
      ensures Valid() && History() == old(History()) && mode == old(mode)
      ensures lines == old(lines)[k := UncommentLine(old(lines)[k], marker)]
      ensures sel == Selection(UncommentAt(old(sel).start, k, old(lines)[k], marker),
                               UncommentAt(old(sel).end, k, old(lines)[k], marker))
    {
      UncommentEditLines(Doc(), k, marker);
      UncommentEditSel(Doc(), k, marker);
      var s1 := UncommentEditOf(Doc(), k, marker);
      lines := s1.lines;
      sel := s1.sel;
    }

    /** Inserts the marker and a space into line k at column m by one edit
      that keeps the selection's offset, unless the line is blank. */
    method CommentLineAt(k: nat, m: nat)
      requires Valid() && k < |lines| && (Blank(lines[k]) || m <= LeadingWidth(lines[k]))
      modifies this
      ensures Valid() && History() == old(History()) && mode == old(mode)
      ensures lines == old(lines)[k := CommentLine(old(lines)[k], marker, m)]
      ensures sel == Selection(CommentAt(old(sel).start, k, old(lines)[k], marker, m),
                               CommentAt(old(sel).end, k, old(lines)[k], marker, m))
    {
      if Blank(lines[k]) {
        assert lines[k := CommentLine(lines[k], marker, m)] == lines;
        return;
      }
      var text := marker + " ";
      CommentEdit(Doc(), k, marker, m);
      var s1 := Insert(Doc(), [text], Location(k, m));
      lines := s1.lines;
      sel := s1.sel;
    }

    method UncommentLines(first: nat, last: nat)
      requires Valid() && marker != ""
      requires first == sel.First().line && last == sel.Last().line
      requires AllCommented(Selected(Doc()), marker)
      modifies this
      ensures Valid()
      ensures Doc() == Uncommented(old(Doc()), marker)
      ensures History() == old(History()) && mode == old(mode)
    {
      ghost var s0 := Doc();
      SortedEndpoints(sel);
      SelectedCommented(s0, marker);
      UncommentedSelDone(s0, marker);
      var lno := first;
      while lno <= last
        invariant first <= lno <= last + 1
        invariant Valid() && History() == old(History()) && mode == old(mode)
        invariant UncommentedUpTo(lines, s0.lines, first, lno, marker)
        invariant sel == UncommentedSelUpTo(s0, lno, marker)
      {
        UncommentedUpToStep(lines, s0.lines, first, lno, marker);
        UncommentedSelStep(s0, lno, marker);
        UncommentLineAt(lno);
        lno := lno + 1;
      }
      UncommentedUpToDone(lines, s0.lines, first, last, marker);
    }

    method CommentLines(first: nat, last: nat, m: nat)
      requires Valid() && marker != ""
      requires first == sel.First().line && last == sel.Last().line
      requires forall j :: first <= j <= last && !Blank(lines[j]) ==> m <= LeadingWidth(lines[j])
      modifies this
      ensures Valid()
      ensures Doc() == Commented(old(Doc()), marker, m)
      ensures History() == old(History()) && mode == old(mode)
    {
      ghost var s0 := Doc();
      SortedEndpoints(sel);
      var lno := first;
      while lno <= last
        invariant first <= lno <= last + 1
        invariant Valid() && History() == old(History()) && mode == old(mode)
        invariant CommentedUpTo(lines, s0.lines, first, lno, marker, m)
        invariant sel == CommentedSelUpTo(s0, lno, marker, m)
      {
        CommentedUpToStep(lines, s0.lines, first, lno, marker, m);
        CommentedSelStep(s0, lno, marker, m);
        CommentLineAt(lno, m);
        lno := lno + 1;
      }
      CommentedUpToDone(lines, s0.lines, first, last, marker, m);
      CommentedSelDone(s0, marker, m);
    }

    /** Delete-line, after a snapshot for undo. */
    method DeleteLineAction() returns (post: Post)
      requires Valid()
      modifies this
      ensures Valid() && post == Hide && mode == old(mode)
      ensures History() == TakeSnapshot(old(History()), old(Current()))
      ensures Doc() == DeleteLine(old(Doc()))
    {
      post := Hide;
      CreateUndoSnapshot();
      var r := DeleteLine(Doc());
      lines := r.lines;
      sel := r.sel;
    }

    /** One key press: the key's edit, the new mode and the message for the
      completion list. */
    method OnKeyAction(key: Key, memberLen: string -> nat) returns (post: Post)
      requires Valid()
      modifies this
      ensures Valid() && History() == old(History())
      ensures var r := OnKey(old(Doc()), old(mode), key, style, memberLen);
              Doc() == r.state && mode == r.mode && post == r.post
    {
      var r := OnKey(Doc(), mode, key, style, memberLen);
      lines := r.state.lines;
      sel := r.state.sel;
      mode := r.mode;
      post := r.post;
    }

    /** Replaces the prefix before the cursor by a chosen completion. */
    method ReplaceCurrentWordAction(value: string, memberLen: string -> nat)
      requires Valid()
      modifies this
      ensures Valid() && History() == old(History()) && mode == old(mode)
      ensures Doc() == ReplaceCurrentWord(old(Doc()), old(mode), value, memberLen)
    {
      var r := ReplaceCurrentWord(Doc(), mode, value, memberLen);
      lines := r.lines;
      sel := r.sel;
    }
  }
}

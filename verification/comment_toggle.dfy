/** Line-comment toggling of the newer widget. If every selected line is blank
    or starts (after its indentation) with the marker, the marker is removed
    from each such line; otherwise "marker " is inserted into every non-blank
    selected line at the smallest indentation among them. Blank lines are never
    changed. ToggleComment is the reference: the widget reaches the same state
    by one edit per line. */
module CommentToggle {
  import opened TextUtil
  import opened LineBuffer

  /** A line whose lstrip() is empty. */
  predicate Blank(line: string)
  {
    LStrip(line) == ""
  }

  predicate CommentedOrBlank(line: string, marker: string)
  {
    Blank(line) || StartsWith(LStrip(line), marker)
  }

  predicate AllCommented(ls: seq<string>, marker: string)
  {
    forall k :: 0 <= k < |ls| ==> CommentedOrBlank(ls[k], marker)
  }

  /** How many characters uncommenting removes after a line's indentation: the
      marker, and one whitespace character when one follows it. */
  function UncommentWidth(stripped: string, marker: string): (w: nat)
    requires stripped == "" || StartsWith(stripped, marker)
    ensures w <= |stripped|
    ensures stripped == "" ==> w == 0
    ensures stripped != "" ==> StartsWith(stripped, marker) && |marker| <= w <= |marker| + 1
    ensures stripped != "" && w == |marker| + 1 ==> IsSpace(stripped[|marker|])
    ensures stripped != "" && |stripped| > |marker| && IsSpace(stripped[|marker|]) ==> w == |marker| + 1
  {
    if stripped == "" then 0
    else if |stripped| > |marker| && IsSpace(stripped[|marker|]) then |marker| + 1
    else |marker|
  }

  /** The width as the widget computes it: 2 when whitespace follows the
      marker, else 1, whatever the marker's length; it reads the character
      after the marker, so a line that is exactly the marker is out of range. */
  function UncommentWidthAsWritten(stripped: string, marker: string): nat
    requires stripped == "" || |stripped| > |marker|
  {
    if stripped == "" then 0
    else if IsSpace(stripped[|marker|]) then 2
    else 1
  }

  function UncommentLine(line: string, marker: string): (r: string)
    requires CommentedOrBlank(line, marker)
    ensures Blank(line) ==> r == line
  {
    var ind := LeadingWidth(line);
    var w := UncommentWidth(LStrip(line), marker);
    line[..ind] + line[ind + w..]
  }

  /** Where a column of a line goes when the line is uncommented. */
  function UncommentCol(line: string, marker: string, col: nat): nat
    requires CommentedOrBlank(line, marker)
  {
    var ind := LeadingWidth(line);
    var w := UncommentWidth(LStrip(line), marker);
    if col < ind then col else if col <= ind + w then ind else col - w
  }

  /** "marker " inserted at column m of a non-blank line; blank lines stay. */
  function CommentLine(line: string, marker: string, m: nat): string
    requires Blank(line) || m <= LeadingWidth(line)
  {
    if Blank(line) then line else line[..m] + marker + " " + line[m..]
  }

  function CommentCol(line: string, marker: string, m: nat, col: nat): nat
  {
    if Blank(line) || col < m then col else col + |marker| + 1
  }

  /** The smallest indentation among the non-blank lines; None when all are blank. */
  function MinIndent(ls: seq<string>): Option<nat>
  {
    if |ls| == 0 then None
    else
      var rest := MinIndent(ls[1..]);
      if Blank(ls[0]) then rest
      else if rest.None? || LeadingWidth(ls[0]) <= rest.value then Some(LeadingWidth(ls[0]))
      else rest
  }

  /** MinIndent is None exactly when every line is blank, and otherwise the
      indentation of some non-blank line that no non-blank line undercuts. */
  lemma {:induction false} MinIndentSpec(ls: seq<string>)
    ensures var m := MinIndent(ls);
            (m.None? <==> forall k :: 0 <= k < |ls| ==> Blank(ls[k]))
            && (m.Some? ==> forall k :: 0 <= k < |ls| && !Blank(ls[k]) ==> m.value <= LeadingWidth(ls[k]))
            && (m.Some? ==> exists k :: 0 <= k < |ls| && !Blank(ls[k]) && m.value == LeadingWidth(ls[k]))
  {
    if |ls| > 0 {
      var tail := ls[1..];
      var rest := MinIndent(tail);
      MinIndentSpec(tail);
      assert forall k :: 1 <= k < |ls| ==> ls[k] == tail[k - 1];
      if rest.Some? {
        var j :| 0 <= j < |tail| && !Blank(tail[j]) && rest.value == LeadingWidth(tail[j]);
        assert ls[j + 1] == tail[j];
      }
    }
  }

  /** Some selected line is neither blank nor commented, so the commenting
      column exists and no non-blank selected line is indented less. */
  lemma MinIndentSelected(s: State, marker: string)
    requires s.Valid() && !AllCommented(Selected(s), marker)
    ensures MinIndent(Selected(s)).Some?
    ensures forall j :: s.sel.First().line <= j <= s.sel.Last().line && !Blank(s.lines[j]) ==>
              MinIndent(Selected(s)).value <= LeadingWidth(s.lines[j])
  {
    var ls := Selected(s);
    var first := s.sel.First().line;
    SortedEndpoints(s.sel);
    MinIndentSpec(ls);
    var k :| 0 <= k < |ls| && !CommentedOrBlank(ls[k], marker);
    assert !Blank(ls[k]);
    forall j | first <= j <= s.sel.Last().line && !Blank(s.lines[j])
      ensures MinIndent(ls).value <= LeadingWidth(s.lines[j])
    {
      SelectedAt(s, j);
    }
  }

  /** The selected lines with their first and last index. */
  function Selected(s: State): seq<string>
    requires s.Valid()
  {
    SortedEndpoints(s.sel);
    s.lines[s.sel.First().line..s.sel.Last().line + 1]
  }

  lemma SelectedAt(s: State, j: nat)
    requires s.Valid() && s.sel.First().line <= j <= s.sel.Last().line
    ensures j < |s.lines| && Selected(s)[j - s.sel.First().line] == s.lines[j]
  {
    SortedEndpoints(s.sel);
  }

  /** When the selected lines are all commented or blank, so is each line
      from the first selected line to the last. */
  lemma SelectedCommented(s: State, marker: string)
    requires s.Valid() && AllCommented(Selected(s), marker)
    ensures forall j :: s.sel.First().line <= j <= s.sel.Last().line ==> j < |s.lines| && CommentedOrBlank(s.lines[j], marker)
  {
    forall j | s.sel.First().line <= j <= s.sel.Last().line
      ensures j < |s.lines| && CommentedOrBlank(s.lines[j], marker)
    {
      SelectedAt(s, j);
    }
  }

  /** Uncommenting keeps every column inside its line. */
  lemma UncommentColInLine(line: string, marker: string, col: nat)
    requires CommentedOrBlank(line, marker) && col <= |line|
    ensures UncommentCol(line, marker, col) <= |UncommentLine(line, marker)|
  {
  }

  /** Commenting keeps every column inside its line. */
  lemma CommentColInLine(line: string, marker: string, m: nat, col: nat)
    requires (Blank(line) || m <= LeadingWidth(line)) && col <= |line|
    ensures CommentCol(line, marker, m, col) <= |CommentLine(line, marker, m)|
  {
  }

  /** Uncommenting a line is the edit that deletes the marker (and the space
      after it) at the line's indentation. */
  lemma UncommentLineEdit(lines: seq<string>, k: nat, marker: string)
    requires k < |lines| && CommentedOrBlank(lines[k], marker)
    ensures var ind := LeadingWidth(lines[k]);
            var w := UncommentWidth(LStrip(lines[k]), marker);
            ind + w <= |lines[k]|
            && Replace(lines, Location(k, ind), Location(k, ind + w), [""]) == lines[k := UncommentLine(lines[k], marker)]
  {
    var line := lines[k];
    var ind := LeadingWidth(line);
    var w := UncommentWidth(LStrip(line), marker);
    assert ind + w <= |line|;
    var u := line[..ind] + line[ind + w..];
    assert UncommentLine(line, marker) == u;
    assert line[..ind] + "" + line[ind + w..] == u by {
      assert line[..ind] + "" == line[..ind];
    }
    assert Replace(lines, Location(k, ind), Location(k, ind + w), [""]) == lines[k := u] by {
      ReplaceInLine(lines, Location(k, ind), Location(k, ind + w), "");
    }
  }

  /** Commenting a non-blank line is the edit that inserts the marker and a
      space at column m. */
  lemma CommentLineEdit(lines: seq<string>, k: nat, marker: string, m: nat)
    requires k < |lines| && !Blank(lines[k]) && m <= LeadingWidth(lines[k])
    ensures Replace(lines, Location(k, m), Location(k, m), [marker + " "]) == lines[k := CommentLine(lines[k], marker, m)]
  {
    var line := lines[k];
    ReplaceInLine(lines, Location(k, m), Location(k, m), marker + " ");
    assert line[..m] + (marker + " ") + line[m..] == CommentLine(line, marker, m);
  }

  /** Where an endpoint goes when line k is uncommented. */
  function UncommentAt(p: Location, k: nat, line: string, marker: string): (q: Location)
    requires CommentedOrBlank(line, marker)
    ensures q.line == p.line
  {
    if p.line == k then Location(k, UncommentCol(line, marker, p.col)) else p
  }

  /** Where an endpoint goes when line k is commented at column m. */
  function CommentAt(p: Location, k: nat, line: string, marker: string, m: nat): (q: Location)
    ensures q.line == p.line
  {
    if p.line == k then Location(k, CommentCol(line, marker, m, p.col)) else p
  }

  /** The edit that deletes the marker of line k (and the whitespace after it). */
  function UncommentEditOf(s: State, k: nat, marker: string): State
    requires s.Valid() && k < |s.lines| && CommentedOrBlank(s.lines[k], marker)
  {
    var ind := LeadingWidth(s.lines[k]);
    var w := UncommentWidth(LStrip(s.lines[k]), marker);
    DeleteSpan(s, k, ind, ind + w)
  }

  /** Uncommenting line k is the edit UncommentEditOf. */
  lemma {:induction false} UncommentEditLines(s: State, k: nat, marker: string)
    requires s.Valid() && k < |s.lines| && CommentedOrBlank(s.lines[k], marker)
    ensures UncommentEditOf(s, k, marker).lines == s.lines[k := UncommentLine(s.lines[k], marker)]
  {
    var line := s.lines[k];
    var ind := LeadingWidth(line);
    var w := UncommentWidth(LStrip(line), marker);
    UncommentLineSpan(line, marker);
  }

  /** Uncommenting removes the span [ind, ind + w) of the line. */
  lemma UncommentLineSpan(line: string, marker: string)
    requires CommentedOrBlank(line, marker)
    ensures var ind := LeadingWidth(line);
            var w := UncommentWidth(LStrip(line), marker);
            ind + w <= |line| && UncommentLine(line, marker) == line[..ind] + line[ind + w..]
  {
  }

  /** That edit, keeping the selection's offset, moves the endpoints as
      UncommentAt says. */
  lemma {:induction false} UncommentEditSel(s: State, k: nat, marker: string)
    requires s.Valid() && k < |s.lines| && CommentedOrBlank(s.lines[k], marker)
    ensures UncommentEditOf(s, k, marker).sel ==
            Selection(UncommentAt(s.sel.start, k, s.lines[k], marker), UncommentAt(s.sel.end, k, s.lines[k], marker))
  {
    var line := s.lines[k];
    var ind := LeadingWidth(line);
    var w := UncommentWidth(LStrip(line), marker);
    assert UncommentAt(s.sel.start, k, line, marker) == DeletedAt(s.sel.start, k, ind, ind + w);
    assert UncommentAt(s.sel.end, k, line, marker) == DeletedAt(s.sel.end, k, ind, ind + w);
  }

  /** The edit that comments line k at column m, keeping the selection's
      offset, moves the endpoints as CommentAt says. */
  lemma CommentEdit(s: State, k: nat, marker: string, m: nat)
    requires s.Valid() && k < |s.lines| && !Blank(s.lines[k]) && m <= LeadingWidth(s.lines[k])
    ensures var line := s.lines[k];
            var r := Insert(s, [marker + " "], Location(k, m));
            r.lines == s.lines[k := CommentLine(line, marker, m)]
            && r.sel == Selection(CommentAt(s.sel.start, k, line, marker, m), CommentAt(s.sel.end, k, line, marker, m))
  {
    CommentLineEdit(s.lines, k, marker, m);
    ShiftInLine(s.sel.start, k, m, m, |marker| + 1);
    ShiftInLine(s.sel.end, k, m, m, |marker| + 1);
  }

  /** Lines first..last uncommented, the others kept. */
  function UncommentRange(lines: seq<string>, first: nat, last: nat, marker: string): (r: seq<string>)
    requires first <= last < |lines|
    requires forall j :: first <= j <= last ==> CommentedOrBlank(lines[j], marker)
    ensures |r| == |lines|
    ensures forall j :: 0 <= j < |lines| && (j < first || j > last) ==> r[j] == lines[j]
    ensures forall j :: first <= j <= last ==> r[j] == UncommentLine(lines[j], marker)
  {
    seq(|lines|, j requires 0 <= j < |lines| => if first <= j <= last then UncommentLine(lines[j], marker) else lines[j])
  }

  /** Lines first..last commented at column m, the others kept. */
  function CommentRange(lines: seq<string>, first: nat, last: nat, marker: string, m: nat): (r: seq<string>)
    requires first <= last < |lines|
    requires forall j :: first <= j <= last && !Blank(lines[j]) ==> m <= LeadingWidth(lines[j])
    ensures |r| == |lines|
    ensures forall j :: 0 <= j < |lines| && (j < first || j > last) ==> r[j] == lines[j]
    ensures forall j :: first <= j <= last ==> r[j] == CommentLine(lines[j], marker, m)
  {
    seq(|lines|, j requires 0 <= j < |lines| => if first <= j <= last then CommentLine(lines[j], marker, m) else lines[j])
  }

  /** Lines first..lno-1 of orig are uncommented in lines, the others kept:
      the state of a line-by-line uncommenting loop. */
  predicate UncommentedUpTo(lines: seq<string>, orig: seq<string>, first: nat, lno: nat, marker: string)
  {
    |lines| == |orig| && first <= lno <= |orig|
    && (forall j :: 0 <= j < |orig| && (j < first || j >= lno) ==> lines[j] == orig[j])
    && (forall j :: first <= j < lno ==> CommentedOrBlank(orig[j], marker) && lines[j] == UncommentLine(orig[j], marker))
  }

  /** Uncommenting one more line extends the uncommented prefix. */
  lemma UncommentedUpToStep(lines: seq<string>, orig: seq<string>, first: nat, lno: nat, marker: string)
    requires UncommentedUpTo(lines, orig, first, lno, marker)
    requires lno < |orig| && CommentedOrBlank(orig[lno], marker)
    ensures UncommentedUpTo(lines[lno := UncommentLine(orig[lno], marker)], orig, first, lno + 1, marker)
  {
  }

  /** The selection once lines before lno are uncommented. */
  function UncommentedSelUpTo(s: State, lno: nat, marker: string): Selection
    requires s.Valid()
    requires forall j :: 0 <= j < lno && j < |s.lines| && (j == s.sel.start.line || j == s.sel.end.line) ==> CommentedOrBlank(s.lines[j], marker)
  {
    var a := s.sel.start;
    var b := s.sel.end;
    Selection(if a.line < lno then UncommentAt(a, a.line, s.lines[a.line], marker) else a,
              if b.line < lno then UncommentAt(b, b.line, s.lines[b.line], marker) else b)
  }

  /** Uncommenting line lno moves the endpoints on that line and no other. */
  lemma UncommentedSelStep(s: State, lno: nat, marker: string)
    requires s.Valid() && lno < |s.lines| && CommentedOrBlank(s.lines[lno], marker)
    requires forall j :: 0 <= j < lno && j < |s.lines| && (j == s.sel.start.line || j == s.sel.end.line) ==> CommentedOrBlank(s.lines[j], marker)
    ensures var p := UncommentedSelUpTo(s, lno, marker);
            UncommentedSelUpTo(s, lno + 1, marker)
              == Selection(UncommentAt(p.start, lno, s.lines[lno], marker), UncommentAt(p.end, lno, s.lines[lno], marker))
  {
  }

  /** Past the last selected line, the endpoints are where uncommenting takes them. */
  lemma UncommentedSelDone(s: State, marker: string)
    requires s.Valid() && AllCommented(Selected(s), marker)
    ensures forall j :: 0 <= j < s.sel.Last().line + 1 && j < |s.lines| && (j == s.sel.start.line || j == s.sel.end.line) ==> CommentedOrBlank(s.lines[j], marker)
    ensures UncommentedSelUpTo(s, s.sel.Last().line + 1, marker) == Uncommented(s, marker).sel
  {
    SortedEndpoints(s.sel);
    UncommentedSelection(s, marker);
  }

  /** When the loop has passed last, the lines are the uncommented range. */
  lemma UncommentedUpToDone(lines: seq<string>, orig: seq<string>, first: nat, last: nat, marker: string)
    requires first <= last && UncommentedUpTo(lines, orig, first, last + 1, marker)
    ensures forall j :: first <= j <= last ==> CommentedOrBlank(orig[j], marker)
    ensures lines == UncommentRange(orig, first, last, marker)
  {
  }

  /** Lines first..lno-1 of orig are commented at column m in lines, the
      others kept: the state of a line-by-line commenting loop. */
  predicate CommentedUpTo(lines: seq<string>, orig: seq<string>, first: nat, lno: nat, marker: string, m: nat)
  {
    |lines| == |orig| && first <= lno <= |orig|
    && (forall j :: 0 <= j < |orig| && (j < first || j >= lno) ==> lines[j] == orig[j])
    && (forall j :: first <= j < lno ==> (Blank(orig[j]) || m <= LeadingWidth(orig[j])) && lines[j] == CommentLine(orig[j], marker, m))
  }

  /** Commenting one more line extends the commented prefix. */
  lemma CommentedUpToStep(lines: seq<string>, orig: seq<string>, first: nat, lno: nat, marker: string, m: nat)
    requires CommentedUpTo(lines, orig, first, lno, marker, m)
    requires lno < |orig| && (Blank(orig[lno]) || m <= LeadingWidth(orig[lno]))
    ensures CommentedUpTo(lines[lno := CommentLine(orig[lno], marker, m)], orig, first, lno + 1, marker, m)
  {
  }

  /** The selection once lines before lno are commented: each endpoint on
      such a line has moved as CommentAt says. */
  function CommentedSelUpTo(s: State, lno: nat, marker: string, m: nat): Selection
    requires s.Valid()
  {
    var a := s.sel.start;
    var b := s.sel.end;
    Selection(if a.line < lno then CommentAt(a, a.line, s.lines[a.line], marker, m) else a,
              if b.line < lno then CommentAt(b, b.line, s.lines[b.line], marker, m) else b)
  }

  /** Commenting line lno moves the endpoints on that line and no other. */
  lemma CommentedSelStep(s: State, lno: nat, marker: string, m: nat)
    requires s.Valid() && lno < |s.lines|
    ensures var p := CommentedSelUpTo(s, lno, marker, m);
            CommentedSelUpTo(s, lno + 1, marker, m)
              == Selection(CommentAt(p.start, lno, s.lines[lno], marker, m), CommentAt(p.end, lno, s.lines[lno], marker, m))
  {
  }

  /** Past the last selected line, the endpoints are where commenting takes them. */
  lemma CommentedSelDone(s: State, marker: string, m: nat)
    requires s.Valid()
    requires forall j :: s.sel.First().line <= j <= s.sel.Last().line && !Blank(s.lines[j]) ==> m <= LeadingWidth(s.lines[j])
    ensures CommentedSelUpTo(s, s.sel.Last().line + 1, marker, m) == Commented(s, marker, m).sel
  {
    SortedEndpoints(s.sel);
    CommentedSelection(s, marker, m);
  }

  /** When the loop has passed last, the lines are the commented range. */
  lemma CommentedUpToDone(lines: seq<string>, orig: seq<string>, first: nat, last: nat, marker: string, m: nat)
    requires first <= last && CommentedUpTo(lines, orig, first, last + 1, marker, m)
    ensures forall j :: first <= j <= last && !Blank(orig[j]) ==> m <= LeadingWidth(orig[j])
    ensures lines == CommentRange(orig, first, last, marker, m)
  {
  }

  /** The selected lines uncommented, with the selection following its text. */
  function Uncommented(s: State, marker: string): (r: State)
    requires s.Valid() && AllCommented(Selected(s), marker)
    ensures r.Valid() && |r.lines| == |s.lines|
    ensures r.sel.start.line == s.sel.start.line && r.sel.end.line == s.sel.end.line
    ensures forall j :: 0 <= j < |s.lines| && (j < s.sel.First().line || j > s.sel.Last().line) ==> r.lines[j] == s.lines[j]
    ensures forall j :: s.sel.First().line <= j <= s.sel.Last().line && j < |s.lines| ==>
              CommentedOrBlank(s.lines[j], marker) && r.lines[j] == UncommentLine(s.lines[j], marker)
  {
    SortedEndpoints(s.sel);
    var first := s.sel.First().line;
    var last := s.sel.Last().line;
    SelectedCommented(s, marker);
    var lines := UncommentRange(s.lines, first, last, marker);
    var a := s.sel.start;
    var b := s.sel.end;
    UncommentColInLine(s.lines[a.line], marker, a.col);
    UncommentColInLine(s.lines[b.line], marker, b.col);
    State(lines, Selection(Location(a.line, UncommentCol(s.lines[a.line], marker, a.col)),
                           Location(b.line, UncommentCol(s.lines[b.line], marker, b.col))))
  }

  /** The non-blank selected lines commented at column m. */
  function Commented(s: State, marker: string, m: nat): (r: State)
    requires s.Valid()
    requires forall j :: s.sel.First().line <= j <= s.sel.Last().line && !Blank(s.lines[j]) ==> m <= LeadingWidth(s.lines[j])
    ensures r.Valid() && |r.lines| == |s.lines|
    ensures r.sel.start.line == s.sel.start.line && r.sel.end.line == s.sel.end.line
    ensures forall j :: 0 <= j < |s.lines| && (j < s.sel.First().line || j > s.sel.Last().line) ==> r.lines[j] == s.lines[j]
    ensures forall j :: s.sel.First().line <= j <= s.sel.Last().line && j < |s.lines| ==>
              r.lines[j] == CommentLine(s.lines[j], marker, m)
  {
    SortedEndpoints(s.sel);
    var first := s.sel.First().line;
    var last := s.sel.Last().line;
    var lines := CommentRange(s.lines, first, last, marker, m);
    var a := s.sel.start;
    var b := s.sel.end;
    CommentColInLine(s.lines[a.line], marker, m, a.col);
    CommentColInLine(s.lines[b.line], marker, m, b.col);
    State(lines, Selection(Location(a.line, CommentCol(s.lines[a.line], marker, m, a.col)),
                           Location(b.line, CommentCol(s.lines[b.line], marker, m, b.col))))
  }

  /** Where uncommenting takes the selection's endpoints. */
  lemma UncommentedSelection(s: State, marker: string)
    requires s.Valid() && AllCommented(Selected(s), marker)
    ensures CommentedOrBlank(s.lines[s.sel.start.line], marker) && CommentedOrBlank(s.lines[s.sel.end.line], marker)
    ensures Uncommented(s, marker).sel ==
              Selection(Location(s.sel.start.line, UncommentCol(s.lines[s.sel.start.line], marker, s.sel.start.col)),
                        Location(s.sel.end.line, UncommentCol(s.lines[s.sel.end.line], marker, s.sel.end.col)))
  {
    SortedEndpoints(s.sel);
    SelectedCommented(s, marker);
  }

  /** Where commenting takes the selection's endpoints. */
  lemma CommentedSelection(s: State, marker: string, m: nat)
    requires s.Valid()
    requires forall j :: s.sel.First().line <= j <= s.sel.Last().line && !Blank(s.lines[j]) ==> m <= LeadingWidth(s.lines[j])
    ensures Commented(s, marker, m).sel ==
              Selection(Location(s.sel.start.line, CommentCol(s.lines[s.sel.start.line], marker, m, s.sel.start.col)),
                        Location(s.sel.end.line, CommentCol(s.lines[s.sel.end.line], marker, m, s.sel.end.col)))
  {
  }

  /** The reference result of the toggle-comment action; an empty marker (the
      language has none) changes nothing. */
  function ToggleComment(s: State, marker: string): (r: State)
    requires s.Valid()
    ensures r.Valid()
    ensures |r.lines| == |s.lines|
    ensures r.sel.start.line == s.sel.start.line && r.sel.end.line == s.sel.end.line
  {
    if marker == "" then s
    else if AllCommented(Selected(s), marker) then Uncommented(s, marker)
    else
      MinIndentSelected(s, marker);
      Commented(s, marker, MinIndent(Selected(s)).value)
  }

  /** Lines outside the selection and blank lines are never changed. */
  lemma ToggleCommentKeeps(s: State, marker: string, j: nat)
    requires s.Valid() && j < |s.lines|
    requires j < s.sel.First().line || j > s.sel.Last().line || Blank(s.lines[j])
    ensures ToggleComment(s, marker).lines[j] == s.lines[j]
  {
  }

  /** A commented non-blank line: its indentation is the insertion column,
      its stripped text starts with the marker, and uncommenting removes the
      marker and the space after it. */
  lemma CommentedShape(line: string, marker: string, m: nat)
    requires marker != "" && !IsSpace(marker[0])
    requires !Blank(line) && m <= LeadingWidth(line)
    ensures LeadingWidth(CommentLine(line, marker, m)) == m
    ensures StartsWith(LStrip(CommentLine(line, marker, m)), marker)
    ensures UncommentWidth(LStrip(CommentLine(line, marker, m)), marker) == |marker| + 1
  {
    var rest := marker + " " + line[m..];
    assert CommentLine(line, marker, m) == line[..m] + rest;
    assert forall i :: 0 <= i < m ==> line[..m][i] == line[i];
    LStripAfterWhitespace(line[..m], rest);
    assert rest[0] == marker[0];
    assert LStrip(CommentLine(line, marker, m)) == rest;
    assert rest[..|marker|] == marker;
    assert rest[|marker|] == ' ';
  }

  /** Commenting a line at or left of its indentation makes it a commented
      line that uncommenting turns back into the original, provided the
      marker does not start with whitespace. */
  lemma CommentLineRoundTrip(line: string, marker: string, m: nat)
    requires marker != "" && !IsSpace(marker[0])
    requires Blank(line) || m <= LeadingWidth(line)
    ensures CommentedOrBlank(CommentLine(line, marker, m), marker)
    ensures UncommentLine(CommentLine(line, marker, m), marker) == line
  {
    if !Blank(line) {
      var c := CommentLine(line, marker, m);
      CommentedShape(line, marker, m);
      var k := m + |marker| + 1;
      assert c == line[..m] + marker + " " + line[m..];
      assert c[..m] == line[..m];
      assert c[k..] == line[m..];
      assert UncommentLine(c, marker) == c[..m] + c[k..];
      assert line[..m] + line[m..] == line;
    }
  }

  /** Uncommenting maps every column of a commented line back to where it was. */
  lemma CommentColRoundTrip(line: string, marker: string, m: nat, col: nat)
    requires marker != "" && !IsSpace(marker[0])
    requires Blank(line) || m <= LeadingWidth(line)
    ensures CommentedOrBlank(CommentLine(line, marker, m), marker) &&
            UncommentCol(CommentLine(line, marker, m), marker, CommentCol(line, marker, m, col)) == col
  {
    if !Blank(line) {
      CommentedShape(line, marker, m);
    }
  }

  /** After commenting, every selected line is commented or blank. */
  lemma CommentedAllCommented(s: State, marker: string, m: nat)
    requires s.Valid() && marker != "" && !IsSpace(marker[0])
    requires forall j :: s.sel.First().line <= j <= s.sel.Last().line && !Blank(s.lines[j]) ==> m <= LeadingWidth(s.lines[j])
    ensures AllCommented(Selected(Commented(s, marker, m)), marker)
  {
    var r := Commented(s, marker, m);
    SortedEndpoints(s.sel);
    var first := s.sel.First().line;
    assert r.sel.First().line == first && r.sel.Last().line == s.sel.Last().line;
    var rs := Selected(r);
    forall k | 0 <= k < |rs| ensures CommentedOrBlank(rs[k], marker) {
      assert rs[k] == r.lines[first + k] == CommentLine(s.lines[first + k], marker, m);
      CommentLineRoundTrip(s.lines[first + k], marker, m);
    }
  }

  /** Uncommenting what was just commented gives back the state. */
  lemma UncommentCommented(s: State, marker: string, m: nat)
    requires s.Valid() && marker != "" && !IsSpace(marker[0])
    requires forall j :: s.sel.First().line <= j <= s.sel.Last().line && !Blank(s.lines[j]) ==> m <= LeadingWidth(s.lines[j])
    ensures AllCommented(Selected(Commented(s, marker, m)), marker) &&
            Uncommented(Commented(s, marker, m), marker) == s
  {
    CommentedAllCommented(s, marker, m);
    var r := Commented(s, marker, m);
    var u := Uncommented(r, marker);
    SortedEndpoints(s.sel);
    var first := s.sel.First().line;
    var last := s.sel.Last().line;
    assert r.sel.First().line == first && r.sel.Last().line == last;
    forall j | 0 <= j < |s.lines| ensures u.lines[j] == s.lines[j] {
      if first <= j <= last {
        CommentLineRoundTrip(s.lines[j], marker, m);
      }
    }
    assert u.lines == s.lines;
    CommentColRoundTrip(s.lines[s.sel.start.line], marker, m, s.sel.start.col);
    CommentColRoundTrip(s.lines[s.sel.end.line], marker, m, s.sel.end.col);
  }

  /** The commenting branch of the toggle, with the smallest indentation. */
  lemma CommentBranch(s: State, marker: string)
    requires s.Valid() && marker != "" && !AllCommented(Selected(s), marker)
    ensures MinIndent(Selected(s)).Some?
    ensures var m := MinIndent(Selected(s)).value;
            (forall j :: s.sel.First().line <= j <= s.sel.Last().line && !Blank(s.lines[j]) ==> m <= LeadingWidth(s.lines[j]))
            && ToggleComment(s, marker) == Commented(s, marker, m)
  {
    MinIndentSelected(s, marker);
  }

  /** Commenting a selection that is not all commented and toggling again
      restores the text and the selection, for a marker that does not start
      with whitespace. */
  lemma ToggleCommentRoundTrip(s: State, marker: string)
    requires s.Valid() && marker != "" && !IsSpace(marker[0])
    requires !AllCommented(Selected(s), marker)
    ensures ToggleComment(ToggleComment(s, marker), marker) == s
  {
    CommentBranch(s, marker);
    var m := MinIndent(Selected(s)).value;
    UncommentCommented(s, marker, m);
  }

  /** Uncommenting as the widget does it: the width read from the character
      after the marker, as if the marker were one character long. */
  function UncommentLineAsWritten(line: string, marker: string): (r: string)
    requires CommentedOrBlank(line, marker)
    requires Blank(line) || |LStrip(line)| > |marker|
    ensures |r| <= |line|
  {
    var ind := LeadingWidth(line);
    var w := UncommentWidthAsWritten(LStrip(line), marker);
    line[..ind] + line[ind + w..]
  }

  /** For a one-character marker the widget's width is the intended one. */
  lemma AsWrittenAgreesForOneCharMarker(line: string, marker: string)
    requires |marker| == 1 && CommentedOrBlank(line, marker)
    requires Blank(line) || |LStrip(line)| > |marker|
    ensures UncommentLineAsWritten(line, marker) == UncommentLine(line, marker)
  {
  }

  /** With a two-character marker such as "--", commenting a line such as
      "foo bar baz" and uncommenting it as the widget does leaves a space in
      front of the text; the intended width gives the original line back. */
  lemma TwoCharMarkerRoundTripFails(t: string, marker: string)
    requires |marker| == 2 && !IsSpace(marker[0])
    requires t != "" && !IsSpace(t[0])
    ensures var c := CommentLine(t, marker, 0);
            CommentedOrBlank(c, marker) && |LStrip(c)| > |marker|
            && UncommentLineAsWritten(c, marker) == " " + t
            && UncommentLine(c, marker) == t
  {
    var c := marker + " " + t;
    CommentAtColumnZero(t, marker);
    TwoCharMarkerWidths(t, marker);
    assert c[2..] == " " + t;
    assert c[3..] == t;
  }

  /** Commenting at column 0 puts "marker " in front of the line. */
  lemma CommentAtColumnZero(t: string, marker: string)
    requires t != "" && !IsSpace(t[0])
    ensures CommentLine(t, marker, 0) == marker + " " + t
  {
    LeadingUnique(t, 0);
    assert t[..0] + marker + " " + t[0..] == marker + " " + t;
  }

  /** The commented line has no indentation, starts with the marker, and the
      two widths differ by one. */
  lemma TwoCharMarkerWidths(t: string, marker: string)
    requires |marker| == 2 && !IsSpace(marker[0])
    ensures var c := marker + " " + t;
            LeadingWidth(c) == 0 && LStrip(c) == c && StartsWith(c, marker)
            && UncommentWidthAsWritten(c, marker) == 2 && UncommentWidth(c, marker) == 3
  {
    var c := marker + " " + t;
    LeadingUnique(c, 0);
    assert c[..|marker|] == marker;
    assert c[|marker|] == ' ';
  }

  /** A line that is exactly the marker counts as commented, but the widget
      reads the character after the marker, past the end of the line; the
      intended width removes the marker and leaves an empty line. */
  lemma LoneMarkerOutOfRange(marker: string)
    requires marker != "" && !IsSpace(marker[0])
    ensures CommentedOrBlank(marker, marker)
    ensures !(Blank(marker) || |LStrip(marker)| > |marker|)
    ensures UncommentLine(marker, marker) == ""
  {
    LeadingUnique(marker, 0);
  }
}

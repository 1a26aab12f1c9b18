/** Editing rules of the newer widget (TextAreaPlus): auto-closing of quotes
    and brackets, Enter auto-indent, Tab, indent and dedent at tab stops and
    delete-line, each as a function of the document and its selection, built
    from the edits of LineBuffer. The cursor is the selection's end. */
module EditingRules {
  import opened TextUtil
  import opened LineBuffer

  /** indent_type and indent_width: one tab per level, or width spaces per level. */
  datatype IndentStyle = IndentStyle(tabs: bool, width: nat)
  {
    predicate Valid() { tabs || width > 0 }
    function Char(): char { if tabs then '\t' else ' ' }
    /** Columns per tab stop. */
    function StopWidth(): nat { if tabs then 1 else width }
    /** The text of one indent level. */
    function Unit(): string { if tabs then "\t" else Chars(' ', width) }
  }

  /** The keys of BRACKETS. */
  predicate IsBracket(c: char)
  {
    c == '(' || c == '[' || c == '{'
  }

  /** The keys of CLOSERS: the brackets and both quotes. */
  predicate IsOpener(c: char)
  {
    IsBracket(c) || c == '"' || c == '\''
  }

  predicate IsClosingBracket(c: char)
  {
    c == ')' || c == ']' || c == '}'
  }

  /** The characters whose keys go to the quote-or-bracket handler. */
  predicate IsQuoteOrBracket(c: char)
  {
    IsOpener(c) || IsClosingBracket(c)
  }

  function CloserOf(c: char): (r: char)
    requires IsOpener(c)
    ensures IsBracket(c) ==> IsClosingBracket(r)
    ensures !IsBracket(c) ==> r == c
  {
    match c
    case '(' => ')'
    case '[' => ']'
    case '{' => '}'
    case _ => c
  }

  /** The character under the cursor; None at the end of its line. */
  function CharAt(s: State): Option<char>
    requires s.Valid()
  {
    var p := s.sel.end;
    if p.col == |s.lines[p.line]| then None else Some(s.lines[p.line][p.col])
  }

  /** The character left of the cursor; None at the start of its line. */
  function CharBefore(s: State): Option<char>
    requires s.Valid()
  {
    var p := s.sel.end;
    if p.col == 0 then None else Some(s.lines[p.line][p.col - 1])
  }

  predicate ShouldCompleteBrackets(s: State)
    requires s.Valid()
  {
    var next := CharAt(s);
    next.None? || IsSpace(next.value) || next.value in ">:,.=\"'"
  }

  predicate ShouldCompleteQuotes(s: State)
    requires s.Valid()
  {
    var next := CharAt(s);
    var prev := CharBefore(s);
    (next.None? || IsSpace(next.value) || next.value in ")>:,.=")
    && (prev.None? || IsSpace(prev.value) || !IsWordChar(prev.value))
  }

  /** Whether typing c adds its closer after the cursor. */
  predicate Completes(s: State, c: char)
    requires s.Valid()
  {
    (IsBracket(c) && ShouldCompleteBrackets(s)) || (IsOpener(c) && ShouldCompleteQuotes(s))
  }

  /** Typing c with an empty selection. */
  function ClosedCharacter(s: State, c: char): (r: State)
    requires s.Valid() && s.sel.start == s.sel.end
    ensures r.Valid()
  {
    var p := s.sel.end;
    if CharAt(s) == Some(c) then
      State(s.lines, CursorAt(Location(p.line, p.col + 1)))
    else if Completes(s, c) then
      var s1 := Insert(s, [[c]], p);
      InsertInLine(s, [c], p);
      var s2 := Insert(s1, [[CloserOf(c)]], s1.sel.end);
      InsertInLine(s1, [CloserOf(c)], s1.sel.end);
      State(s2.lines, s1.sel)
    else
      Insert(s, [[c]], p)
  }

  /** Typing the character under the cursor only steps over it; otherwise the
      character goes in, followed by its closer when Completes holds, and the
      cursor ends just after the typed character. */
  lemma ClosedCharacterEffect(s: State, c: char)
    requires s.Valid() && s.sel.start == s.sel.end
    ensures var p := s.sel.end;
            var line := s.lines[p.line];
            var r := ClosedCharacter(s, c);
            r.sel == CursorAt(Location(p.line, p.col + 1))
            && (CharAt(s) == Some(c) ==> r.lines == s.lines)
            && (CharAt(s) != Some(c) && Completes(s, c) ==>
                  r.lines == s.lines[p.line := line[..p.col] + [c, CloserOf(c)] + line[p.col..]])
            && (CharAt(s) != Some(c) && !Completes(s, c) ==>
                  r.lines == s.lines[p.line := line[..p.col] + [c] + line[p.col..]])
  {
    var p := s.sel.end;
    var line := s.lines[p.line];
    InsertInLine(s, [c], p);
    if CharAt(s) != Some(c) && Completes(s, c) {
      var s1 := Insert(s, [[c]], p);
      var q := Location(p.line, p.col + 1);
      InsertInLine(s1, [CloserOf(c)], q);
      var l1 := line[..p.col] + [c] + line[p.col..];
      assert l1[..p.col + 1] == line[..p.col] + [c];
      assert l1[p.col + 1..] == line[p.col..];
      assert l1[..p.col + 1] + [CloserOf(c)] + l1[p.col + 1..] == line[..p.col] + [c, CloserOf(c)] + line[p.col..];
    }
  }

  /** Wrapping a non-empty selection: c goes before it, its closer after it,
      and the selection is re-sorted to cover the original text. */
  function WrapSelection(s: State, c: char): (r: State)
    requires s.Valid() && IsOpener(c)
    ensures r.Valid()
  {
    var f := Min(s.sel.start, s.sel.end);
    var s1 := Insert(s, [[c]], f);
    var first := s1.sel.First();
    var last := s1.sel.Last();
    SortedEndpoints(s1.sel);
    var s2 := Edit(s1, last, last, [[CloserOf(c)]], false);
    ShiftValid(s1.lines, last, last, [[CloserOf(c)]], first);
    assert Shift(first, last, last, EndOf(last, [[CloserOf(c)]])) == first || first == last;
    State(s2.lines, Selection(first, last))
  }

  /** The first step of wrapping on one line: the opener goes in before the
      selected text, and the sorted selection moves one column right. */
  lemma WrapOpenerInLine(s: State, c: char)
    requires s.Valid() && IsOpener(c)
    requires s.sel.start.line == s.sel.end.line && s.sel.start != s.sel.end
    ensures var l := s.sel.start.line;
            var a := s.sel.First().col;
            var b := s.sel.Last().col;
            var line := s.lines[l];
            var s1 := Insert(s, [[c]], Min(s.sel.start, s.sel.end));
            s1.lines == s.lines[l := line[..a] + [c] + line[a..]]
            && s1.sel.First() == Location(l, a + 1) && s1.sel.Last() == Location(l, b + 1)
  {
    var l := s.sel.start.line;
    var a := s.sel.First().col;
    var f := Min(s.sel.start, s.sel.end);
    InsertInLine(s, [c], f);
    ShiftInLine(s.sel.start, l, a, a, 1);
    ShiftInLine(s.sel.end, l, a, a, 1);
  }

  /** On one line, wrapping puts the pair around the selected text and the new
      selection covers exactly that text. */
  lemma WrapSelectionInLine(s: State, c: char)
    requires s.Valid() && IsOpener(c)
    requires s.sel.start.line == s.sel.end.line && s.sel.start != s.sel.end
    ensures var l := s.sel.start.line;
            var a := s.sel.First().col;
            var b := s.sel.Last().col;
            var line := s.lines[l];
            var r := WrapSelection(s, c);
            r.lines == s.lines[l := line[..a] + [c] + line[a..b] + [CloserOf(c)] + line[b..]]
            && r.sel == Selection(Location(l, a + 1), Location(l, b + 1))
            && TextRange(r.lines, r.sel.start, r.sel.end) == TextRange(s.lines, s.sel.First(), s.sel.Last())
  {
    var l := s.sel.start.line;
    var a := s.sel.First().col;
    var b := s.sel.Last().col;
    var line := s.lines[l];
    var s1 := Insert(s, [[c]], Min(s.sel.start, s.sel.end));
    WrapOpenerInLine(s, c);
    var last := Location(l, b + 1);
    var r := WrapSelection(s, c);
    assert r.sel == Selection(Location(l, a + 1), last);
    assert r.lines == Replace(s1.lines, last, last, [[CloserOf(c)]]);
    CloserAfterOpener(s.lines, l, a, b, c, CloserOf(c));
  }

  /** After the opener went in at column a, the closer goes in after the
      text that was at columns a..b, which the pair then encloses. */
  lemma CloserAfterOpener(lines: seq<string>, l: nat, a: nat, b: nat, c: char, d: char)
    requires l < |lines| && a <= b <= |lines[l]|
    ensures var line := lines[l];
            var l1 := lines[l := line[..a] + [c] + line[a..]];
            var l2 := line[..a] + [c] + line[a..b] + [d] + line[b..];
            ValidLoc(l1, Location(l, b + 1))
            && Replace(l1, Location(l, b + 1), Location(l, b + 1), [[d]]) == lines[l := l2]
            && l2[a + 1..b + 1] == line[a..b]
  {
    var line := lines[l];
    var t := line[..a] + [c] + line[a..];
    var l1 := lines[l := t];
    var last := Location(l, b + 1);
    ReplaceInLine(l1, last, last, [d]);
    assert t[..b + 1] == line[..a] + [c] + line[a..b];
    assert t[b + 1..] == line[b..];
  }

  /** A quote or bracket key: with an empty selection it is typed with
      auto-closing; a closing bracket replaces a selection; any other character
      wraps the selection. */
  function QuoteOrBracket(s: State, c: char): (r: State)
    requires s.Valid() && IsQuoteOrBracket(c)
    ensures r.Valid()
  {
    if s.sel.start == s.sel.end then ClosedCharacter(s, c)
    else if IsClosingBracket(c) then
      SortedEndpoints(s.sel);
      Edit(s, s.sel.First(), s.sel.Last(), [[c]], true)
    else WrapSelection(s, c)
  }

  /** Across lines, wrapping puts the opener before the first endpoint and the
      closer before the last one; the last endpoint, on another line, stays where
      it was, and the first moves past the opener. */
  lemma WrapSelectionAcrossLines(s: State, c: char)
    requires s.Valid() && IsOpener(c) && s.sel.First().line < s.sel.Last().line
    ensures var f := s.sel.First();
            var l := s.sel.Last();
            var lf := s.lines[f.line];
            var ll := s.lines[l.line];
            var r := WrapSelection(s, c);
            r.lines == s.lines[f.line := lf[..f.col] + [c] + lf[f.col..]][l.line := ll[..l.col] + [CloserOf(c)] + ll[l.col..]]
            && r.sel == Selection(Location(f.line, f.col + 1), l)
  {
    var f := s.sel.First();
    var l := s.sel.Last();
    SortedEndpoints(s.sel);
    InsertInLine(s, [c], f);
    ShiftInLine(s.sel.start, f.line, f.col, f.col, 1);
    ShiftInLine(s.sel.end, f.line, f.col, f.col, 1);
    var s1 := Insert(s, [[c]], f);
    assert s1.sel.First() == Location(f.line, f.col + 1) && s1.sel.Last() == l;
    ReplaceInLine(s1.lines, l, l, [CloserOf(c)]);
  }

  /** Across lines too, the new selection covers exactly the text that was selected. */
  lemma WrapSelectionAcrossLinesCoversText(s: State, c: char)
    requires s.Valid() && IsOpener(c) && s.sel.First().line < s.sel.Last().line
    ensures var r := WrapSelection(s, c);
            Le(r.sel.start, r.sel.end)
            && TextRange(r.lines, r.sel.start, r.sel.end) == TextRange(s.lines, s.sel.First(), s.sel.Last())
  {
    var f := s.sel.First();
    var l := s.sel.Last();
    var lf := s.lines[f.line];
    var ll := s.lines[l.line];
    var r := WrapSelection(s, c);
    WrapSelectionAcrossLines(s, c);
    assert r.lines[f.line][f.col + 1..] == (lf[..f.col] + [c] + lf[f.col..])[f.col + 1..] == lf[f.col..];
    assert r.lines[l.line][..l.col] == ll[..l.col];
    assert r.lines[f.line + 1..l.line] == s.lines[f.line + 1..l.line];
  }

  /** A closing bracket typed over a selection replaces the selected text, which
      may span lines, and leaves the cursor just after the bracket. */
  lemma QuoteOrBracketClosingReplaces(s: State, c: char)
    requires s.Valid() && IsClosingBracket(c) && s.sel.start != s.sel.end
    ensures var f := s.sel.First();
            var l := s.sel.Last();
            var r := QuoteOrBracket(s, c);
            r.lines == s.lines[..f.line] + [s.lines[f.line][..f.col] + [c] + s.lines[l.line][l.col..]] + s.lines[l.line + 1..]
            && r.sel == CursorAt(Location(f.line, f.col + 1))
  {
    var f := s.sel.First();
    var l := s.sel.Last();
    SortedEndpoints(s.sel);
    var head := s.lines[f.line][..f.col];
    var tail := s.lines[l.line][l.col..];
    assert Replace(s.lines, f, l, [[c]]) == s.lines[..f.line] + [head + [c] + tail] + s.lines[l.line + 1..];
  }

  /** The indentation of the nearest line at or above index that is not
      whitespace-only (an empty line is not whitespace-only): its leading run
      of the indent character; 0 when every such line is whitespace-only. */
  function IndentLevel(lines: seq<string>, index: nat, unit: char): nat
    requires index < |lines|
    decreases index
  {
    if IsBlank(lines[index]) && index > 0 then IndentLevel(lines, index - 1, unit)
    else if IsBlank(lines[index]) then 0
    else LeadRun(lines[index], unit)
  }

  function LeadRun(line: string, unit: char): nat
  {
    |line| - |LStripChar(line, unit)|
  }

  /** IndentLevel reads the reference line: the last line j at or above
      index that is not whitespace-only. */
  lemma {:induction false} IndentLevelReference(lines: seq<string>, index: nat, j: nat, unit: char)
    requires j <= index < |lines| && !IsBlank(lines[j])
    requires forall k :: j < k <= index ==> IsBlank(lines[k])
    ensures IndentLevel(lines, index, unit) == LeadRun(lines[j], unit)
    decreases index
  {
    if j < index {
      assert IsBlank(lines[index]);
      IndentLevelReference(lines, index - 1, j, unit);
    }
  }

  /** When every line at or above index is whitespace-only, the level is 0. */
  lemma {:induction false} IndentLevelAllBlank(lines: seq<string>, index: nat, unit: char)
    requires index < |lines|
    requires forall k :: 0 <= k <= index ==> IsBlank(lines[k])
    ensures IndentLevel(lines, index, unit) == 0
  {
    if index > 0 {
      assert IsBlank(lines[index]);
      IndentLevelAllBlank(lines, index - 1, unit);
    }
  }

  /** The number of indent levels after indenting (one stop past the floor) or
      dedenting (one stop before the ceiling, never below 0) a line whose
      indentation is raw columns. */
  function Stops(raw: nat, stop: nat, dedent: bool): (n: nat)
    requires stop > 0
    ensures !dedent ==> n * stop <= raw + stop < (n + 1) * stop
    ensures dedent && raw > 0 ==> (n + 1) * stop >= raw > n * stop
    ensures dedent && raw == 0 ==> n == 0
  {
    if dedent then (if raw == 0 then 0 else (raw + stop - 1) / stop - 1)
    else raw / stop + 1
  }

  /** One line after indent or dedent: the new indentation, then the line's
      content without its old leading whitespace. */
  function Reindent(style: IndentStyle, line: string, raw: nat, dedent: bool): string
    requires style.Valid()
  {
    Repeat(style.Unit(), Stops(raw, style.StopWidth(), dedent)) + LStrip(line)
  }

  /** Lines first..last after indent or dedent. */
  function Reindented(lines: seq<string>, first: nat, last: nat, style: IndentStyle, dedent: bool): (r: seq<string>)
    requires first <= last < |lines| && style.Valid()
    ensures |r| == last - first + 1
    ensures forall i :: 0 <= i < |r| ==> r[i] == ReindentLine(lines, first + i, style, dedent)
  {
    seq(last - first + 1, i requires 0 <= i < last - first + 1 => ReindentLine(lines, first + i, style, dedent))
  }

  /** Line j after indent or dedent, measured against its reference line. */
  function ReindentLine(lines: seq<string>, j: nat, style: IndentStyle, dedent: bool): string
    requires j < |lines| && style.Valid()
  {
    Reindent(style, lines[j], IndentLevel(lines, j, style.Char()), dedent)
  }

  /** Indent or dedent every line of the selection; endpoints at column 0 stay,
      the others move by their line's change of length (then clamped). */
  function IndentSelection(s: State, style: IndentStyle, dedent: bool): (r: State)
    requires s.Valid() && style.Valid()
    ensures r.Valid()
    ensures |r.lines| == |s.lines|
  {
    var first := s.sel.First().line;
    var last := s.sel.Last().line;
    EndpointLines(s.sel);
    var before := s.lines[first..last + 1];
    var after := Reindented(s.lines, first, last, style, dedent);
    var lines := ReplaceLines(s.lines, first, last, after);
    State(lines, Selection(Moved(s.sel.start, first, before, after, lines),
                           Moved(s.sel.end, first, before, after, lines)))
  }

  /** Where a selection endpoint goes after its line changed from before to after. */
  function Moved(p: Location, base: nat, before: seq<string>, after: seq<string>, lines: seq<string>): (q: Location)
    requires |lines| > 0 && |before| == |after| && base <= p.line < base + |before|
    ensures ValidLoc(lines, q)
    ensures p.line < |lines| ==> q.line == p.line
    ensures p.line < |lines| && p.col == 0 ==> q.col == 0
    ensures var moved := p.col + |after[p.line - base]| - |before[p.line - base]|;
            p.line < |lines| && p.col != 0 && 0 <= moved <= |lines[p.line]| ==> q.col == moved
  {
    var change := if p.col == 0 then 0 else |after[p.line - base]| - |before[p.line - base]|;
    Clamp(lines, p.line, p.col + change)
  }

  /** A moved endpoint whose shifted column falls outside its line is
      clamped to the nearer end of the line. */
  lemma MovedClamped(p: Location, base: nat, before: seq<string>, after: seq<string>, lines: seq<string>)
    requires |lines| > 0 && |before| == |after| && base <= p.line < base + |before| && p.line < |lines| && p.col != 0
    ensures var moved := p.col + |after[p.line - base]| - |before[p.line - base]|;
            var q := Moved(p, base, before, after, lines);
            (moved < 0 ==> q.col == 0) && (moved > |lines[p.line]| ==> q.col == |lines[p.line]|)
  {
  }

  /** Indent and dedent rewrite exactly the selected lines, to their reindented form. */
  lemma IndentSelectionLines(s: State, style: IndentStyle, dedent: bool)
    requires s.Valid() && style.Valid()
    ensures var first := s.sel.First().line;
            var last := s.sel.Last().line;
            IndentSelection(s, style, dedent).lines == s.lines[..first] + Reindented(s.lines, first, last, style, dedent) + s.lines[last + 1..]
  {
    EndpointLines(s.sel);
  }

  /** Reindenting keeps a line's content after its indentation, and the new
      indentation is a whole number of indent units. */
  lemma ReindentKeepsContent(style: IndentStyle, line: string, raw: nat, dedent: bool)
    requires style.Valid()
    ensures var n := Stops(raw, style.StopWidth(), dedent);
            var r := Reindent(style, line, raw, dedent);
            LStrip(r) == LStrip(line)
            && LeadingWidth(r) == n * |style.Unit()|
  {
    var n := Stops(raw, style.StopWidth(), dedent);
    RepeatSpaces(style.Unit(), n);
    LStripAfterWhitespace(Repeat(style.Unit(), n), LStrip(line));
    LStripIdempotent(line);
  }

  /** A column on the text of a line, after its indentation, moves by the
      line's change of length when the line is reindented, and lands on the
      same character. */
  lemma ReindentKeepsCharacter(style: IndentStyle, line: string, raw: nat, dedent: bool, col: nat)
    requires style.Valid() && LeadingWidth(line) <= col < |line|
    ensures var r := Reindent(style, line, raw, dedent);
            0 <= col + |r| - |line| < |r| && r[col + |r| - |line|] == line[col]
  {
    var ind := Repeat(style.Unit(), Stops(raw, style.StopWidth(), dedent));
    var lw := LeadingWidth(line);
    var r := Reindent(style, line, raw, dedent);
    assert r == ind + LStrip(line);
    assert r[|ind| + (col - lw)] == LStrip(line)[col - lw];
  }

  /** A selection start that is not in column 0 and sits on the text of its
      line, after the indentation, stays on the same character when the
      selection is indented or dedented. */
  lemma IndentSelectionStartKeepsCharacter(s: State, style: IndentStyle, dedent: bool)
    requires s.Valid() && style.Valid()
    requires 0 < s.sel.start.col
    requires LeadingWidth(s.lines[s.sel.start.line]) <= s.sel.start.col < |s.lines[s.sel.start.line]|
    ensures var r := IndentSelection(s, style, dedent);
            r.sel.start.line == s.sel.start.line && r.sel.start.col < |r.lines[r.sel.start.line]|
            && r.lines[r.sel.start.line][r.sel.start.col] == s.lines[s.sel.start.line][s.sel.start.col]
  {
    var r := IndentSelection(s, style, dedent);
    EndpointLines(s.sel);
    IndentSelectionStart(s, style, dedent);
    IndentSelectionLine(s, style, dedent, s.sel.start.line);
    MovedKeepsCharacter(s.lines, r.lines, s.sel.First().line, s.sel.Last().line, style, dedent, s.sel.start, r.sel.start);
  }

  /** The same for the selection's end, which is the start of the same
      selection taken the other way round. */
  lemma IndentSelectionEndKeepsCharacter(s: State, style: IndentStyle, dedent: bool)
    requires s.Valid() && style.Valid()
    requires 0 < s.sel.end.col
    requires LeadingWidth(s.lines[s.sel.end.line]) <= s.sel.end.col < |s.lines[s.sel.end.line]|
    ensures var r := IndentSelection(s, style, dedent);
            r.sel.end.line == s.sel.end.line && r.sel.end.col < |r.lines[r.sel.end.line]|
            && r.lines[r.sel.end.line][r.sel.end.col] == s.lines[s.sel.end.line][s.sel.end.col]
  {
    var t := State(s.lines, Selection(s.sel.end, s.sel.start));
    IndentSelectionReversed(s, style, dedent);
    IndentSelectionStartKeepsCharacter(t, style, dedent);
  }

  /** Indenting a selection taken the other way round gives the same lines
      and the same endpoints, swapped. */
  lemma IndentSelectionReversed(s: State, style: IndentStyle, dedent: bool)
    requires s.Valid() && style.Valid()
    ensures var t := State(s.lines, Selection(s.sel.end, s.sel.start));
            var r := IndentSelection(s, style, dedent);
            var u := IndentSelection(t, style, dedent);
            t.Valid() && u.lines == r.lines && u.sel == Selection(r.sel.end, r.sel.start)
  {
    var t := State(s.lines, Selection(s.sel.end, s.sel.start));
    assert t.sel.First() == s.sel.First() && t.sel.Last() == s.sel.Last();
  }

  /** After indent or dedent, the selection's start is moved by its line's
      change of length. */
  lemma IndentSelectionStart(s: State, style: IndentStyle, dedent: bool)
    requires s.Valid() && style.Valid()
    ensures var first := s.sel.First().line;
            var last := s.sel.Last().line;
            var r := IndentSelection(s, style, dedent);
            first <= s.sel.start.line <= last < |s.lines|
            && r.sel.start == Moved(s.sel.start, first, s.lines[first..last + 1], Reindented(s.lines, first, last, style, dedent), r.lines)
  {
    EndpointLines(s.sel);
  }

  /** After indent or dedent, the selection's end is moved by its line's
      change of length. */
  lemma IndentSelectionEnd(s: State, style: IndentStyle, dedent: bool)
    requires s.Valid() && style.Valid()
    ensures var first := s.sel.First().line;
            var last := s.sel.Last().line;
            var r := IndentSelection(s, style, dedent);
            first <= s.sel.end.line <= last < |s.lines|
            && r.sel.end == Moved(s.sel.end, first, s.lines[first..last + 1], Reindented(s.lines, first, last, style, dedent), r.lines)
  {
    EndpointLines(s.sel);
  }

  /** An endpoint on the text of a selected line, moved as indent and dedent
      move it into lines whose line is the reindented form, lands on the same
      character. */
  lemma MovedKeepsCharacter(old_lines: seq<string>, lines: seq<string>, first: nat, last: nat,
                            style: IndentStyle, dedent: bool, p: Location, q: Location)
    requires style.Valid() && first <= p.line <= last < |old_lines| && |lines| == |old_lines|
    requires q == Moved(p, first, old_lines[first..last + 1], Reindented(old_lines, first, last, style, dedent), lines)
    requires lines[p.line] == ReindentLine(old_lines, p.line, style, dedent)
    requires 0 < p.col && LeadingWidth(old_lines[p.line]) <= p.col < |old_lines[p.line]|
    ensures q.line == p.line && q.col < |lines[p.line]| && lines[p.line][q.col] == old_lines[p.line][p.col]
  {
    var before := old_lines[first..last + 1];
    var after := Reindented(old_lines, first, last, style, dedent);
    ReindentedAt(old_lines, first, last, style, dedent, p.line);
    assert before[p.line - first] == old_lines[p.line];
    ReindentKeepsCharacter(style, old_lines[p.line], IndentLevel(old_lines, p.line, style.Char()), dedent, p.col);
  }

  /** Indent and dedent leave the lines outside the selection untouched. */
  lemma IndentSelectionOutside(s: State, style: IndentStyle, dedent: bool, k: nat)
    requires s.Valid() && style.Valid() && k < |s.lines|
    requires k < s.sel.First().line || k > s.sel.Last().line
    ensures IndentSelection(s, style, dedent).lines[k] == s.lines[k]
  {
    var lines := IndentSelection(s, style, dedent).lines;
    var first := s.sel.First().line;
    var last := s.sel.Last().line;
    IndentSelectionLines(s, style, dedent);
    if k < first {
      assert lines[k] == s.lines[..first][k];
    } else {
      assert lines[k] == (s.lines[last + 1..])[k - last - 1];
    }
  }

  /** Indent and dedent keep every selected line's content after its
      indentation, and its new indentation is a whole number of indent units. */
  lemma IndentSelectionInside(s: State, style: IndentStyle, dedent: bool, k: nat)
    requires s.Valid() && style.Valid()
    requires s.sel.First().line <= k <= s.sel.Last().line
    ensures var r := IndentSelection(s, style, dedent);
            k < |r.lines|
            && LStrip(r.lines[k]) == LStrip(s.lines[k])
            && LeadingWidth(r.lines[k]) == Stops(IndentLevel(s.lines, k, style.Char()), style.StopWidth(), dedent) * |style.Unit()|
  {
    var raw := IndentLevel(s.lines, k, style.Char());
    IndentSelectionLine(s, style, dedent, k);
    ReindentKeepsContent(style, s.lines[k], raw, dedent);
  }

  /** A selected line after indent or dedent is its reindented form. */
  lemma IndentSelectionLine(s: State, style: IndentStyle, dedent: bool, k: nat)
    requires s.Valid() && style.Valid()
    requires s.sel.First().line <= k <= s.sel.Last().line
    ensures var r := IndentSelection(s, style, dedent);
            k < |r.lines| && r.lines[k] == ReindentLine(s.lines, k, style, dedent)
  {
    var first := s.sel.First().line;
    var last := s.sel.Last().line;
    var after := Reindented(s.lines, first, last, style, dedent);
    var lines := IndentSelection(s, style, dedent).lines;
    assert lines == s.lines[..first] + after + s.lines[last + 1..] by {
      IndentSelectionLines(s, style, dedent);
    }
    MiddleLine(lines, s.lines, first, last, after, k);
    ReindentedAt(s.lines, first, last, style, dedent, k);
  }

  /** A line inside a replaced block of lines is the matching new line. */
  lemma MiddleLine(lines: seq<string>, prev: seq<string>, first: nat, last: nat, after: seq<string>, k: nat)
    requires first <= k <= last < |prev| && |after| == last - first + 1
    requires lines == prev[..first] + after + prev[last + 1..]
    ensures k < |lines| && lines[k] == after[k - first]
  {
  }

  lemma ReindentedAt(lines: seq<string>, first: nat, last: nat, style: IndentStyle, dedent: bool, k: nat)
    requires first <= k <= last < |lines| && style.Valid()
    ensures Reindented(lines, first, last, style, dedent)[k - first] == ReindentLine(lines, k, style, dedent)
  {
    var r := Reindented(lines, first, last, style, dedent);
    assert r[k - first] == ReindentLine(lines, first + (k - first), style, dedent);
  }

  /** Selection endpoints at column 0 do not move under indent or dedent. */
  lemma IndentSelectionColumnZero(s: State, style: IndentStyle, dedent: bool)
    requires s.Valid() && style.Valid()
    ensures var r := IndentSelection(s, style, dedent);
            (s.sel.start.col == 0 ==> r.sel.start == s.sel.start)
            && (s.sel.end.col == 0 ==> r.sel.end == s.sel.end)
  {
  }

  /** The Tab key replaces the selection by indentation when the sorted
      selection lies on one line and is empty, or does not start at column 0,
      or does not end at len(line) - 1. */
  predicate TabReplaces(s: State)
    requires s.Valid()
  {
    var first := s.sel.First();
    var last := s.sel.Last();
    first.line == last.line
    && (first.col == last.col || first.col != 0 || last.col as int != |s.lines[last.line]| - 1)
  }

  function Tab(s: State, style: IndentStyle): (r: State)
    requires s.Valid() && style.Valid()
    ensures r.Valid()
  {
    var first := s.sel.First();
    var last := s.sel.Last();
    SortedEndpoints(s.sel);
    if TabReplaces(s) then
      var w := style.StopWidth();
      Edit(s, first, last, [Chars(style.Char(), w - first.col % w)], false)
    else IndentSelection(s, style, false)
  }

  function ShiftTab(s: State, style: IndentStyle): (r: State)
    requires s.Valid() && style.Valid()
    ensures r.Valid()
  {
    IndentSelection(s, style, true)
  }

  /** When Tab replaces the selection, 1 to StopWidth indent characters go in and
      the cursor lands on the next tab stop after the selection's first column. */
  lemma TabToStop(s: State, style: IndentStyle)
    requires s.Valid() && style.Valid() && TabReplaces(s)
    ensures var first := s.sel.First();
            var last := s.sel.Last();
            var w := style.StopWidth();
            var n := w - first.col % w;
            var line := s.lines[first.line];
            var r := Tab(s, style);
            1 <= n <= w
            && (first.col + n) % w == 0
            && r.lines == s.lines[first.line := line[..first.col] + Chars(style.Char(), n) + line[last.col..]]
            && r.sel == CursorAt(Location(first.line, first.col + n))
  {
    var first := s.sel.First();
    var last := s.sel.Last();
    SortedEndpoints(s.sel);
    var w := style.StopWidth();
    ReplaceInLine(s.lines, first, last, Chars(style.Char(), w - first.col % w));
    NextMultiple(first.col, w);
  }

  /** Enter, when no completer is active: the selection collapses to its first
      endpoint; after an opening bracket the selection is replaced by a line
      break and the next tab stop, and a matching closer under the cursor is
      pushed to its own line at the old indentation; otherwise a line break and
      the reference indentation go in at the first endpoint. */
  function Enter(s: State, style: IndentStyle): (r: State)
    requires s.Valid() && style.Valid()
    ensures r.Valid()
  {
    var first := s.sel.First();
    var last := s.sel.Last();
    SortedEndpoints(s.sel);
    var indent := IndentLevel(s.lines, first.line, style.Char());
    var before := CharBeforeFirst(s);
    if before.Some? && IsBracket(before.value) then
      var s2 := SplitSelection(s, Chars(style.Char(), NextStop(indent, style)));
      if CharAt(s2) == Some(CloserOf(before.value)) then
        var s3 := Insert(s2, ["", Chars(style.Char(), indent)], s2.sel.end);
        State(s3.lines, s2.sel)
      else s2
    else
      Insert(State(s.lines, CursorAt(first)), ["", Chars(style.Char(), indent)], first)
  }

  /** The indentation of a new line opened after a bracket. */
  function NextStop(indent: nat, style: IndentStyle): (n: nat)
    requires style.Valid()
    ensures indent < n
    ensures !style.tabs ==> n <= indent + style.width && n % style.width == 0
    ensures style.tabs ==> n == indent + 1
  {
    if style.tabs then indent + 1
    else
      NextMultiple(indent, style.width);
      indent + (style.width - indent % style.width)
  }

  /** Enter on a cursor between an opening bracket and its closer: the line is
      split in three, the middle line holds the next tab stop's indentation and
      the cursor, the closer goes to the third line at the old indentation. */
  lemma {:induction false} EnterBetweenPair(s: State, style: IndentStyle)
    requires s.Valid() && style.Valid() && s.sel.start == s.sel.end
    requires CharBefore(s).Some? && IsBracket(CharBefore(s).value)
    requires CharAt(s) == Some(CloserOf(CharBefore(s).value))
    ensures var p := s.sel.end;
            var line := s.lines[p.line];
            var indent := IndentLevel(s.lines, p.line, style.Char());
            var n := NextStop(indent, style);
            var r := Enter(s, style);
            r.lines == s.lines[..p.line] + [line[..p.col], Chars(style.Char(), n), Chars(style.Char(), indent) + line[p.col..]] + s.lines[p.line + 1..]
            && r.sel == CursorAt(Location(p.line + 1, n))
  {
    var p := s.sel.end;
    var line := s.lines[p.line];
    var indent := IndentLevel(s.lines, p.line, style.Char());
    var n := NextStop(indent, style);
    var ch := style.Char();
    assert State(s.lines, CursorAt(p)) == s;
    var s2 := EnterSplit(s, style);
    var mid := Chars(ch, n) + line[p.col..];
    assert s2.lines[p.line + 1] == mid;
    assert CharAt(s2) == CharAt(s) by {
      assert mid[n..] == line[p.col..];
    }
    var q := Location(p.line + 1, n);
    var r := Enter(s, style);
    assert r.lines == Replace(s2.lines, q, q, ["", Chars(ch, indent)]);
    var pre := s.lines[..p.line];
    assert s2.lines == pre + [line[..p.col], mid] + s.lines[p.line + 1..];
    SplitSecondLine(pre, line[..p.col], mid, s.lines[p.line + 1..], n, Chars(ch, indent));
    assert mid[..n] == Chars(ch, n);
  }

  /** Splitting the second of two lines at column n: the text after n moves
      to a new third line, after z. */
  lemma SplitSecondLine(pre: seq<string>, x: string, y: string, rest: seq<string>, n: nat, z: string)
    requires n <= |y|
    ensures var lines := pre + [x, y] + rest;
            var q := Location(|pre| + 1, n);
            ValidLoc(lines, q)
            && Replace(lines, q, q, ["", z]) == pre + [x, y[..n], z + y[n..]] + rest
  {
    var lines := pre + [x, y] + rest;
    var q := Location(|pre| + 1, n);
    assert lines[|pre| + 1] == y;
    SplitLine(lines, q, q, "", z);
    assert y[..n] + "" == y[..n];
    assert "" + z + y[n..] == z + y[n..];
    assert lines[..|pre| + 1] == pre + [x];
    assert lines[|pre| + 2..] == rest;
  }

  /** The first step of Enter after an opening bracket, on a cursor: the line
      is split and the new line starts with the next tab stop's indentation. */
  function EnterSplit(s: State, style: IndentStyle): (r: State)
    requires s.Valid() && style.Valid() && s.sel.start == s.sel.end
    ensures var p := s.sel.end;
            var line := s.lines[p.line];
            var n := NextStop(IndentLevel(s.lines, p.line, style.Char()), style);
            r.Valid()
            && r.lines == s.lines[..p.line] + [line[..p.col], Chars(style.Char(), n) + line[p.col..]] + s.lines[p.line + 1..]
            && r.sel == CursorAt(Location(p.line + 1, n))
  {
    var p := s.sel.end;
    var n := NextStop(IndentLevel(s.lines, p.line, style.Char()), style);
    SplitLine(s.lines, p, p, "", Chars(style.Char(), n));
    assert "" + Chars(style.Char(), n) == Chars(style.Char(), n);
    assert s.lines[p.line][..p.col] + "" == s.lines[p.line][..p.col];
    Edit(s, p, p, ["", Chars(style.Char(), n)], true)
  }

  /** Enter on a cursor right after an opening bracket whose closer is not under
      the cursor: the line is split and the cursor lands after the new line's
      indentation, the next tab stop. */
  lemma EnterAfterBracket(s: State, style: IndentStyle)
    requires s.Valid() && style.Valid() && s.sel.start == s.sel.end
    requires CharBefore(s).Some? && IsBracket(CharBefore(s).value)
    requires CharAt(s) != Some(CloserOf(CharBefore(s).value))
    ensures var p := s.sel.end;
            var line := s.lines[p.line];
            var n := NextStop(IndentLevel(s.lines, p.line, style.Char()), style);
            var r := Enter(s, style);
            r.lines == s.lines[..p.line] + [line[..p.col], Chars(style.Char(), n) + line[p.col..]] + s.lines[p.line + 1..]
            && r.sel == CursorAt(Location(p.line + 1, n))
  {
    var p := s.sel.end;
    var line := s.lines[p.line];
    var n := NextStop(IndentLevel(s.lines, p.line, style.Char()), style);
    assert State(s.lines, CursorAt(p)) == s;
    var s2 := EnterSplit(s, style);
    var mid := Chars(style.Char(), n) + line[p.col..];
    assert s2.lines[p.line + 1] == mid;
    assert CharAt(s2) == CharAt(s) by {
      assert mid[n..] == line[p.col..];
    }
  }

  /** Enter on a cursor anywhere else: the line is split and the new line starts
      with the reference indentation, followed by the cursor. */
  lemma EnterPlain(s: State, style: IndentStyle)
    requires s.Valid() && style.Valid() && s.sel.start == s.sel.end
    requires !(CharBefore(s).Some? && IsBracket(CharBefore(s).value))
    ensures var p := s.sel.end;
            var line := s.lines[p.line];
            var indent := IndentLevel(s.lines, p.line, style.Char());
            var r := Enter(s, style);
            r.lines == s.lines[..p.line] + [line[..p.col], Chars(style.Char(), indent) + line[p.col..]] + s.lines[p.line + 1..]
            && r.sel == CursorAt(Location(p.line + 1, indent))
  {
    var p := s.sel.end;
    var line := s.lines[p.line];
    var indent := IndentLevel(s.lines, p.line, style.Char());
    assert State(s.lines, CursorAt(p)) == s;
    SplitLine(s.lines, p, p, "", Chars(style.Char(), indent));
    assert "" + Chars(style.Char(), indent) == Chars(style.Char(), indent);
    assert line[..p.col] + "" == line[..p.col];
  }

  /** The character left of a selection's first endpoint. */
  function CharBeforeFirst(s: State): (r: Option<char>)
    requires s.Valid()
    ensures var f := s.sel.First();
            (r.None? <==> f.col == 0) && (r.Some? ==> r.value == s.lines[f.line][f.col - 1])
  {
    CharBefore(State(s.lines, CursorAt(s.sel.First())))
  }

  /** The character right of a selection's last endpoint. */
  function CharAfterLast(s: State): (r: Option<char>)
    requires s.Valid()
    ensures var l := s.sel.Last();
            var tail := s.lines[l.line][l.col..];
            (r.None? <==> tail == []) && (r.Some? ==> r.value == tail[0])
  {
    CharAt(State(s.lines, CursorAt(s.sel.Last())))
  }

  /** Enter over a selection that follows an opening bracket and is followed
      by its closer: the selected text gives way to a new line holding the
      next tab stop's indentation and the cursor, and the closer goes to a
      line of its own at the old indentation. */
  lemma EnterSelectionBetweenPair(s: State, style: IndentStyle)
    requires s.Valid() && style.Valid()
    requires CharBeforeFirst(s).Some? && IsBracket(CharBeforeFirst(s).value)
    requires CharAfterLast(s) == Some(CloserOf(CharBeforeFirst(s).value))
    ensures var f := s.sel.First();
            var l := s.sel.Last();
            var ch := style.Char();
            var indent := IndentLevel(s.lines, f.line, ch);
            var n := NextStop(indent, style);
            var r := Enter(s, style);
            r.sel == CursorAt(Location(f.line + 1, n))
            && r.lines == s.lines[..f.line]
                          + [s.lines[f.line][..f.col], Chars(ch, n), Chars(ch, indent) + s.lines[l.line][l.col..]]
                          + s.lines[l.line + 1..]
  {
    var f := s.sel.First();
    var l := s.sel.Last();
    var ch := style.Char();
    var indent := IndentLevel(s.lines, f.line, ch);
    var n := NextStop(indent, style);
    var tail := s.lines[l.line][l.col..];
    var s2 := SplitSelection(s, Chars(ch, n));
    EnterBetweenPairSteps(s, style);
    OpenSplitLine(s2.lines, s.lines[..f.line], s.lines[f.line][..f.col], Chars(ch, n), tail, s.lines[l.line + 1..],
                  Chars(ch, indent), Location(f.line + 1, n));
  }

  /** Enter between a bracket pair, as the split of the selection followed by
      the opening of a line at the new cursor. */
  lemma EnterBetweenPairSteps(s: State, style: IndentStyle)
    requires s.Valid() && style.Valid()
    requires CharBeforeFirst(s).Some? && IsBracket(CharBeforeFirst(s).value)
    requires CharAfterLast(s) == Some(CloserOf(CharBeforeFirst(s).value))
    ensures var ch := style.Char();
            var indent := IndentLevel(s.lines, s.sel.First().line, ch);
            var n := NextStop(indent, style);
            var s2 := SplitSelection(s, Chars(ch, n));
            var q := Location(s.sel.First().line + 1, n);
            ValidLoc(s2.lines, q)
            && Enter(s, style) == State(Replace(s2.lines, q, q, ["", Chars(ch, indent)]), CursorAt(q))
  {
  }

  /** Opening a line at column `n` of the second of two lines, where it
      divides into `a` and `b`. */
  lemma OpenSplitLine(lines: seq<string>, pre: seq<string>, x: string, a: string, b: string, rest: seq<string>,
                      z: string, q: Location)
    requires lines == pre + [x, a + b] + rest
    requires q.line == |pre| + 1 && q.col == |a|
    ensures ValidLoc(lines, q) && Replace(lines, q, q, ["", z]) == pre + [x, a, z + b] + rest
  {
    SplitSecondLine(pre, x, a + b, rest, |a|, z);
    assert (a + b)[..|a|] == a && (a + b)[|a|..] == b;
  }

  /** Enter over a selection that follows an opening bracket but is not
      followed by its closer: the selected text gives way to a line break and
      the next tab stop's indentation, with the cursor after it. */
  lemma EnterSelectionAfterBracket(s: State, style: IndentStyle)
    requires s.Valid() && style.Valid()
    requires CharBeforeFirst(s).Some? && IsBracket(CharBeforeFirst(s).value)
    requires CharAfterLast(s) != Some(CloserOf(CharBeforeFirst(s).value))
    ensures var f := s.sel.First();
            var l := s.sel.Last();
            var ch := style.Char();
            var n := NextStop(IndentLevel(s.lines, f.line, ch), style);
            var r := Enter(s, style);
            r.sel == CursorAt(Location(f.line + 1, n))
            && r.lines == s.lines[..f.line] + [s.lines[f.line][..f.col], Chars(ch, n) + s.lines[l.line][l.col..]]
                          + s.lines[l.line + 1..]
  {
  }

  /** The first step of Enter after an opening bracket: the selection gives
      way to a line break followed by the text ind, and the cursor lands after
      ind, with the text after the selection under it. */
  function SplitSelection(s: State, ind: string): (r: State)
    requires s.Valid()
    ensures var f := s.sel.First();
            var l := s.sel.Last();
            var tail := s.lines[l.line][l.col..];
            r.Valid()
            && r.lines == s.lines[..f.line] + [s.lines[f.line][..f.col], ind + tail] + s.lines[l.line + 1..]
            && r.sel == CursorAt(Location(f.line + 1, |ind|))
            && CharAt(r) == CharAfterLast(s)
  {
    var f := s.sel.First();
    var l := s.sel.Last();
    SortedEndpoints(s.sel);
    SplitRange(s.lines, f, l, "", ind);
    assert s.lines[f.line][..f.col] + "" == s.lines[f.line][..f.col];
    var r := Edit(State(s.lines, CursorAt(f)), f, l, ["", ind], true);
    assert r.lines[f.line + 1] == ind + s.lines[l.line][l.col..];
    r
  }

  /** Enter over a selection whose first endpoint does not follow an opening
      bracket: the line break and the reference indentation go in at the first
      endpoint, the selected text stays, and the cursor lands after the
      indentation. */
  lemma EnterSelectionPlain(s: State, style: IndentStyle)
    requires s.Valid() && style.Valid()
    requires !(CharBeforeFirst(s).Some? && IsBracket(CharBeforeFirst(s).value))
    ensures var f := s.sel.First();
            var line := s.lines[f.line];
            var indent := IndentLevel(s.lines, f.line, style.Char());
            var r := Enter(s, style);
            r.lines == s.lines[..f.line] + [line[..f.col], Chars(style.Char(), indent) + line[f.col..]] + s.lines[f.line + 1..]
            && r.sel == CursorAt(Location(f.line + 1, indent))
  {
    var f := s.sel.First();
    SortedEndpoints(s.sel);
    var c := State(s.lines, CursorAt(f));
    assert c.sel.First() == f && c.sel.end == f;
    assert Enter(s, style) == Enter(c, style);
    EnterPlain(c, style);
  }

  /** Delete-line. A selection is deleted. With a cursor: a one-line document
      becomes empty, the last line is removed with the cursor going to the end
      of the line above, any other line is removed with the cursor going to
      column 0 of the line that follows it. */
  function DeleteLine(s: State): (r: State)
    requires s.Valid()
    ensures r.Valid()
  {
    if s.sel.start != s.sel.end then
      SortedEndpoints(s.sel);
      Edit(s, s.sel.First(), s.sel.Last(), [""], false)
    else
      var p := s.sel.end;
      if |s.lines| == 1 then State([""], CursorAt(Location(0, 0)))
      else if p.line == |s.lines| - 1 then
        var eol := |s.lines[p.line - 1]|;
        var s1 := Edit(s, Location(p.line - 1, eol), Location(p.line, |s.lines[p.line]|), [""], true);
        State(s1.lines, CursorAt(Location(p.line - 1, eol)))
      else
        var s1 := Edit(s, Location(p.line, 0), Location(p.line + 1, 0), [""], true);
        State(s1.lines, CursorAt(Location(p.line, 0)))
  }

  /** With a cursor in a document of two or more lines, delete-line removes
      exactly the cursor's line. */
  lemma {:induction false} DeleteLineRemovesLine(s: State)
    requires s.Valid() && s.sel.start == s.sel.end && |s.lines| > 1
    ensures var l := s.sel.end.line;
            var r := DeleteLine(s);
            r.lines == s.lines[..l] + s.lines[l + 1..]
            && r.sel == (if l == |s.lines| - 1 then CursorAt(Location(l - 1, |s.lines[l - 1]|))
                         else CursorAt(Location(l, 0)))
  {
    var l := s.sel.end.line;
    if l == |s.lines| - 1 {
      RemoveLastLine(s.lines, l);
    } else {
      RemoveLineBefore(s.lines, l);
    }
  }

  /** Deleting from the end of the line above to the end of the last line
      removes the last line. */
  lemma RemoveLastLine(lines: seq<string>, l: nat)
    requires 0 < l == |lines| - 1
    ensures Replace(lines, Location(l - 1, |lines[l - 1]|), Location(l, |lines[l]|), [""]) == lines[..l] + lines[l + 1..]
  {
    var r := Replace(lines, Location(l - 1, |lines[l - 1]|), Location(l, |lines[l]|), [""]);
    assert r == lines[..l - 1] + [lines[l - 1][..|lines[l - 1]|] + "" + lines[l][|lines[l]|..]] + lines[l + 1..];
    assert lines[l - 1][..|lines[l - 1]|] + "" + lines[l][|lines[l]|..] == lines[l - 1];
    assert lines[..l] == lines[..l - 1] + [lines[l - 1]];
  }

  /** Deleting from column 0 of a line to column 0 of the next removes the line. */
  lemma RemoveLineBefore(lines: seq<string>, l: nat)
    requires l + 1 < |lines|
    ensures Replace(lines, Location(l, 0), Location(l + 1, 0), [""]) == lines[..l] + lines[l + 1..]
  {
    var r := Replace(lines, Location(l, 0), Location(l + 1, 0), [""]);
    assert r == lines[..l] + [lines[l][..0] + "" + lines[l + 1][0..]] + lines[l + 2..];
    assert lines[l][..0] + "" + lines[l + 1][0..] == lines[l + 1];
    assert lines[l + 1..] == [lines[l + 1]] + lines[l + 2..];
  }

  /** With a selection, delete-line joins the text before its first endpoint and
      after its last one, and leaves the cursor at the first endpoint. */
  lemma DeleteLineSelection(s: State)
    requires s.Valid() && s.sel.start != s.sel.end
    ensures var first := s.sel.First();
            var last := s.sel.Last();
            var r := DeleteLine(s);
            |r.lines| == |s.lines| - (last.line - first.line)
            && r.lines[first.line] == s.lines[first.line][..first.col] + s.lines[last.line][last.col..]
            && r.sel == CursorAt(first)
  {
    var first := s.sel.First();
    var last := s.sel.Last();
    SortedEndpoints(s.sel);
    var head := s.lines[first.line][..first.col];
    var tail := s.lines[last.line][last.col..];
    var r := Replace(s.lines, first, last, [""]);
    assert r == s.lines[..first.line] + [head + "" + tail] + s.lines[last.line + 1..];
    assert r[first.line] == head + "" + tail;
    assert head + "" + tail == head + tail;
  }

  /** The default handling of a printable key by the underlying text area:
      the character replaces the selection and the cursor follows it. */
  function TypeCharacter(s: State, c: char): (r: State)
    requires s.Valid()
    ensures r.Valid()
  {
    SortedEndpoints(s.sel);
    Edit(s, s.sel.First(), s.sel.Last(), [[c]], false)
  }
}

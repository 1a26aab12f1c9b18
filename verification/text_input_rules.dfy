/** The editing rules of the older TextInput widget, as functions of its
    lines, cursor, selection anchor and clipboard. Columns follow Python's
    slicing: a negative column counts from the end of its line, and a
    column past either end of a slice is clamped. */
module TextInputRules {
  import opened TextUtil
  import Serde

  const TabSize: nat := 4

  /** A caret position (the record in key_handlers.py without its unused
      preferred column). A dedent can leave a negative column. */
  datatype Cursor = Cursor(lno: nat, pos: int)

  /** Python's tuple order on cursors. */
  predicate Le(a: Cursor, b: Cursor)
  {
    a.lno < b.lno || (a.lno == b.lno && a.pos <= b.pos)
  }

  /** min(a, b) under tuple order. */
  function First(a: Cursor, b: Cursor): (r: Cursor)
    ensures Le(r, a) && Le(r, b) && (r == a || r == b)
  {
    if Le(a, b) then a else b
  }

  /** max(a, b) under tuple order. */
  function Last(a: Cursor, b: Cursor): (r: Cursor)
    ensures Le(a, r) && Le(b, r) && (r == a || r == b)
  {
    if Le(b, a) then a else b
  }

  /** The anchor of a selection, or the cursor itself when there is none. */
  function AnchorOr(anchor: Option<Cursor>, cursor: Cursor): Cursor
  {
    if anchor.Some? then anchor.value else cursor
  }

  predicate IsBracket(c: char)
  {
    c == '(' || c == '[' || c == '{'
  }

  predicate IsClosingBracket(c: char)
  {
    c == ')' || c == ']' || c == '}'
  }

  /** The keys of the CLOSERS table: brackets and the two quotes. */
  predicate HasCloser(c: char)
  {
    IsBracket(c) || c == '"' || c == '\''
  }

  function CloserOf(c: char): (r: char)
    requires HasCloser(c)
    ensures IsBracket(c) <==> IsClosingBracket(r)
    ensures !IsBracket(c) ==> r == c
  {
    match c
    case '(' => ')'
    case '[' => ']'
    case '{' => '}'
    case _ => c
  }

  /** The characters whose keys get quote-and-bracket handling. */
  predicate IsQuoteOrBracket(c: char)
  {
    HasCloser(c) || IsClosingBracket(c)
  }

  // ---------------------------------------------------------------- slicing

  /** Where Python cuts a sequence of length n at index p. */
  function CutPoint(p: int, n: nat): (k: nat)
    ensures k <= n
    ensures 0 <= p <= n ==> k == p
    ensures p > n ==> k == n
    ensures p < 0 ==> k == (if n + p < 0 then 0 else n + p)
  {
    if p < 0 then (if n + p < 0 then 0 else n + p) else if p > n then n else p
  }

  /** line[:p] */
  function Head(line: string, p: int): string
  {
    line[..CutPoint(p, |line|)]
  }

  /** line[p:] */
  function Tail(line: string, p: int): string
  {
    line[CutPoint(p, |line|)..]
  }

  lemma HeadTail(line: string, p: int)
    ensures Head(line, p) + Tail(line, p) == line
  {
    assert line[..CutPoint(p, |line|)] + line[CutPoint(p, |line|)..] == line;
  }

  /** Cutting head + tail where head ends gives both parts back. */
  lemma CutAtSeam(head: string, tail: string)
    ensures Head(head + tail, |head|) == head && Tail(head + tail, |head|) == tail
  {
  }

  /** Python can index line at p: a negative p counts from the end. */
  predicate InLine(line: string, p: int)
  {
    -|line| <= p < |line|
  }

  /** line[p], defined where Python does not raise IndexError. */
  function CharAt(line: string, p: int): char
    requires InLine(line, p)
  {
    if p >= 0 then line[p] else line[|line| + p]
  }

  /** A cursor whose line exists and whose column is on a character of it. */
  predicate At(lines: seq<string>, c: Cursor)
  {
    c.lno < |lines| && 0 <= c.pos < |lines[c.lno]|
  }

  // ----------------------------------------------------------------- insert

  /** line[:pos] + text + line[pos:] */
  function InsertAt(line: string, pos: int, text: string): (r: string)
    ensures |r| == |line| + |text|
  {
    Head(line, pos) + text + Tail(line, pos)
  }

  /** Inserting text at a column and cutting the same span out again gives
      the line back. */
  lemma InsertThenCut(line: string, pos: int, text: string)
    requires 0 <= pos <= |line|
    ensures var r := InsertAt(line, pos, text);
            r[pos..pos + |text|] == text
            && Head(r, pos) + Tail(r, pos + |text|) == line
  {
    var r := InsertAt(line, pos, text);
    assert r == line[..pos] + text + line[pos..];
    assert r[..pos] == line[..pos];
    assert r[pos + |text|..] == line[pos..];
    assert line[..pos] + line[pos..] == line;
  }

  /** The lines after inserting text into the cursor's line. */
  function Inserted(lines: seq<string>, at: Cursor, text: string): (r: seq<string>)
    requires at.lno < |lines|
    ensures |r| == |lines|
  {
    lines[at.lno := InsertAt(lines[at.lno], at.pos, text)]
  }

  // ----------------------------------------------------------------- delete

  /** What is left of a selected range: the head of its first line and the
      tail of its last. */
  function Joined(lines: seq<string>, first: Cursor, last: Cursor): string
    requires first.lno < |lines| && last.lno < |lines|
  {
    Head(lines[first.lno], first.pos) + Tail(lines[last.lno], last.pos)
  }

  /** The lines after deleting the range between a and c. An empty remainder
      removes the lines altogether, and an emptied document becomes [" "]. */
  function Deleted(lines: seq<string>, a: Cursor, c: Cursor): (r: seq<string>)
    requires a.lno < |lines| && c.lno < |lines|
    ensures |r| > 0
  {
    var first := First(a, c);
    var last := Last(a, c);
    var joined := Joined(lines, first, last);
    if joined != "" then
      Splice(lines, first.lno, last.lno + 1, [joined])
    else
      var rest := Splice(lines, first.lno, last.lno + 1, []);
      if rest == [] then [" "] else rest
  }

  /** With the last endpoint on a character, the range collapses onto one
      line holding what surrounds it, and the first endpoint stays in that
      line. */
  lemma DeletedCollapses(lines: seq<string>, a: Cursor, c: Cursor)
    requires At(lines, a) && At(lines, c)
    ensures var first := First(a, c);
            var last := Last(a, c);
            var r := Deleted(lines, a, c);
            r == Splice(lines, first.lno, last.lno + 1, [Joined(lines, first, last)])
            && |r| == |lines| - (last.lno - first.lno)
            && At(r, first)
  {
    var first := First(a, c);
    var last := Last(a, c);
    var joined := Joined(lines, first, last);
    assert |Tail(lines[last.lno], last.pos)| > 0;
    var r := Splice(lines, first.lno, last.lno + 1, [joined]);
    SpliceParts(lines, first.lno, last.lno + 1, [joined]);
    assert r[first.lno] == joined;
    assert |Head(lines[first.lno], first.pos)| == first.pos;
  }

  /** An empty remainder removes every line of the range. */
  lemma DeletedRemovesLines(lines: seq<string>, a: Cursor, c: Cursor)
    requires a.lno < |lines| && c.lno < |lines|
    requires Joined(lines, First(a, c), Last(a, c)) == ""
    ensures var first := First(a, c);
            var last := Last(a, c);
            var r := Deleted(lines, a, c);
            (|lines| - (last.lno - first.lno) - 1 == 0 ==> r == [" "])
            && (|lines| - (last.lno - first.lno) - 1 > 0 ==>
                  |r| == |lines| - (last.lno - first.lno) - 1
                  && r == Splice(lines, first.lno, last.lno + 1, []))
  {
  }

  /** Inserting text at a column and deleting the same span restores the
      lines and puts the cursor back at the insertion point. */
  lemma InsertThenDelete(lines: seq<string>, at: Cursor, text: string)
    requires At(lines, at)
    ensures var r := Inserted(lines, at, text);
            var end := Cursor(at.lno, at.pos + |text|);
            Deleted(r, at, end) == lines && First(at, end) == at
  {
    var line := lines[at.lno];
    var r := Inserted(lines, at, text);
    var end := Cursor(at.lno, at.pos + |text|);
    InsertThenCut(line, at.pos, text);
    assert Joined(r, at, end) == line;
    SpliceOne(r, at.lno, line);
  }

  // ----------------------------------------------------------- indentation

  /** The number of tab stops a line is given: floor(lead / 4) + 1 on indent,
      max(0, ceil(lead / 4) - 1) on dedent. */
  function NewStops(lead: nat, dedent: bool): nat
  {
    if !dedent then lead / TabSize + 1
    else if lead == 0 then 0
    else (lead + TabSize - 1) / TabSize - 1
  }

  /** Indent moves the leading whitespace to the next tab stop strictly
      after it; dedent to the last tab stop strictly before it, or to none. */
  lemma NewStopsBounds(lead: nat, dedent: bool)
    ensures var w := TabSize * NewStops(lead, dedent);
            (!dedent ==> lead < w <= lead + TabSize)
            && (dedent && lead > 0 ==> w < lead <= w + TabSize)
            && (dedent && lead == 0 ==> w == 0)
  {
  }

  /** One line with its leading whitespace replaced by whole tab stops. */
  function Reindent(line: string, dedent: bool): string
  {
    Spaces(TabSize * NewStops(LeadingWidth(line), dedent)) + LStrip(line)
  }

  lemma SpacesAreSpace(n: nat)
    ensures forall i :: 0 <= i < |Spaces(n)| ==> IsSpace(Spaces(n)[i])
  {
  }

  /** Reindenting keeps the text after the indentation, and the new
      indentation is exactly the computed number of stops. */
  lemma ReindentKeepsText(line: string, dedent: bool)
    ensures var r := Reindent(line, dedent);
            var w := TabSize * NewStops(LeadingWidth(line), dedent);
            LStrip(r) == LStrip(line)
            && r[..w] == Spaces(w)
            && (LStrip(line) != "" ==> LeadingWidth(r) == w)
  {
    var w := TabSize * NewStops(LeadingWidth(line), dedent);
    SpacesAreSpace(w);
    LStripAfterWhitespace(Spaces(w), LStrip(line));
    LStripIdempotent(line);
    var r := Reindent(line, dedent);
    assert r[..w] == Spaces(w);
    if LStrip(line) != "" {
      var rest := LStrip(line);
      assert r[w] == rest[0];
      LeadingUnique(r, w);
    }
  }

  function ReindentAll(ls: seq<string>, dedent: bool): (r: seq<string>)
    ensures |r| == |ls|
  {
    if ls == [] then [] else [Reindent(ls[0], dedent)] + ReindentAll(ls[1..], dedent)
  }

  lemma {:induction false} ReindentAllAt(ls: seq<string>, dedent: bool, i: nat)
    requires i < |ls|
    ensures ReindentAll(ls, dedent)[i] == Reindent(ls[i], dedent)
  {
    if i > 0 {
      ReindentAllAt(ls[1..], dedent, i - 1);
    }
  }

  /** A cursor in a rewritten line keeps column 0, and otherwise moves by
      the change in its line's length. */
  function Shifted(c: Cursor, firstLno: nat, before: seq<string>, after: seq<string>): Cursor
    requires firstLno <= c.lno < firstLno + |before| && |after| == |before|
  {
    if c.pos == 0 then c
    else Cursor(c.lno, c.pos + |after[c.lno - firstLno]| - |before[c.lno - firstLno]|)
  }

  /** The lines of a selection, reindented in place. */
  function Reindented(lines: seq<string>, first: Cursor, last: Cursor, dedent: bool): (r: seq<string>)
    requires first.lno <= last.lno < |lines|
    ensures |r| == |lines|
  {
    Splice(lines, first.lno, last.lno + 1, ReindentAll(lines[first.lno..last.lno + 1], dedent))
  }

  /** Indentation rewrites only the selected lines, each keeping its text
      and getting whole tab stops of spaces. */
  lemma ReindentedLines(lines: seq<string>, first: Cursor, last: Cursor, dedent: bool)
    requires first.lno <= last.lno < |lines|
    ensures var r := Reindented(lines, first, last, dedent);
            (forall k :: 0 <= k < |lines| && (k < first.lno || k > last.lno) ==> r[k] == lines[k])
            && (forall k :: first.lno <= k <= last.lno ==> r[k] == Reindent(lines[k], dedent))
  {
    forall k | first.lno <= k <= last.lno
      ensures Reindented(lines, first, last, dedent)[k] == Reindent(lines[k], dedent)
    {
      ReindentedInside(lines, first, last, dedent, k);
    }
    forall k | last.lno < k < |lines|
      ensures Reindented(lines, first, last, dedent)[k] == lines[k]
    {
      ReindentedAfter(lines, first, last, dedent, k);
    }
  }

  lemma ReindentedInside(lines: seq<string>, first: Cursor, last: Cursor, dedent: bool, k: nat)
    requires first.lno <= k <= last.lno < |lines|
    ensures Reindented(lines, first, last, dedent)[k] == Reindent(lines[k], dedent)
  {
    var picked := lines[first.lno..last.lno + 1];
    var mid := ReindentAll(picked, dedent);
    ReindentAllAt(picked, dedent, k - first.lno);
    assert Reindented(lines, first, last, dedent)[k] == mid[k - first.lno];
    assert picked[k - first.lno] == lines[k];
  }

  lemma ReindentedAfter(lines: seq<string>, first: Cursor, last: Cursor, dedent: bool, k: nat)
    requires first.lno <= last.lno < k < |lines|
    ensures Reindented(lines, first, last, dedent)[k] == lines[k]
  {
    var r := Reindented(lines, first, last, dedent);
    assert r[k] == lines[last.lno + 1..][k - last.lno - 1];
  }

  /** A line indented only by spaces, in whole tab stops. */
  predicate OnTabStop(line: string)
  {
    LeadingWidth(line) % TabSize == 0 && line[..LeadingWidth(line)] == Spaces(LeadingWidth(line))
  }

  /** Dedent undoes indent on a line indented by spaces on a tab stop. */
  lemma DedentUndoesIndent(line: string)
    requires OnTabStop(line) && LStrip(line) != ""
    ensures Reindent(Reindent(line, false), true) == line
  {
    var lead := LeadingWidth(line);
    var once := Reindent(line, false);
    ReindentKeepsText(line, false);
    assert LeadingWidth(once) == lead + TabSize;
    assert (lead + TabSize + TabSize - 1) / TabSize - 1 == lead / TabSize by {
      ModUnique(lead + TabSize + TabSize - 1, lead / TabSize + 1, TabSize - 1, TabSize);
    }
    assert TabSize * (lead / TabSize) == lead;
    assert line == line[..lead] + line[lead..];
  }

  /** Dedent after indent restores every selected line that is indented by
      spaces on a tab stop and has text. */
  lemma DedentUndoesIndentLines(lines: seq<string>, first: Cursor, last: Cursor)
    requires first.lno <= last.lno < |lines|
    requires forall k :: first.lno <= k <= last.lno ==> OnTabStop(lines[k]) && LStrip(lines[k]) != ""
    ensures Reindented(Reindented(lines, first, last, false), first, last, true) == lines
  {
    var once := Reindented(lines, first, last, false);
    var twice := Reindented(once, first, last, true);
    ReindentedLines(lines, first, last, false);
    ReindentedLines(once, first, last, true);
    forall k | 0 <= k < |lines| ensures twice[k] == lines[k] {
      if first.lno <= k <= last.lno {
        DedentUndoesIndent(lines[k]);
      }
    }
  }

  /** A line indented by spaces only. */
  predicate SpaceIndented(line: string)
  {
    line[..LeadingWidth(line)] == Spaces(LeadingWidth(line))
  }

  /** A dedent with the cursor inside the indentation leaves a negative
      column: the cursor shifts by the whole change of its line's length. */
  lemma DedentCanLeaveNegativeColumn()
    ensures var lines := ["    x "];
            var c := Cursor(0, 2);
            var before := lines[0..1];
            var after := ReindentAll(before, true);
            Shifted(c, 0, before, after).pos == -2
  {
    var line := "    x ";
    ReindentAllAt([line], true, 0);
    LeadingUnique(line, 4);
    assert LStrip(line) == "x ";
    assert Reindent(line, true) == "x ";
  }

  /** A cursor on the text of a line stays on the same character when the
      line is reindented. */
  lemma ShiftedKeepsCharacter(line: string, pos: int, dedent: bool)
    requires LeadingWidth(line) <= pos < |line|
    ensures var r := Reindent(line, dedent);
            0 <= pos + |r| - |line| < |r| && r[pos + |r| - |line|] == line[pos]
  {
    var w := TabSize * NewStops(LeadingWidth(line), dedent);
    var r := Reindent(line, dedent);
    assert r[w + (pos - LeadingWidth(line))] == LStrip(line)[pos - LeadingWidth(line)];
  }

  // ------------------------------------------------------------------ paste

  /** The lines and cursor after pasting the clipboard at a cursor. With an
      empty clipboard nothing changes. */
  function Pasted(lines: seq<string>, clip: seq<string>, at: Cursor): (seq<string>, Cursor)
    requires at.lno < |lines|
  {
    if clip == [] then (lines, at)
    else
      var line := lines[at.lno];
      var tail := Tail(line, at.pos);
      var r := Splice(lines, at.lno, at.lno + 1, Glue(Head(line, at.pos), clip, tail));
      (r, Cursor(at.lno + |clip| - 1, |r[at.lno + |clip| - 1]| - |tail|))
  }

  /** Pasting k lines adds k - 1 lines; the clipboard's lines replace the
      cursor's line between its head and tail, and the cursor ends on the
      last pasted line, just before the old tail. */
  lemma PastedShape(lines: seq<string>, clip: seq<string>, at: Cursor)
    requires at.lno < |lines| && |clip| > 0
    ensures var (r, c) := Pasted(lines, clip, at);
            var line := lines[at.lno];
            var k := |clip|;
            |r| == |lines| + k - 1
            && r[..at.lno] == lines[..at.lno]
            && r[at.lno + k..] == lines[at.lno + 1..]
            && c.lno == at.lno + k - 1
            && 0 <= c.pos <= |r[c.lno]|
            && r[c.lno][c.pos..] == Tail(line, at.pos)
            && StartsWith(r[at.lno], Head(line, at.pos))
            && (forall i :: 0 < i < k - 1 ==> r[at.lno + i] == clip[i])
            && (k > 1 ==> r[at.lno] == Head(line, at.pos) + clip[0] && r[c.lno] == clip[k - 1] + Tail(line, at.pos))
  {
    var line := lines[at.lno];
    var head := Head(line, at.pos);
    var tail := Tail(line, at.pos);
    var g := Glue(head, clip, tail);
    var (r, c) := Pasted(lines, clip, at);
    SpliceParts(lines, at.lno, at.lno + 1, g);
    assert r[at.lno] == g[0];
    assert r[c.lno] == g[|clip| - 1];
    forall i | 0 < i < |clip| - 1 ensures r[at.lno + i] == clip[i] {
      assert r[at.lno + i] == g[i];
    }
  }

  // ------------------------------------------------------------- copy, cut

  /** The range that copy and cut act on: the selection, or the cursor's
      whole line from column 0 to its length when nothing is selected. */
  function CopyRange(lines: seq<string>, anchor: Option<Cursor>, cursor: Cursor): (Cursor, Cursor)
    requires cursor.lno < |lines|
  {
    if anchor.Some? then (First(anchor.value, cursor), Last(anchor.value, cursor))
    else (Cursor(cursor.lno, 0), Cursor(cursor.lno, |lines[cursor.lno]|))
  }

  /** The clipboard after copy: the selected text line by line, or the
      cursor's line followed by an empty line when nothing is selected. */
  function Copied(lines: seq<string>, anchor: Option<Cursor>, cursor: Cursor): (r: seq<string>)
    requires cursor.lno < |lines| && (anchor.Some? ==> anchor.value.lno < |lines|)
    ensures |r| > 0
  {
    if anchor.Some? then
      var first := First(anchor.value, cursor);
      var last := Last(anchor.value, cursor);
      var picked := lines[first.lno..last.lno + 1];
      var trimmed := picked[|picked| - 1 := Head(picked[|picked| - 1], last.pos)];
      trimmed[0 := Tail(trimmed[0], first.pos)]
    else
      [lines[cursor.lno], ""]
  }

  /** The lines and cursor after cut: the copied range is deleted and the
      cursor is clamped to what is left. */
  function CutLines(lines: seq<string>, anchor: Option<Cursor>, cursor: Cursor): (seq<string>, Cursor)
    requires cursor.lno < |lines| && (anchor.Some? ==> anchor.value.lno < |lines|)
  {
    var (first, last) := CopyRange(lines, anchor, cursor);
    var r := Deleted(lines, first, last);
    var lno := if first.lno < |r| - 1 then first.lno else |r| - 1;
    var pos := if first.pos < |r[lno]| - 1 then first.pos else |r[lno]| - 1;
    (r, Cursor(lno, pos))
  }

  /** With both endpoints on a character, cut leaves the joined line and the
      cursor at the selection's start. */
  lemma CutCollapses(lines: seq<string>, a: Cursor, c: Cursor)
    requires At(lines, a) && At(lines, c)
    ensures var first := First(a, c);
            var last := Last(a, c);
            CutLines(lines, Some(a), c)
              == (Splice(lines, first.lno, last.lno + 1, [Joined(lines, first, last)]), first)
  {
    DeletedCollapses(lines, a, c);
    assert Deleted(lines, First(a, c), Last(a, c)) == Deleted(lines, a, c);
  }

  /** The copied lines glued between the head and tail that surround the
      selection are the selected lines. */
  lemma GlueCopied(lines: seq<string>, first: Cursor, last: Cursor)
    requires At(lines, first) && At(lines, last) && Le(first, last)
    ensures Glue(Head(lines[first.lno], first.pos), Copied(lines, Some(first), last), Tail(lines[last.lno], last.pos))
              == lines[first.lno..last.lno + 1]
  {
    if first.lno == last.lno {
      GlueCopiedOneLine(lines[first.lno], first.pos, last.pos);
    } else {
      GlueCopiedLines(lines, first, last);
    }
  }

  lemma GlueCopiedOneLine(line: string, p: nat, q: nat)
    requires p <= q < |line|
    ensures Glue(Head(line, p), [Tail(Head(line, q), p)], Tail(line, q)) == [line]
  {
    assert line[..q][p..] == line[p..q];
    assert line[..p] + line[p..q] + line[q..] == line;
  }

  lemma GlueCopiedLines(lines: seq<string>, first: Cursor, last: Cursor)
    requires At(lines, first) && At(lines, last) && first.lno < last.lno
    ensures Glue(Head(lines[first.lno], first.pos), Copied(lines, Some(first), last), Tail(lines[last.lno], last.pos))
              == lines[first.lno..last.lno + 1]
  {
    var clip := Copied(lines, Some(first), last);
    var head := Head(lines[first.lno], first.pos);
    var tail := Tail(lines[last.lno], last.pos);
    var g := Glue(head, clip, tail);
    var mid := lines[first.lno..last.lno + 1];
    assert clip[0] == Tail(lines[first.lno], first.pos);
    assert clip[|clip| - 1] == Head(lines[last.lno], last.pos);
    HeadTail(lines[first.lno], first.pos);
    HeadTail(lines[last.lno], last.pos);
    assert g[0] == mid[0];
    assert g[|g| - 1] == mid[|mid| - 1];
    assert forall i :: 0 < i < |g| - 1 ==> g[i] == clip[i] == mid[i];
  }

  /** Cutting a selection and pasting the clipboard where the cursor lands
      restores the lines, with the cursor at the selection's end. */
  lemma CutThenPaste(lines: seq<string>, a: Cursor, c: Cursor)
    requires At(lines, a) && At(lines, c)
    ensures var (cut, at) := CutLines(lines, Some(a), c);
            at == First(a, c)
            && Pasted(cut, Copied(lines, Some(a), c), at) == (lines, Last(a, c))
  {
    CutCollapses(lines, a, c);
    CopiedOrdered(lines, a, c);
    PasteRestores(lines, First(a, c), Last(a, c));
  }

  lemma CopiedOrdered(lines: seq<string>, a: Cursor, c: Cursor)
    requires a.lno < |lines| && c.lno < |lines|
    ensures Copied(lines, Some(a), c) == Copied(lines, Some(First(a, c)), Last(a, c))
  {
  }

  /** Pasting what was copied from an ordered range into the line the range
      collapsed to restores the lines, with the cursor at the range's end. */
  lemma PasteRestores(lines: seq<string>, first: Cursor, last: Cursor)
    requires At(lines, first) && At(lines, last) && Le(first, last)
    ensures Pasted(Splice(lines, first.lno, last.lno + 1, [Joined(lines, first, last)]),
                   Copied(lines, Some(first), last), first) == (lines, last)
  {
    var head := Head(lines[first.lno], first.pos);
    var tail := Tail(lines[last.lno], last.pos);
    GlueCopied(lines, first, last);
    HeadTailLengths(lines[first.lno], first.pos, lines[last.lno], last.pos);
    PastedIntoJoined(lines, first, last, Copied(lines, Some(first), last), head, tail);
  }

  /** Pasting, at the seam of the line head + tail that lines first..last
      were cut to, clipboard lines that glue between head and tail into
      those lines puts them back, with the cursor at last. */
  lemma PastedIntoJoined(lines: seq<string>, first: Cursor, last: Cursor, clip: seq<string>, head: string, tail: string)
    requires first.lno <= last.lno < |lines| && |clip| > 0 && last.pos <= |lines[last.lno]|
    requires |head| == first.pos && |tail| == |lines[last.lno]| - last.pos
    requires Glue(head, clip, tail) == lines[first.lno..last.lno + 1]
    ensures Pasted(Splice(lines, first.lno, last.lno + 1, [head + tail]), clip, first) == (lines, last)
  {
    var cut := Splice(lines, first.lno, last.lno + 1, [head + tail]);
    SpliceOneRoundTrip(lines, first.lno, last.lno, head + tail);
    assert |clip| == last.lno - first.lno + 1;
    PastedJoined(cut, first, clip, head, tail, lines);
  }

  lemma HeadTailLengths(line1: string, p: nat, line2: string, q: nat)
    requires p <= |line1| && q <= |line2|
    ensures |Head(line1, p)| == p && |Tail(line2, q)| == |line2| - q
  {
  }

  /** Pasting into a line made of head + tail, at the seam, clipboard lines
      that glue between them into the lines of a range puts that range in
      the line's place, with the cursor before the tail. */
  lemma PastedJoined(lines: seq<string>, at: Cursor, clip: seq<string>, head: string, tail: string, whole: seq<string>)
    requires at.lno < |lines| && lines[at.lno] == head + tail && at.pos == |head|
    requires |clip| > 0 && at.lno + |clip| <= |whole|
    requires Splice(lines, at.lno, at.lno + 1, Glue(head, clip, tail)) == whole
    ensures Pasted(lines, clip, at)
            == (whole, Cursor(at.lno + |clip| - 1, |whole[at.lno + |clip| - 1]| - |tail|))
  {
    CutAtSeam(head, tail);
  }

  // ---------------------------------------------------------- auto-closing

  /** The character before column pos, looked up only when the widget's own
      cursor (at column selfPos) is not in column 0. */
  function CharBefore(line: string, selfPos: int, pos: int): (r: Option<char>)
    requires selfPos != 0 ==> InLine(line, pos - 1)
    ensures r.None? <==> selfPos == 0
    ensures pos >= 1 && selfPos != 0 ==> r == Some(line[pos - 1])
  {
    if selfPos == 0 then None else Some(CharAt(line, pos - 1))
  }

  /** The lookups of auto-closing stay inside the cursor's line: the
      character under the cursor always, the one before it only when the
      typed character is not stepped over. */
  predicate ClosedCharOk(lines: seq<string>, selfPos: int, ch: char, at: Cursor)
  {
    at.lno < |lines| && InLine(lines[at.lno], at.pos)
    && (selfPos != 0 && CharAt(lines[at.lno], at.pos) != ch ==> InLine(lines[at.lno], at.pos - 1))
  }

  /** Typing a character with nothing selected: over the same character the
      cursor only advances; otherwise the character goes in, followed by its
      closer when it has one, the cursor then sits on the line's last
      character, and the character before was none or a space or the typed
      one is a bracket. The character before is looked up only when the
      widget's own cursor is not in column 0. */
  function ClosedChar(lines: seq<string>, selfPos: int, ch: char, at: Cursor): (seq<string>, Cursor)
    requires ClosedCharOk(lines, selfPos, ch, at)
  {
    var line := lines[at.lno];
    if CharAt(line, at.pos) == ch then (lines, Cursor(at.lno, at.pos + 1))
    else
      var prev := CharBefore(line, selfPos, at.pos);
      var typed := Inserted(lines, at, [ch]);
      var next := Cursor(at.lno, at.pos + 1);
      if HasCloser(ch) && next.pos == |typed[at.lno]| - 1
         && (prev.None? || prev == Some(' ') || IsBracket(ch))
      then (Inserted(typed, next, [CloserOf(ch)]), next)
      else (typed, next)
  }

  /** Auto-closing puts the character and its closer side by side, with the
      cursor between them, and otherwise inserts the character alone or
      nothing at all. */
  lemma ClosedCharShape(lines: seq<string>, selfPos: int, ch: char, at: Cursor)
    requires At(lines, at)
    ensures var (r, c) := ClosedChar(lines, selfPos, ch, at);
            var line := lines[at.lno];
            c == Cursor(at.lno, at.pos + 1) && |r| == |lines|
            && (forall k :: 0 <= k < |lines| && k != at.lno ==> r[k] == lines[k])
            && (line[at.pos] == ch ==> r == lines)
            && (line[at.pos] != ch ==>
                  r[at.lno] == line[..at.pos] + [ch] + line[at.pos..]
                  || (HasCloser(ch) && r[at.lno] == line[..at.pos] + [ch, CloserOf(ch)] + line[at.pos..]))
  {
    var line := lines[at.lno];
    if line[at.pos] != ch {
      var typed := Inserted(lines, at, [ch]);
      var next := Cursor(at.lno, at.pos + 1);
      var t := typed[at.lno];
      assert t == line[..at.pos] + [ch] + line[at.pos..];
      if HasCloser(ch) {
        assert t[..at.pos + 1] == line[..at.pos] + [ch];
        assert t[at.pos + 1..] == line[at.pos..];
        assert InsertAt(t, next.pos, [CloserOf(ch)]) == line[..at.pos] + [ch, CloserOf(ch)] + line[at.pos..];
      }
    }
  }

  /** An opener typed with a cursor on the line's last character (its
      trailing space) gets its closer. */
  lemma ClosesAtLineEnd(lines: seq<string>, ch: char, at: Cursor)
    requires At(lines, at) && at.pos == |lines[at.lno]| - 1
    requires IsBracket(ch) && lines[at.lno][at.pos] != ch
    ensures var (r, c) := ClosedChar(lines, at.pos, ch, at);
            r[at.lno] == lines[at.lno][..at.pos] + [ch, CloserOf(ch)] + lines[at.lno][at.pos..]
  {
    ClosedCharShape(lines, at.pos, ch, at);
    var line := lines[at.lno];
    var t := line[..at.pos] + [ch] + line[at.pos..];
    assert InsertAt(line, at.pos, [ch]) == t;
  }

  /** An opening character typed around a selection: the character goes
      before the selection and its closer after it. */
  function Around(lines: seq<string>, ch: char, a: Cursor, c: Cursor): (seq<string>, Cursor)
    requires HasCloser(ch) && a.lno < |lines| && c.lno < |lines|
  {
    var first := First(a, c);
    var last := Last(a, c);
    var open1 := Inserted(lines, first, [ch]);
    var next := if first.lno == last.lno then Cursor(last.lno, last.pos + 1) else last;
    (Inserted(open1, next, [CloserOf(ch)]), next)
  }

  /** Wrapping a selection inside one line puts the opener and the closer
      around exactly the selected text. */
  lemma AroundOneLine(lines: seq<string>, ch: char, a: Cursor, c: Cursor)
    requires HasCloser(ch) && At(lines, a) && At(lines, c) && a.lno == c.lno
    ensures var first := First(a, c);
            var last := Last(a, c);
            var line := lines[a.lno];
            var (r, n) := Around(lines, ch, a, c);
            r == lines[a.lno := line[..first.pos] + [ch] + line[first.pos..last.pos] + [CloserOf(ch)] + line[last.pos..]]
            && n == Cursor(a.lno, last.pos + 1)
  {
    var first := First(a, c);
    var last := Last(a, c);
    var line := lines[a.lno];
    var t := line[..first.pos] + [ch] + line[first.pos..];
    assert InsertAt(line, first.pos, [ch]) == t;
    assert t[..last.pos + 1] == line[..first.pos] + [ch] + line[first.pos..last.pos];
    assert t[last.pos + 1..] == line[last.pos..];
  }

  // ------------------------------------------------------------------ enter

  /** The indentation Enter carries over: that of the first selected line,
      or none when that line is whitespace only. */
  function EnterIndent(line: string): (n: nat)
    ensures n <= |line|
    ensures n == 0 || (n == LeadingWidth(line) && n < |line|)
  {
    if IsBlank(line) then 0 else LeadingWidth(line)
  }

  /** Enter looks up the character before the first endpoint and, after an
      opening bracket, the character at the last endpoint; both lookups stay
      inside their lines. */
  predicate EnterOk(lines: seq<string>, selfPos: int, first: Cursor, last: Cursor)
  {
    first.lno <= last.lno < |lines|
    && (selfPos != 0 ==> InLine(lines[first.lno], first.pos - 1))
    && ((selfPos != 0 && IsBracket(CharAt(lines[first.lno], first.pos - 1)))
          ==> InLine(lines[last.lno], last.pos))
  }

  /** The first endpoint follows an opening bracket and the last endpoint is
      on its closer. */
  predicate BetweenBrackets(lines: seq<string>, selfPos: int, first: Cursor, last: Cursor)
    requires EnterOk(lines, selfPos, first, last)
  {
    var before := CharBefore(lines[first.lno], selfPos, first.pos);
    before.Some? && IsBracket(before.value)
    && CloserOf(before.value) == CharAt(lines[last.lno], last.pos)
  }

  /** The next tab stop strictly after column n. */
  function NextStop(n: nat): (r: nat)
    ensures r % TabSize == 0 && n < r <= n + TabSize
  {
    NextMultiple(n, TabSize);
    n + TabSize - n % TabSize
  }

  /** Enter over the range from first to last: the text before first stays
      on its line followed by the trailing space, and the text after last
      moves to a new line indented like the first line, with the cursor at
      the start of that text or at the first endpoint's column if that is
      smaller. Between an opening bracket and its closer a line indented to
      the next tab stop goes in between and takes the cursor. */
  function Entered(lines: seq<string>, selfPos: int, first: Cursor, last: Cursor): (seq<string>, Cursor)
    requires EnterOk(lines, selfPos, first, last)
  {
    var line := lines[first.lno];
    var head := Head(line, first.pos) + " ";
    var rest := LStrip(Tail(lines[last.lno], last.pos));
    var indent := EnterIndent(line);
    if BetweenBrackets(lines, selfPos, first, last) then
      var deeper := NextStop(indent);
      (Splice(lines, first.lno, last.lno + 1, [head, Spaces(deeper) + " ", Spaces(indent) + rest]),
       Cursor(first.lno + 1, deeper))
    else
      (Splice(lines, first.lno, last.lno + 1, [head, Spaces(indent) + (if rest == "" then " " else rest)]),
       Cursor(first.lno + 1, if first.pos < indent then first.pos else indent))
  }

  /** Spaces followed by text that does not start with whitespace: the
      indentation is the spaces and the text is what lstrip leaves. */
  lemma IndentedText(n: nat, text: string)
    requires text != "" && !IsSpace(text[0])
    ensures LeadingWidth(Spaces(n) + text) == n && LStrip(Spaces(n) + text) == text
  {
    var r := Spaces(n) + text;
    assert r[n] == text[0];
    LeadingUnique(r, n);
    assert r[n..] == text;
  }

  /** Outside brackets, Enter splits the line at the first endpoint: the
      head keeps its line, the range's lines become two, the new line carries
      the first line's indentation before the text after the last endpoint,
      and the cursor lands on it no further right than that indentation. */
  lemma EnterAutoIndents(lines: seq<string>, selfPos: int, first: Cursor, last: Cursor)
    requires EnterOk(lines, selfPos, first, last) && !BetweenBrackets(lines, selfPos, first, last)
    ensures var (r, c) := Entered(lines, selfPos, first, last);
            var indent := EnterIndent(lines[first.lno]);
            var rest := LStrip(Tail(lines[last.lno], last.pos));
            |r| == |lines| - (last.lno - first.lno) + 1
            && r[..first.lno] == lines[..first.lno]
            && r[first.lno + 2..] == lines[last.lno + 1..]
            && r[first.lno] == Head(lines[first.lno], first.pos) + " "
            && c.lno == first.lno + 1 && c.pos <= indent
            && (rest != "" ==> LeadingWidth(r[c.lno]) == indent && LStrip(r[c.lno]) == rest)
  {
    var line := lines[first.lno];
    var head := Head(line, first.pos) + " ";
    var rest := LStrip(Tail(lines[last.lno], last.pos));
    var indent := EnterIndent(line);
    var mid := [head, Spaces(indent) + (if rest == "" then " " else rest)];
    SpliceParts(lines, first.lno, last.lno + 1, mid);
    if rest != "" {
      IndentedText(indent, rest);
    }
  }

  /** Between an opening bracket and its closer, Enter puts the closer and
      what follows it on a line of its own at the first line's indentation,
      and opens a line one tab stop deeper between them for the cursor. */
  lemma EnterSplitsBrackets(lines: seq<string>, selfPos: int, first: Cursor, last: Cursor)
    requires EnterOk(lines, selfPos, first, last) && BetweenBrackets(lines, selfPos, first, last)
    ensures var (r, c) := Entered(lines, selfPos, first, last);
            var indent := EnterIndent(lines[first.lno]);
            var closer := CharAt(lines[last.lno], last.pos);
            |r| == |lines| - (last.lno - first.lno) + 2
            && r[..first.lno] == lines[..first.lno]
            && r[first.lno + 3..] == lines[last.lno + 1..]
            && r[first.lno] == Head(lines[first.lno], first.pos) + " "
            && c.lno == first.lno + 1 && IsBlank(r[c.lno]) && c.pos == |r[c.lno]| - 1
            && c.pos % TabSize == 0 && c.pos / TabSize == indent / TabSize + 1
            && LeadingWidth(r[first.lno + 2]) == indent
            && LStrip(r[first.lno + 2]) == Tail(lines[last.lno], last.pos)
            && r[first.lno + 2][indent] == closer
  {
    var tail := Tail(lines[last.lno], last.pos);
    var indent := EnterIndent(lines[first.lno]);
    ClosingTail(lines[last.lno], last.pos);
    EnteredBetween(lines, selfPos, first, last);
    BracketLines(lines, first.lno, last.lno, Head(lines[first.lno], first.pos) + " ", indent, LStrip(tail));
  }

  lemma EnteredBetween(lines: seq<string>, selfPos: int, first: Cursor, last: Cursor)
    requires EnterOk(lines, selfPos, first, last) && BetweenBrackets(lines, selfPos, first, last)
    ensures var rest := LStrip(Tail(lines[last.lno], last.pos));
            var indent := EnterIndent(lines[first.lno]);
            var head := Head(lines[first.lno], first.pos) + " ";
            Entered(lines, selfPos, first, last)
              == (Splice(lines, first.lno, last.lno + 1, [head, Spaces(NextStop(indent)) + " ", Spaces(indent) + rest]),
                  Cursor(first.lno + 1, NextStop(indent)))
  {
  }

  /** The three lines Enter leaves between brackets, in place of the range. */
  lemma BracketLines(lines: seq<string>, f: nat, l: nat, head: string, indent: nat, tail: string)
    requires f <= l < |lines| && tail != "" && !IsSpace(tail[0])
    ensures var deeper := NextStop(indent);
            var r := Splice(lines, f, l + 1, [head, Spaces(deeper) + " ", Spaces(indent) + tail]);
            |r| == |lines| - (l - f) + 2
            && r[..f] == lines[..f] && r[f + 3..] == lines[l + 1..] && r[f] == head
            && IsBlank(r[f + 1]) && deeper == |r[f + 1]| - 1
            && deeper % TabSize == 0 && deeper / TabSize == indent / TabSize + 1
            && LeadingWidth(r[f + 2]) == indent && LStrip(r[f + 2]) == tail
            && r[f + 2][indent] == tail[0]
  {
    var deeper := NextStop(indent);
    var mid := [head, Spaces(deeper) + " ", Spaces(indent) + tail];
    SpliceParts(lines, f, l + 1, mid);
    BlankStop(deeper);
    IndentedText(indent, tail);
    NextMultiple(indent, TabSize);
  }

  /** What follows a closing bracket's column starts with that bracket and
      has nothing to strip. */
  lemma ClosingTail(line: string, p: int)
    requires InLine(line, p) && IsClosingBracket(CharAt(line, p))
    ensures var t := Tail(line, p);
            t != "" && t[0] == CharAt(line, p) && LStrip(t) == t
  {
    var t := Tail(line, p);
    assert t[0] == CharAt(line, p);
    LeadingUnique(t, 0);
  }

  lemma BlankStop(n: nat)
    ensures IsBlank(Spaces(n) + " ")
  {
    var r := Spaces(n) + " ";
    forall i | 0 <= i < n + 1 ensures IsSpace(r[i]) {
      if i < n { assert r[i] == Spaces(n)[i]; }
    }
  }

  // ----------------------------------------------------------------- clamp

  /** move_cursor: the line clamped into the document, the column into the
      line's characters. */
  function Clamp(lines: seq<string>, x: int, y: int): (c: Cursor)
    requires |lines| > 0
  {
    var lno := if y < 0 then 0 else if y > |lines| - 1 then |lines| - 1 else y;
    var maxX := |lines[lno]| - 1;
    var pos := if x > maxX then maxX else x;
    Cursor(lno, if pos < 0 then 0 else pos)
  }

  /** The clamped cursor is on a line of the document, in a column between 0
      and the line's last character; a target already on a character is
      kept as it is; clamping the clamped cursor changes nothing. */
  lemma ClampProperties(lines: seq<string>, x: int, y: int)
    requires |lines| > 0
    ensures var c := Clamp(lines, x, y);
            c.lno < |lines| && 0 <= c.pos
            && (lines[c.lno] != "" ==> At(lines, c))
            && (0 <= y < |lines| ==> c.lno == y)
            && (0 <= y && At(lines, Cursor(y, x)) ==> c == Cursor(y, x))
            && Clamp(lines, c.pos, c.lno) == c
  {
  }

  // --------------------------------------------------------------- comment

  function CommentLine(line: string, marker: string): string
  {
    Spaces(LeadingWidth(line)) + marker + " " + LStrip(line)
  }

  function UncommentLine(line: string, marker: string): string
    requires StartsWith(LStrip(line), marker)
  {
    Spaces(LeadingWidth(line)) + LStrip(LStrip(line)[|marker|..])
  }

  /** Every line's text starts with the marker (Python's all(...)). */
  predicate AllCommented(ls: seq<string>, marker: string)
  {
    ls == [] || (StartsWith(LStrip(ls[0]), marker) && AllCommented(ls[1..], marker))
  }

  lemma {:induction false} AllCommentedAt(ls: seq<string>, marker: string)
    ensures AllCommented(ls, marker) <==> forall i :: 0 <= i < |ls| ==> StartsWith(LStrip(ls[i]), marker)
  {
    if ls != [] {
      AllCommentedAt(ls[1..], marker);
      assert forall i :: 1 <= i < |ls| ==> ls[1..][i - 1] == ls[i];
    }
  }

  function CommentAll(ls: seq<string>, marker: string): (r: seq<string>)
    ensures |r| == |ls|
  {
    if ls == [] then [] else [CommentLine(ls[0], marker)] + CommentAll(ls[1..], marker)
  }

  lemma {:induction false} CommentAllAt(ls: seq<string>, marker: string, i: nat)
    requires i < |ls|
    ensures CommentAll(ls, marker)[i] == CommentLine(ls[i], marker)
  {
    if i > 0 {
      CommentAllAt(ls[1..], marker, i - 1);
    }
  }

  function UncommentAll(ls: seq<string>, marker: string): (r: seq<string>)
    requires AllCommented(ls, marker)
    ensures |r| == |ls|
  {
    if ls == [] then [] else [UncommentLine(ls[0], marker)] + UncommentAll(ls[1..], marker)
  }

  lemma {:induction false} UncommentAllAt(ls: seq<string>, marker: string, i: nat)
    requires AllCommented(ls, marker) && i < |ls|
    ensures StartsWith(LStrip(ls[i]), marker)
    ensures UncommentAll(ls, marker)[i] == UncommentLine(ls[i], marker)
  {
    if i > 0 {
      UncommentAllAt(ls[1..], marker, i - 1);
    }
  }

  /** Comment toggle on the lines of a selection: when every line's text
      starts with the marker it is removed from each, otherwise every line
      gets the marker and a space after its indentation. */
  function Toggled(lines: seq<string>, first: Cursor, last: Cursor, marker: string): (r: seq<string>)
    requires first.lno <= last.lno < |lines|
    ensures |r| == |lines|
  {
    Splice(lines, first.lno, last.lno + 1, ToggleAll(lines[first.lno..last.lno + 1], marker))
  }

  function ToggleAll(ls: seq<string>, marker: string): (r: seq<string>)
    ensures |r| == |ls|
  {
    if AllCommented(ls, marker) then UncommentAll(ls, marker) else CommentAll(ls, marker)
  }

  /** A marker whose first character is not whitespace. */
  predicate GoodMarker(marker: string)
  {
    marker != "" && !IsSpace(marker[0])
  }

  lemma CommentLineText(line: string, marker: string)
    requires GoodMarker(marker)
    ensures LStrip(CommentLine(line, marker)) == marker + " " + LStrip(line)
    ensures LeadingWidth(CommentLine(line, marker)) == LeadingWidth(line)
  {
    var w := LeadingWidth(line);
    var rest := marker + " " + LStrip(line);
    SpacesAreSpace(w);
    LStripAfterWhitespace(Spaces(w), rest);
    LeadingUnique(rest, 0);
    assert CommentLine(line, marker) == Spaces(w) + rest;
    var c := Spaces(w) + rest;
    assert c[w] == marker[0];
    LeadingUnique(c, w);
  }

  /** What is left of a commented line once its marker is dropped is its
      text. */
  lemma UncommentedText(line: string, marker: string)
    requires GoodMarker(marker)
    ensures StartsWith(LStrip(CommentLine(line, marker)), marker)
    ensures UncommentLine(CommentLine(line, marker), marker) == Spaces(LeadingWidth(line)) + LStrip(line)
  {
    var text := LStrip(line);
    CommentLineText(line, marker);
    var stripped := marker + " " + text;
    assert stripped[|marker|..] == " " + text;
    LStripAfterWhitespace(" ", text);
    LStripIdempotent(line);
  }

  lemma SpaceIndentedSplit(line: string)
    requires SpaceIndented(line)
    ensures Spaces(LeadingWidth(line)) + LStrip(line) == line
  {
    assert line == line[..LeadingWidth(line)] + line[LeadingWidth(line)..];
  }

  /** Uncommenting a commented line gives it back when it is indented by
      spaces. */
  lemma UncommentUndoesComment(line: string, marker: string)
    requires GoodMarker(marker) && SpaceIndented(line)
    ensures StartsWith(LStrip(CommentLine(line, marker)), marker)
    ensures UncommentLine(CommentLine(line, marker), marker) == line
  {
    UncommentedText(line, marker);
    SpaceIndentedSplit(line);
  }

  /** Commenting every line marks every line. */
  lemma CommentAllMarks(ls: seq<string>, marker: string)
    requires GoodMarker(marker)
    ensures AllCommented(CommentAll(ls, marker), marker)
  {
    forall i | 0 <= i < |ls| ensures StartsWith(LStrip(CommentAll(ls, marker)[i]), marker) {
      CommentAllAt(ls, marker, i);
      CommentLineText(ls[i], marker);
    }
    AllCommentedAt(CommentAll(ls, marker), marker);
  }

  /** Uncommenting what was commented gives space-indented lines back. */
  lemma UncommentAllUndoes(ls: seq<string>, marker: string)
    requires GoodMarker(marker)
    requires forall i :: 0 <= i < |ls| ==> SpaceIndented(ls[i])
    ensures AllCommented(CommentAll(ls, marker), marker)
    ensures UncommentAll(CommentAll(ls, marker), marker) == ls
  {
    CommentAllMarks(ls, marker);
    var back := UncommentAll(CommentAll(ls, marker), marker);
    forall i | 0 <= i < |ls| ensures back[i] == ls[i] {
      UncommentAllAt(CommentAll(ls, marker), marker, i);
      CommentAllAt(ls, marker, i);
      UncommentUndoesComment(ls[i], marker);
    }
  }

  /** Toggling a comment twice restores space-indented lines that were not
      all commented already. */
  lemma ToggleTwice(lines: seq<string>, first: Cursor, last: Cursor, marker: string)
    requires first.lno <= last.lno < |lines| && GoodMarker(marker)
    requires !AllCommented(lines[first.lno..last.lno + 1], marker)
    requires forall k :: first.lno <= k <= last.lno ==> SpaceIndented(lines[k])
    ensures Toggled(Toggled(lines, first, last, marker), first, last, marker) == lines
  {
    var picked := lines[first.lno..last.lno + 1];
    forall i | 0 <= i < |picked| ensures SpaceIndented(picked[i]) {
      assert picked[i] == lines[first.lno + i];
    }
    UncommentAllUndoes(picked, marker);
    ToggledTwiceSplice(lines, first, last, marker);
  }

  /** The toggle acts on the selected lines only, so a round trip on them is
      a round trip on the document. */
  lemma ToggledTwiceSplice(lines: seq<string>, first: Cursor, last: Cursor, marker: string)
    requires first.lno <= last.lno < |lines|
    requires var picked := lines[first.lno..last.lno + 1];
             ToggleAll(ToggleAll(picked, marker), marker) == picked
    ensures Toggled(Toggled(lines, first, last, marker), first, last, marker) == lines
  {
    var picked := lines[first.lno..last.lno + 1];
    SpliceRoundTrip(lines, first.lno, last.lno + 1, ToggleAll(picked, marker));
  }

  /** xs with the range [i, j) replaced by mid. */
  function Splice<T>(xs: seq<T>, i: nat, j: nat, mid: seq<T>): (r: seq<T>)
    requires i <= j <= |xs|
    ensures |r| == |xs| - (j - i) + |mid|
  {
    xs[..i] + mid + xs[j..]
  }

  /** A splice keeps what precedes and follows the range and holds mid in
      between. */
  lemma SpliceParts<T>(xs: seq<T>, i: nat, j: nat, mid: seq<T>)
    requires i <= j <= |xs|
    ensures var r := Splice(xs, i, j, mid);
            r[..i] == xs[..i] && r[i..i + |mid|] == mid && r[i + |mid|..] == xs[j..]
            && (forall k :: 0 <= k < |mid| ==> r[i + k] == mid[k])
  {
    var r := Splice(xs, i, j, mid);
    assert r[..i] == xs[..i];
    assert r[i..i + |mid|] == mid;
    assert r[i + |mid|..] == xs[j..];
  }

  /** Replacing one element by a splice is an update. */
  lemma SpliceOne<T>(xs: seq<T>, k: nat, y: T)
    requires k < |xs|
    ensures Splice(xs, k, k + 1, [y]) == xs[k := y]
  {
    var r := Splice(xs, k, k + 1, [y]);
    assert forall m :: 0 <= m < |xs| ==> r[m] == xs[k := y][m];
  }

  /** A range collapsed to one element is restored by splicing the range
      back in place of that element. */
  lemma SpliceOneRoundTrip<T>(xs: seq<T>, i: nat, j: nat, y: T)
    requires i <= j < |xs|
    ensures Splice(xs, i, j + 1, [y])[i] == y
    ensures Splice(Splice(xs, i, j + 1, [y]), i, i + 1, xs[i..j + 1]) == xs
  {
    SpliceRoundTrip(xs, i, j + 1, [y]);
    assert Splice(xs, i, j + 1, [y])[i..i + 1] == [y];
  }

  /** Replacing a range and then putting the original range back in place
      of the replacement restores the sequence. */
  lemma SpliceRoundTrip<T>(xs: seq<T>, i: nat, j: nat, ys: seq<T>)
    requires i <= j <= |xs|
    ensures Splice(xs, i, j, ys)[i..i + |ys|] == ys
    ensures Splice(Splice(xs, i, j, ys), i, i + |ys|, xs[i..j]) == xs
  {
    var once := Splice(xs, i, j, ys);
    SpliceParts(xs, i, j, ys);
    assert xs == xs[..i] + xs[i..j] + xs[j..];
  }
}

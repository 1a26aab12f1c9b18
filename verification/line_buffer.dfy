/** A minimal line-addressed document with one selection, standing in for the
    edit primitives of Textual's TextArea (replace, insert, delete) that the
    newer widget calls. Text is a non-empty list of lines; an inserted text is
    a fragment: its pieces between line breaks. */
module LineBuffer {
  import opened TextUtil

  datatype Location = Location(line: nat, col: nat)

  /** Lexicographic order on locations: by line, then by column. */
  predicate Lt(a: Location, b: Location)
  {
    a.line < b.line || (a.line == b.line && a.col < b.col)
  }

  predicate Le(a: Location, b: Location)
  {
    !Lt(b, a)
  }

  function Min(a: Location, b: Location): Location
  {
    if Le(a, b) then a else b
  }

  function Max(a: Location, b: Location): Location
  {
    if Le(a, b) then b else a
  }

  /** Anchor (start) and active end (end); a plain cursor when they are equal. */
  datatype Selection = Selection(start: Location, end: Location)
  {
    function First(): Location { Min(start, end) }
    function Last(): Location { Max(start, end) }
  }

  function CursorAt(p: Location): Selection
  {
    Selection(p, p)
  }

  predicate ValidLoc(lines: seq<string>, p: Location)
  {
    p.line < |lines| && p.col <= |lines[p.line]|
  }

  predicate ValidSel(lines: seq<string>, s: Selection)
  {
    ValidLoc(lines, s.start) && ValidLoc(lines, s.end)
  }

  /** The document together with its selection. */
  datatype State = State(lines: seq<string>, sel: Selection)
  {
    predicate Valid()
    {
      |lines| > 0 && ValidSel(lines, sel)
    }

    function CursorLoc(): Location { sel.end }
  }

  lemma SortedEndpoints(s: Selection)
    ensures Le(s.First(), s.Last())
    ensures {s.First(), s.Last()} == {s.start, s.end}
  {
  }

  /** Both endpoints lie on the lines from the first endpoint's to the last's. */
  lemma EndpointLines(s: Selection)
    ensures Le(s.First(), s.Last())
    ensures s.First().line <= s.start.line <= s.Last().line
    ensures s.First().line <= s.end.line <= s.Last().line
  {
  }

  /** The fragment of text between two sorted locations. */
  function TextRange(lines: seq<string>, from: Location, to: Location): (r: seq<string>)
    requires ValidLoc(lines, from) && ValidLoc(lines, to) && Le(from, to)
    ensures |r| == to.line - from.line + 1
  {
    if from.line == to.line then [lines[from.line][from.col..to.col]]
    else [lines[from.line][from.col..]] + lines[from.line + 1..to.line] + [lines[to.line][..to.col]]
  }

  /** Where the inserted fragment ends once it is placed at from. */
  function EndOf(from: Location, frag: seq<string>): Location
    requires |frag| > 0
  {
    if |frag| == 1 then Location(from.line, from.col + |frag[0]|)
    else Location(from.line + |frag| - 1, |frag[|frag| - 1]|)
  }

  /** Replaces the text between two sorted locations by a fragment. */
  function Replace(lines: seq<string>, from: Location, to: Location, frag: seq<string>): (r: seq<string>)
    requires ValidLoc(lines, from) && ValidLoc(lines, to) && Le(from, to) && |frag| > 0
    ensures |r| == |lines| - (to.line - from.line) + (|frag| - 1)
    ensures r[..from.line] == lines[..from.line]
    ensures r[from.line + |frag|..] == lines[to.line + 1..]
    ensures ValidLoc(r, from) && ValidLoc(r, EndOf(from, frag))
  {
    var head := lines[from.line][..from.col];
    var tail := lines[to.line][to.col..];
    var r := lines[..from.line] + Glue(head, frag, tail) + lines[to.line + 1..];
    assert r[from.line] == Glue(head, frag, tail)[0];
    assert r[from.line + |frag| - 1] == Glue(head, frag, tail)[|frag| - 1];
    r
  }

  /** Where a selection endpoint goes after an edit that keeps the selection offset:
      before the range it stays, inside the range it lands at the end of the new
      text, after the range it moves with the text that follows. */
  function Shift(p: Location, from: Location, to: Location, end: Location): Location
  {
    if Lt(p, from) then p
    else if Le(p, to) then end
    else if p.line == to.line then Location(end.line, end.col + (p.col - to.col))
    else Location(p.line - to.line + end.line, p.col)
  }

  /** An edit: replace [from, to] by frag; with maintain the selection keeps its
      offset (Shift), otherwise it becomes a cursor after the inserted text. */
  function Edit(s: State, from: Location, to: Location, frag: seq<string>, maintain: bool): (r: State)
    requires s.Valid() && ValidLoc(s.lines, from) && ValidLoc(s.lines, to) && Le(from, to) && |frag| > 0
    ensures r.Valid()
    ensures r.lines == Replace(s.lines, from, to, frag)
    ensures !maintain ==> r.sel == CursorAt(EndOf(from, frag))
  {
    var lines := Replace(s.lines, from, to, frag);
    var e := EndOf(from, frag);
    ShiftValid(s.lines, from, to, frag, s.sel.start);
    ShiftValid(s.lines, from, to, frag, s.sel.end);
    var sel := if maintain then Selection(Shift(s.sel.start, from, to, e), Shift(s.sel.end, from, to, e))
               else CursorAt(e);
    State(lines, sel)
  }

  function Insert(s: State, frag: seq<string>, at: Location): (r: State)
    requires s.Valid() && ValidLoc(s.lines, at) && |frag| > 0
    ensures r.Valid()
  {
    Edit(s, at, at, frag, true)
  }

  /** Clamps a computed location into the document, as the selection setter does. */
  function Clamp(lines: seq<string>, line: int, col: int): (p: Location)
    requires |lines| > 0
    ensures ValidLoc(lines, p)
    ensures 0 <= line < |lines| ==> p.line == line
    ensures 0 <= line < |lines| && 0 <= col <= |lines[line]| ==> p.col == col
  {
    var l := if line < 0 then 0 else if line >= |lines| then |lines| - 1 else line;
    var c := if col < 0 then 0 else if col > |lines[l]| then |lines[l]| else col;
    Location(l, c)
  }

  /** Every endpoint that addressed the old document addresses the new one. */
  lemma ShiftValid(lines: seq<string>, from: Location, to: Location, frag: seq<string>, p: Location)
    requires ValidLoc(lines, from) && ValidLoc(lines, to) && Le(from, to) && |frag| > 0
    requires ValidLoc(lines, p)
    ensures ValidLoc(Replace(lines, from, to, frag), Shift(p, from, to, EndOf(from, frag)))
  {
    var r := Replace(lines, from, to, frag);
    var e := EndOf(from, frag);
    var head := lines[from.line][..from.col];
    var tail := lines[to.line][to.col..];
    var g := Glue(head, frag, tail);
    assert r == lines[..from.line] + g + lines[to.line + 1..];
    if Lt(p, from) {
      if p.line < from.line {
        assert r[p.line] == lines[p.line];
      } else {
        assert r[from.line] == g[0];
      }
    } else if Le(p, to) {
    } else if p.line == to.line {
      assert r[e.line] == g[|frag| - 1];
    } else {
      assert r[p.line - to.line + e.line] == lines[p.line];
    }
  }

  /** The edited range of the new document holds exactly the inserted fragment. */
  lemma {:induction false} TextRangeOfReplace(lines: seq<string>, from: Location, to: Location, frag: seq<string>)
    requires ValidLoc(lines, from) && ValidLoc(lines, to) && Le(from, to) && |frag| > 0
    ensures TextRange(Replace(lines, from, to, frag), from, EndOf(from, frag)) == frag
  {
    var r := Replace(lines, from, to, frag);
    var e := EndOf(from, frag);
    var head := lines[from.line][..from.col];
    var tail := lines[to.line][to.col..];
    var g := Glue(head, frag, tail);
    assert r == lines[..from.line] + g + lines[to.line + 1..];
    if |frag| == 1 {
      assert r[from.line] == head + frag[0] + tail;
      assert r[from.line][from.col..e.col] == frag[0];
    } else {
      assert r[from.line] == head + frag[0] by {
        assert r[from.line] == g[0];
      }
      assert r[e.line] == frag[|frag| - 1] + tail by {
        assert r[e.line] == g[|frag| - 1];
      }
      assert r[from.line + 1..e.line] == frag[1..|frag| - 1] by {
        assert r[from.line + 1..e.line] == g[1..|frag| - 1];
      }
      assert TextRange(r, from, e) == [frag[0]] + frag[1..|frag| - 1] + [frag[|frag| - 1]];
      assert frag == [frag[0]] + frag[1..|frag| - 1] + [frag[|frag| - 1]];
    }
  }

  /** After a replacement, the text before from and after the fragment's end
      is what it was before and after the replaced range. */
  lemma ReplaceKeepsEnds(lines: seq<string>, from: Location, to: Location, frag: seq<string>)
    requires ValidLoc(lines, from) && ValidLoc(lines, to) && Le(from, to) && |frag| > 0
    ensures var r := Replace(lines, from, to, frag);
            var e := EndOf(from, frag);
            r[from.line][..from.col] == lines[from.line][..from.col]
            && r[e.line][e.col..] == lines[to.line][to.col..]
  {
    var r := Replace(lines, from, to, frag);
    var head := lines[from.line][..from.col];
    var tail := lines[to.line][to.col..];
    var g := Glue(head, frag, tail);
    assert r == lines[..from.line] + g + lines[to.line + 1..];
    assert r[from.line] == g[0] && r[from.line + |frag| - 1] == g[|frag| - 1];
  }

  /** The replaced range glued back between its head and tail gives the
      original lines. */
  lemma GlueTextRange(lines: seq<string>, from: Location, to: Location)
    requires ValidLoc(lines, from) && ValidLoc(lines, to) && Le(from, to)
    ensures Glue(lines[from.line][..from.col], TextRange(lines, from, to), lines[to.line][to.col..])
            == lines[from.line..to.line + 1]
  {
    var head := lines[from.line][..from.col];
    var tail := lines[to.line][to.col..];
    if from.line == to.line {
      assert head + lines[from.line][from.col..to.col] + tail == lines[from.line];
    } else {
      assert head + lines[from.line][from.col..] == lines[from.line];
      assert lines[to.line][..to.col] + tail == lines[to.line];
      assert lines[from.line..to.line + 1] == [lines[from.line]] + lines[from.line + 1..to.line] + [lines[to.line]];
    }
  }

  /** Replacing the new text by the text it replaced restores the document: an
      edit can always be undone by the inverse edit. */
  lemma {:induction false} ReplaceRoundTrip(lines: seq<string>, from: Location, to: Location, frag: seq<string>)
    requires ValidLoc(lines, from) && ValidLoc(lines, to) && Le(from, to) && |frag| > 0
    ensures var r := Replace(lines, from, to, frag);
            var e := EndOf(from, frag);
            ValidLoc(r, from) && Le(from, e) &&
            Replace(r, from, e, TextRange(lines, from, to)) == lines
  {
    var r := Replace(lines, from, to, frag);
    var e := EndOf(from, frag);
    var head := lines[from.line][..from.col];
    var tail := lines[to.line][to.col..];
    var tr := TextRange(lines, from, to);
    var back := Replace(r, from, e, tr);
    assert back == r[..from.line] + Glue(head, tr, tail) + r[e.line + 1..] by {
      ReplaceKeepsEnds(lines, from, to, frag);
    }
    assert r[..from.line] == lines[..from.line];
    assert r[e.line + 1..] == lines[to.line + 1..] by {
      assert e.line + 1 == from.line + |frag|;
    }
    assert Glue(head, tr, tail) == lines[from.line..to.line + 1] by {
      GlueTextRange(lines, from, to);
    }
    Reassemble(lines, from.line, to.line + 1);
  }

  lemma Reassemble<T>(xs: seq<T>, i: nat, j: nat)
    requires i <= j <= |xs|
    ensures xs[..i] + xs[i..j] + xs[j..] == xs
  {
  }

  /** Inserting a one-piece fragment changes only that line, to head + text + tail;
      a cursor sitting at the insertion point ends just after the new text. */
  lemma InsertInLine(s: State, t: string, at: Location)
    requires s.Valid() && ValidLoc(s.lines, at)
    ensures var r := Insert(s, [t], at);
            r.lines == s.lines[at.line := s.lines[at.line][..at.col] + t + s.lines[at.line][at.col..]]
            && (s.sel == CursorAt(at) ==> r.sel == CursorAt(Location(at.line, at.col + |t|)))
  {
    var r := Replace(s.lines, at, at, [t]);
    var l := at.line;
    assert r == s.lines[..l] + [s.lines[l][..at.col] + t + s.lines[l][at.col..]] + s.lines[l + 1..];
  }

  /** Replacing a range on one line by a one-piece fragment rewrites that line only. */
  lemma ReplaceInLine(lines: seq<string>, from: Location, to: Location, t: string)
    requires ValidLoc(lines, from) && ValidLoc(lines, to) && Le(from, to) && from.line == to.line
    ensures Replace(lines, from, to, [t]) ==
            lines[from.line := lines[from.line][..from.col] + t + lines[from.line][to.col..]]
  {
    var l := from.line;
    assert Replace(lines, from, to, [t]) == lines[..l] + [lines[l][..from.col] + t + lines[l][to.col..]] + lines[l + 1..];
  }

  /** Replacing a range on one line by a two-piece fragment splits that line in two. */
  lemma SplitLine(lines: seq<string>, from: Location, to: Location, a: string, b: string)
    requires ValidLoc(lines, from) && ValidLoc(lines, to) && Le(from, to) && from.line == to.line
    ensures Replace(lines, from, to, [a, b]) ==
            lines[..from.line] + [lines[from.line][..from.col] + a, b + lines[from.line][to.col..]] + lines[from.line + 1..]
  {
  }

  /** Replacing a range that may span lines by a line break between a and b:
      the text before the range ends with a, the text after it starts with b. */
  lemma SplitRange(lines: seq<string>, from: Location, to: Location, a: string, b: string)
    requires ValidLoc(lines, from) && ValidLoc(lines, to) && Le(from, to)
    ensures Replace(lines, from, to, [a, b]) ==
            lines[..from.line] + [lines[from.line][..from.col] + a, b + lines[to.line][to.col..]] + lines[to.line + 1..]
  {
    assert [a, b][1..1] == [];
  }

  /** Replacing whole lines, from column 0 of one to the end of another: the
      fragment's pieces take their place. */
  lemma ReplaceWholeLines(lines: seq<string>, f: nat, l: nat, frag: seq<string>)
    requires f <= l < |lines| && |frag| > 0
    ensures Replace(lines, Location(f, 0), Location(l, |lines[l]|), frag) == lines[..f] + frag + lines[l + 1..]
  {
    assert lines[f][..0] == "" && lines[l][|lines[l]|..] == "";
    GlueEmpty(frag);
  }

  /** Replacing lines f..l whole, from column 0 of line f to the end of line l:
      the fragment's pieces take the lines' place. */
  function ReplaceLines(lines: seq<string>, f: nat, l: nat, frag: seq<string>): (r: seq<string>)
    requires f <= l < |lines| && |frag| > 0
    ensures r == lines[..f] + frag + lines[l + 1..]
  {
    ReplaceWholeLines(lines, f, l, frag);
    Replace(lines, Location(f, 0), Location(l, |lines[l]|), frag)
  }

  /** Gluing nothing to the ends of a fragment leaves it as it is. */
  lemma GlueEmpty(frag: seq<string>)
    requires |frag| > 0
    ensures Glue("", frag, "") == frag
  {
    if |frag| == 1 {
      assert "" + frag[0] + "" == frag[0];
    } else {
      assert "" + frag[0] == frag[0] && frag[|frag| - 1] + "" == frag[|frag| - 1];
      assert frag == [frag[0]] + frag[1..|frag| - 1] + [frag[|frag| - 1]];
    }
  }

  /** How an endpoint moves under an edit confined to one line whose one-piece
      fragment has length n: endpoints on other lines do not move. */
  lemma ShiftInLine(p: Location, k: nat, a: nat, b: nat, n: nat)
    requires a <= b
    ensures Shift(p, Location(k, a), Location(k, b), Location(k, a + n)) ==
            if p.line != k || p.col < a then p
            else if p.col <= b then Location(k, a + n)
            else Location(k, p.col - b + a + n)
  {
  }

  /** Where an endpoint goes when columns [a, b) of line k are deleted. */
  function DeletedAt(p: Location, k: nat, a: nat, b: nat): (q: Location)
    requires a <= b
    ensures q.line == p.line
    ensures p.line != k ==> q == p
    ensures p.line == k ==> (p.col <= a ==> q.col == p.col) && (a <= p.col <= b ==> q.col == a)
                            && (p.col >= b ==> q.col == p.col - (b - a))
  {
    if p.line != k || p.col < a then p
    else if p.col <= b then Location(k, a)
    else Location(k, p.col - b + a)
  }

  /** Deleting columns [a, b) of line k, keeping the selection's offset. */
  lemma DeleteInLine(s: State, k: nat, a: nat, b: nat)
    requires s.Valid() && k < |s.lines| && a <= b <= |s.lines[k]|
    ensures var r := Edit(s, Location(k, a), Location(k, b), [""], true);
            r.lines == s.lines[k := s.lines[k][..a] + s.lines[k][b..]]
            && r.sel == Selection(DeletedAt(s.sel.start, k, a, b), DeletedAt(s.sel.end, k, a, b))
  {
    var line := s.lines[k];
    assert line[..a] + "" + line[b..] == line[..a] + line[b..] by {
      assert line[..a] + "" == line[..a];
    }
    ReplaceInLine(s.lines, Location(k, a), Location(k, b), "");
    ShiftInLine(s.sel.start, k, a, b, 0);
    ShiftInLine(s.sel.end, k, a, b, 0);
  }

  /** The edit that deletes columns [a, b) of line k, keeping the selection's offset. */
  function DeleteSpan(s: State, k: nat, a: nat, b: nat): (r: State)
    requires s.Valid() && k < |s.lines| && a <= b <= |s.lines[k]|
    ensures r.Valid()
    ensures r.lines == s.lines[k := s.lines[k][..a] + s.lines[k][b..]]
    ensures r.sel == Selection(DeletedAt(s.sel.start, k, a, b), DeletedAt(s.sel.end, k, a, b))
  {
    DeleteInLine(s, k, a, b);
    Edit(s, Location(k, a), Location(k, b), [""], true)
  }
}

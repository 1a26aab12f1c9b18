/** Conversion between clipboard or file text and the editor's lines. Every
    line the editor holds carries one trailing space, on which the cursor can
    rest at the end of the line; serialising strips trailing whitespace. */
module Serde {
  import opened TextUtil

  /** The characters Python's str.splitlines() breaks on ("\r\n" counts as one break). */
  predicate IsLineBreak(c: char)
  {
    // \n \v \f \r, the separators 0x1c-0x1e, NEL, LINE and PARAGRAPH SEPARATOR
    (10 <= c as int <= 13) || (28 <= c as int <= 30) || c as int == 0x85 || c as int == 0x2028 || c as int == 0x2029
  }

  predicate NoLineBreak(s: string)
  {
    forall i :: 0 <= i < |s| ==> !IsLineBreak(s[i])
  }

  /** Python's str.splitlines(): the lines of t without their breaks; a final
      break does not start another line. */
  function Lines(t: string): (r: seq<string>)
    ensures t != [] <==> |r| > 0
  {
    if t == [] then []
    else if t[0] == '\r' && |t| > 1 && t[1] == '\n' then [""] + Lines(t[2..])
    else if IsLineBreak(t[0]) then [""] + Lines(t[1..])
    else
      var rest := Lines(t[1..]);
      if rest == [] then [[t[0]]]
      else
        [[t[0]] + rest[0]] + rest[1..]
  }

  /** No line that splitlines() returns holds a line break. */
  lemma {:induction false} LinesNoBreak(t: string)
    ensures forall k :: 0 <= k < |Lines(t)| ==> NoLineBreak(Lines(t)[k])
  {
    if t == [] {
    } else if t[0] == '\r' && |t| > 1 && t[1] == '\n' {
      LinesNoBreak(t[2..]);
    } else if IsLineBreak(t[0]) {
      LinesNoBreak(t[1..]);
    } else {
      LinesNoBreak(t[1..]);
      var rest := Lines(t[1..]);
      if rest != [] {
        var first := [t[0]] + rest[0];
        assert forall i :: 1 <= i < |first| ==> first[i] == rest[0][i - 1];
        assert NoLineBreak(first);
        assert Lines(t) == [first] + rest[1..];
      }
    }
  }

  /** text.endswith(("\n", "\r", "\r\n")). */
  predicate EndsWithBreak(text: string)
  {
    |text| > 0 && (text[|text| - 1] == '\n' || text[|text| - 1] == '\r')
  }

  /** Each piece with a space appended. */
  function Padded(pieces: seq<string>): (r: seq<string>)
    ensures |r| == |pieces|
    ensures forall k :: 0 <= k < |r| ==> r[k] == pieces[k] + " "
  {
    seq(|pieces|, k requires 0 <= k < |pieces| => pieces[k] + " ")
  }

  lemma PaddedAppend(pieces: seq<string>, p: string)
    ensures Padded(pieces + [p]) == Padded(pieces) + [p + " "]
  {
  }

  lemma PadKeepsNoBreak(p: string)
    requires NoLineBreak(p)
    ensures NoLineBreak(p + " ") && EndsWith(p + " ", " ")
  {
    assert forall i :: 0 <= i < |p| ==> (p + " ")[i] == p[i];
  }

  /** The lines before trimming: the text's lines, each with a trailing space,
      plus a line " " after a final newline or carriage return; " " alone for
      empty text. */
  function Untrimmed(text: string): (r: seq<string>)
    ensures |r| > 0
  {
    if text != [] then Padded(Lines(text)) + (if EndsWithBreak(text) then [" "] else []) else [" "]
  }

  /** Before trimming, no line holds a break and every line ends with a space. */
  lemma UntrimmedLines(text: string)
    ensures var u := Untrimmed(text);
            forall k :: 0 <= k < |u| ==> NoLineBreak(u[k]) && EndsWith(u[k], " ")
  {
    var u := Untrimmed(text);
    LinesNoBreak(text);
    forall k | 0 <= k < |u| ensures NoLineBreak(u[k]) && EndsWith(u[k], " ") {
      if text != [] && k < |Lines(text)| {
        PadKeepsNoBreak(Lines(text)[k]);
      } else {
        assert u[k] == " ";
      }
    }
  }

  /** deserialize_lines: with trim, the last line's trailing whitespace is dropped. */
  function Deserialize(text: string, trim: bool): (r: seq<string>)
    ensures |r| == |Untrimmed(text)| > 0
    ensures trim ==> r == Untrimmed(text)[|r| - 1 := RStrip(Untrimmed(text)[|r| - 1])]
    ensures !trim ==> r == Untrimmed(text)
  {
    var lines := Untrimmed(text);
    if trim then lines[|lines| - 1 := RStrip(lines[|lines| - 1])] else lines
  }

  /** No deserialised line holds a line break, and every line but a trimmed
      last one ends with the space the cursor rests on. */
  lemma DeserializeLines(text: string, trim: bool)
    ensures var r := Deserialize(text, trim);
            (forall k :: 0 <= k < |r| ==> NoLineBreak(r[k]))
            && (forall k :: 0 <= k < |r| && (!trim || k < |r| - 1) ==> EndsWith(r[k], " "))
  {
    var u := Untrimmed(text);
    UntrimmedLines(text);
    if trim {
      var last := u[|u| - 1];
      var t := RStrip(last);
      assert NoLineBreak(t) by { assert forall i :: 0 <= i < |t| ==> t[i] == last[i]; }
    }
  }

  /** The lines with trailing whitespace stripped. */
  function StripAll(lines: seq<string>): (r: seq<string>)
    ensures |r| == |lines|
    ensures forall k :: 0 <= k < |r| ==> r[k] == RStrip(lines[k])
  {
    seq(|lines|, k requires 0 <= k < |lines| => RStrip(lines[k]))
  }

  /** serialize_lines: the lines with trailing whitespace stripped, joined by
      "\n". When no line holds a "\n", splitting the result on "\n" gives one
      piece per line, each the line without its trailing whitespace. */
  function Serialize(lines: seq<string>): (r: string)
    ensures |lines| > 0 && (forall k :: 0 <= k < |lines| ==> '\n' !in lines[k]) ==>
              |Split(r)| == |lines|
              && forall k :: 0 <= k < |lines| ==> Split(r)[k] == RStrip(lines[k]) && (Split(r)[k] == [] || !IsSpace(Split(r)[k][|Split(r)[k]| - 1]))
  {
    var stripped := StripAll(lines);
    if |lines| > 0 && (forall k :: 0 <= k < |lines| ==> '\n' !in lines[k]) then
      assert forall k :: 0 <= k < |stripped| ==> '\n' !in stripped[k] by {
        forall k | 0 <= k < |stripped|
          ensures '\n' !in stripped[k]
        {
          assert stripped[k] == lines[k][..|stripped[k]|];
        }
      }
      SplitJoin(stripped);
      Join(stripped)
    else
      Join(stripped)
  }

  /** Text whose only line breaks are "\n". */
  predicate NewlinesOnly(t: string)
  {
    forall i :: 0 <= i < |t| && IsLineBreak(t[i]) ==> t[i] == '\n'
  }

  /** Empty, or ending in "\n": split("\n") then ends with an empty piece. */
  predicate OpenEnded(t: string)
  {
    t == [] || t[|t| - 1] == '\n'
  }

  lemma NewlinesOnlyTail(t: string)
    requires t != [] && NewlinesOnly(t)
    ensures NewlinesOnly(t[1..])
    ensures t[0] == '\n' || t[1..] != [] ==> OpenEnded(t[1..]) == OpenEnded(t)
  {
    assert forall i :: 0 <= i < |t[1..]| ==> t[1..][i] == t[i + 1];
  }

  lemma NewlineUnfold(t: string)
    requires t != [] && t[0] == '\n'
    ensures Split(t) == [""] + Split(t[1..]) && Lines(t) == [""] + Lines(t[1..])
  {
  }

  lemma CharUnfold(t: string)
    requires t != [] && !IsLineBreak(t[0])
    ensures Split(t) == [[t[0]] + Split(t[1..])[0]] + Split(t[1..])[1..]
    ensures Lines(t[1..]) == [] ==> Lines(t) == [[t[0]]]
    ensures Lines(t[1..]) != [] ==> Lines(t) == [[t[0]] + Lines(t[1..])[0]] + Lines(t[1..])[1..]
  {
  }

  lemma GlueStep(c: char, r: seq<string>, x: seq<string>)
    requires |r| > 0
    ensures [[c] + (r + x)[0]] + (r + x)[1..] == ([[c] + r[0]] + r[1..]) + x
  {
    assert (r + x)[1..] == r[1..] + x;
  }

  /** On such text, splitlines() is split("\n") without the empty piece that
      follows a final newline (or that stands for the empty text). */
  lemma {:induction false} LinesIsSplit(t: string)
    requires NewlinesOnly(t)
    ensures Split(t) == Lines(t) + (if OpenEnded(t) then [""] else [])
  {
    if t != [] {
      var u := t[1..];
      NewlinesOnlyTail(t);
      LinesIsSplit(u);
      var x: seq<string> := if OpenEnded(u) then [""] else [];
      if t[0] == '\n' {
        NewlineUnfold(t);
        assert [""] + (Lines(u) + x) == ([""] + Lines(u)) + x;
      } else {
        assert !IsLineBreak(t[0]);
        CharUnfold(t);
        if u == [] {
          assert Split(u) == [""];
          assert [t[0]] + Split(u)[0] == [t[0]];
        } else {
          GlueStep(t[0], Lines(u), x);
        }
      }
    }
  }

  /** On text whose only breaks are "\n", deserialising without trim is
      split("\n") with a space appended to every piece: one line per newline
      plus one. */
  lemma DeserializeIsPaddedSplit(text: string)
    requires NewlinesOnly(text)
    ensures Deserialize(text, false) == Padded(Split(text))
    ensures |Deserialize(text, false)| == Count(text, '\n') + 1
  {
    UntrimmedIsPaddedSplit(text);
    SplitCount(text);
  }

  lemma UntrimmedIsPaddedSplit(text: string)
    requires NewlinesOnly(text)
    ensures Untrimmed(text) == Padded(Split(text))
  {
    var lines := Lines(text);
    LinesIsSplit(text);
    if text == [] {
      assert Split(text) == [""];
      assert "" + " " == " ";
    } else if OpenEnded(text) {
      assert Untrimmed(text) == Padded(lines) + [" "];
      assert Split(text) == lines + [""];
      PaddedAppend(lines, "");
    } else {
      ClosedTextHasNoFinalBreak(text);
      assert Untrimmed(text) == Padded(lines) + [];
      assert Split(text) == lines + [];
    }
  }

  lemma ClosedTextHasNoFinalBreak(text: string)
    requires NewlinesOnly(text) && !OpenEnded(text)
    ensures !EndsWithBreak(text)
  {
    var c := text[|text| - 1];
    assert IsLineBreak(c) ==> c == '\n';
  }

  /** Appending a space and stripping trailing whitespace gives back a piece
      that does not end in whitespace. */
  lemma RStripPadded(p: string)
    requires p == [] || !IsSpace(p[|p| - 1])
    ensures RStrip(p + " ") == p
    ensures RStrip(RStrip(p + " ")) == p
  {
    assert (p + " ")[..|p|] == p;
  }

  /** No trailing whitespace on any piece. */
  predicate NoTrailingSpace(pieces: seq<string>)
  {
    forall k :: 0 <= k < |pieces| ==> pieces[k] == [] || !IsSpace(pieces[k][|pieces[k]| - 1])
  }

  /** Stripping padded pieces, the last perhaps already stripped, gives the pieces back. */
  lemma StripAllPadded(pieces: seq<string>, trim: bool)
    requires |pieces| > 0 && NoTrailingSpace(pieces)
    ensures var p := Padded(pieces);
            var lines := if trim then p[|p| - 1 := RStrip(p[|p| - 1])] else p;
            StripAll(lines) == pieces
  {
    var p := Padded(pieces);
    var lines := if trim then p[|p| - 1 := RStrip(p[|p| - 1])] else p;
    var stripped := StripAll(lines);
    forall k | 0 <= k < |pieces| ensures stripped[k] == pieces[k] {
      RStripPadded(pieces[k]);
    }
  }

  /** Serialising what was deserialised gives the text back, with or without
      trim, when its only breaks are "\n" and no line ends in whitespace. */
  lemma SerializeDeserialize(text: string, trim: bool)
    requires NewlinesOnly(text) && NoTrailingSpace(Split(text))
    ensures Serialize(Deserialize(text, trim)) == text
  {
    DeserializeIsPaddedSplit(text);
    StripAllPadded(Split(text), trim);
    JoinSplit(text);
  }
}

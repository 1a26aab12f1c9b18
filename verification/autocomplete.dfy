/** The completion list: where it is placed next to the cursor, how over-long
    prompts are shortened, and the list's own state (open or not, offset,
    width, maximum height, options and highlight). Sizes of the parent and
    the container are passed in by the caller. Prompts are plain text whose
    width is their length. */
module CompletionListWidget {
  import opened TextUtil
  import Completion

  /** The list's width in cells, as set by its stylesheet. */
  const DefaultWidth: int := 40
  /** The list's maximum height in cells, as set when it opens. */
  const DefaultMaxHeight: int := 8
  /** The room for a prompt inside the list (its width less the scroll bar). */
  const InnerContentWidth: int := 37

  function Min(a: int, b: int): int { if a <= b then a else b }
  function Max(a: int, b: int): int { if a >= b then a else b }

  /** _get_x_offset: the list starts below the prefix, shifted by the
      truncation offset, but no further right than keeps it inside the
      container; None (a ValueError) when the container is narrower than the list. */
  function XOffset(prefixLength: int, additionalX: int, cursorX: int, containerWidth: int, width: int): (r: Option<int>)
    ensures r.None? <==> containerWidth - width < 0
    ensures r.Some? ==> r.value <= cursorX - prefixLength + additionalX && r.value + width <= containerWidth
    ensures r.Some? ==> r.value == cursorX - prefixLength + additionalX || r.value + width == containerWidth
  {
    var x := cursorX - prefixLength + additionalX;
    var maxX := containerWidth - width;
    if maxX < 0 then None else Some(Min(x, maxX))
  }

  /** _get_y_offset: below the cursor's row when the list fits there, else
      above it when it fits there, else None (a ValueError). */
  function YOffset(cursorY: int, height: int, containerHeight: int): (r: Option<int>)
    ensures height < containerHeight - cursorY ==> r == Some(cursorY + 1)
    ensures height >= containerHeight - cursorY && height < cursorY + 1 ==> r.Some? && r.value + height == cursorY
    ensures r.None? <==> height >= containerHeight - cursorY && height >= cursorY + 1
    ensures r.Some? ==> r.value + height <= cursorY || r.value == cursorY + 1
  {
    if height < containerHeight - cursorY then Some(cursorY + 1)
    else if height < cursorY + 1 then Some(cursorY - height)
    else None
  }

  /** Where the list goes, it neither covers the cursor's row nor leaves the
      container: it starts on the row below the cursor, or ends on the row
      just above it. */
  lemma YOffsetPlacement(cursorY: int, height: int, containerHeight: int)
    requires 0 <= cursorY && 0 <= height && YOffset(cursorY, height, containerHeight).Some?
    ensures var y := YOffset(cursorY, height, containerHeight).value;
            0 <= y && (y == cursorY + 1 || y + height == cursorY)
            && (y == cursorY + 1 ==> y + height <= containerHeight)
  {
  }

  /** The longest prompt's length. */
  function MaxLength(items: seq<(string, string)>): (m: nat)
    requires |items| > 0
    ensures forall k :: 0 <= k < |items| ==> |items[k].0| <= m
  {
    if |items| == 1 then |items[0].0|
    else
      var rest := MaxLength(items[1..]);
      assert forall k :: 1 <= k < |items| ==> items[k] == items[1..][k - 1];
      if |items[0].0| >= rest then |items[0].0| else rest
  }

  /** The longest prompt's length is the length of one of the prompts. */
  lemma {:induction false} MaxLengthAttained(items: seq<(string, string)>) returns (k: nat)
    requires |items| > 0
    ensures k < |items| && |items[k].0| == MaxLength(items)
  {
    if |items| == 1 {
      k := 0;
    } else if |items[0].0| >= MaxLength(items[1..]) {
      k := 0;
    } else {
      var j := MaxLengthAttained(items[1..]);
      k := j + 1;
    }
  }

  /** How many leading characters every prompt loses: enough to fit the
      longest one, but never more than all but two characters of the prefix. */
  function TruncateAmount(maxLength: int, prefixLength: int): (t: int)
    ensures t >= 0
    ensures t > 0 ==> t <= prefixLength - 2 && t <= maxLength - InnerContentWidth
    ensures t == 0 <==> maxLength <= InnerContentWidth || prefixLength <= 2
    ensures t > 0 ==> t == maxLength - InnerContentWidth || t == prefixLength - 2
  {
    Max(0, Min(maxLength - InnerContentWidth, prefixLength - 2))
  }

  /** Python's s[t:] for t >= 0. */
  function Drop(s: string, t: nat): (r: string)
    ensures |r| == if t <= |s| then |s| - t else 0
  {
    if t <= |s| then s[t..] else ""
  }

  /** A prompt with its first t characters replaced by an ellipsis. */
  function Shortened(prompt: string, t: nat): string
  {
    "…" + Drop(prompt, t)
  }

  /** The options shown: shortened prompts when truncating, with each item's value. */
  function Options(items: seq<(string, string)>, t: int): (r: seq<(string, string)>)
    ensures |r| == |items|
    ensures forall k :: 0 <= k < |r| ==> r[k].1 == items[k].1
    ensures t <= 0 ==> r == items
    ensures t > 0 ==> forall k :: 0 <= k < |r| ==> r[k].0 == Shortened(items[k].0, t)
  {
    if t <= 0 then items
    else seq(|items|, k requires 0 <= k < |items| => (Shortened(items[k].0, t), items[k].1))
  }

  /** When the list truncates, every shortened prompt fits the list: at most
      the inner width plus the ellipsis. */
  lemma ShortenedFits(items: seq<(string, string)>, prefixLength: int)
    requires |items| > 0
    requires TruncateAmount(MaxLength(items), prefixLength) == MaxLength(items) - InnerContentWidth > 0
    ensures var t := TruncateAmount(MaxLength(items), prefixLength);
            forall k :: 0 <= k < |items| ==> |Options(items, t)[k].0| <= InnerContentWidth + 1
  {
  }

  /** Truncation keeps the rest of each prompt where it was on screen: the
      list is shifted right by t - 1, so the character after the ellipsis
      lands in the column that character t of the full prompt would have
      had, and so does every character after it. */
  lemma TruncationKeepsColumns(prefixLength: int, cursorX: int, containerWidth: int, width: int, t: int, i: int)
    requires t > 0 && t <= i
    requires XOffset(prefixLength, 0, cursorX, containerWidth, width) == Some(cursorX - prefixLength)
    requires XOffset(prefixLength, t - 1, cursorX, containerWidth, width) == Some(cursorX - prefixLength + t - 1)
    ensures var full := XOffset(prefixLength, 0, cursorX, containerWidth, width).value;
            var shifted := XOffset(prefixLength, t - 1, cursorX, containerWidth, width).value;
            shifted + 1 + (i - t) == full + i
  {
  }

  /** The message show_completions posts: the matches when there are any,
      otherwise a request to hide the list. */
  datatype ListMessage = CompletionsReady(prefix: string, items: seq<(string, string)>) | HideCompletionList

  /** show_completions: runs the active completer, if any, on the prefix. */
  function ShowCompletions(prefix: string, completer: Option<string -> seq<(string, string)>>): (m: ListMessage)
    ensures m.CompletionsReady? <==> completer.Some? && completer.value(prefix) != []
    ensures m.CompletionsReady? ==> m.prefix == prefix && m.items == completer.value(prefix)
  {
    var matches := if completer.Some? then completer.value(prefix) else [];
    if matches != [] then CompletionsReady(prefix, matches) else HideCompletionList
  }

  datatype ListAction = Select | CursorUp | CursorDown | PageUp | PageDown | Ignore

  /** process_keypress: the list action for a key forwarded from the editor. */
  function ProcessKeypress(key: Completion.Key): (a: ListAction)
    ensures a == Select <==> key.Tab? || key.Enter? || key.ShiftTab?
    ensures a == Ignore <==> !(key.Tab? || key.Enter? || key.ShiftTab? || key.Up? || key.Down? || key.PageUp? || key.PageDown?)
  {
    match key
    case Tab => Select
    case Enter => Select
    case ShiftTab => Select
    case Up => CursorUp
    case Down => CursorDown
    case PageUp => PageUp
    case PageDown => PageDown
    case _ => Ignore
  }

  /** The list's new offset and width when it is populated, given whether
      it was open and the old and new truncation offsets: a closed list is
      placed at the cursor, or at the left edge with the container's width
      when it does not fit; an open list moves by the change in offset, kept
      inside the parent. */
  function Placement(wasOpen: bool, prefixLength: int, newAdditionalX: int, oldAdditionalX: int, cursorX: int,
                     parentWidth: int, containerWidth: int, x: int, width: int): (r: (int, int))
    ensures !wasOpen && parentWidth - width >= 0 ==>
              r.1 == width && r.0 + width <= parentWidth && r.0 <= cursorX - prefixLength + newAdditionalX
              && (r.0 == cursorX - prefixLength + newAdditionalX || r.0 + width == parentWidth)
    ensures !wasOpen && parentWidth - width < 0 ==> r == (0, containerWidth)
    ensures wasOpen ==> r.1 == width && (newAdditionalX == oldAdditionalX ==> r.0 == x)
    ensures wasOpen && newAdditionalX != oldAdditionalX ==>
              r.0 + width <= parentWidth && r.0 <= x + (newAdditionalX - oldAdditionalX)
              && (r.0 == x + (newAdditionalX - oldAdditionalX) || r.0 + width == parentWidth)
  {
    if !wasOpen then
      match XOffset(prefixLength, newAdditionalX, cursorX, parentWidth, width)
      case Some(x0) => (x0, width)
      case None => (0, containerWidth)
    else if newAdditionalX != oldAdditionalX then
      (Min(x + (newAdditionalX - oldAdditionalX), parentWidth - width), width)
    else (x, width)
  }

  /** An open list that is repopulated keeps its screen columns for the text
      after the ellipsis: its offset moves by exactly the change in truncation
      offset, unless that would take it past the parent's right edge. */
  lemma PlacementFollowsTruncation(prefixLength: int, newAdditionalX: int, oldAdditionalX: int, cursorX: int,
                                   parentWidth: int, containerWidth: int, x: int, width: int)
    requires x + (newAdditionalX - oldAdditionalX) + width <= parentWidth
    ensures Placement(true, prefixLength, newAdditionalX, oldAdditionalX, cursorX, parentWidth, containerWidth, x, width).0
            == x + (newAdditionalX - oldAdditionalX)
  {
  }

  class CompletionList {
    var open: bool
    var additionalX: int
    /** The list's offset from its parent. */
    var x: int
    var y: int
    var width: int
    var maxHeight: int
    var options: seq<(string, string)>
    var highlighted: Option<nat>
    /** The cursor's position in the parent, set by the editor before a lookup. */
    var cursorX: int
    var cursorY: int

    /** A closed list has no truncation offset; the maximum height stays
      between one row and its default. */
    predicate Valid()
      reads this
    {
      (!open ==> additionalX == 0) && 0 <= additionalX
      && 1 <= maxHeight <= DefaultMaxHeight
      && (highlighted.Some? ==> highlighted.value < |options|)
    }

    constructor()
      ensures Valid() && !open && options == [] && highlighted.None?
      ensures width == DefaultWidth && maxHeight == DefaultMaxHeight && x == 0 && y == 0
    {
      open := false;
      additionalX := 0;
      x := 0;
      y := 0;
      width := DefaultWidth;
      maxHeight := DefaultMaxHeight;
      options := [];
      highlighted := None;
      cursorX := 0;
      cursorY := 0;
    }

    /** Assigning open runs watch_open when the value changes: closing
      drops the truncation offset, opening restores the maximum height. */
    method SetOpen(o: bool)
      requires Valid() || (o && 1 <= maxHeight <= DefaultMaxHeight && 0 <= additionalX && (highlighted.Some? ==> highlighted.value < |options|))
      modifies this
      ensures Valid() && open == o
      ensures maxHeight == (if o && !old(open) then DefaultMaxHeight else old(maxHeight))
      ensures additionalX == (if !o && old(open) then 0 else old(additionalX))
      ensures x == old(x) && y == old(y) && width == old(width) && options == old(options)
      ensures highlighted == old(highlighted) && cursorX == old(cursorX) && cursorY == old(cursorY)
    {
      if o == open {
        return;
      }
      open := o;
      if !o {
        additionalX := 0;
        return;
      }
      maxHeight := DefaultMaxHeight;
    }

    /** populate_and_position_list: shows the items, truncated to fit, with
      the first highlighted, places the list and opens it. */
    method PopulateAndPosition(prefix: string, items: seq<(string, string)>, parentWidth: int, containerWidth: int)
      requires Valid() && |items| > 0
      modifies this
      ensures Valid() && open
      ensures var t := TruncateAmount(MaxLength(items), |prefix|);
              options == Options(items, t) && additionalX == (if t > 0 then t - 1 else 0)
      ensures (x, width) == Placement(old(open), |prefix|, additionalX, old(additionalX), old(cursorX),
                                      parentWidth, containerWidth, old(x), old(width))
      ensures highlighted == Some(0) && y == old(y)
      ensures maxHeight == (if old(open) then old(maxHeight) else DefaultMaxHeight)
    {
      var t := TruncateAmount(MaxLength(items), |prefix|);
      var newAdditionalX := if t > 0 then t - 1 else 0;
      var placed := Placement(open, |prefix|, newAdditionalX, additionalX, cursorX, parentWidth, containerWidth, x, width);
      x, width := placed.0, placed.1;
      options := Options(items, t);
      highlighted := Some(0);
      additionalX := newAdditionalX;
      // opening runs watch_open, which restores the maximum height
      if !open {
        open := true;
        maxHeight := DefaultMaxHeight;
      }
    }

    /** on_resize: places the list above or below the cursor's row; when it
      fits neither way, shrinks the maximum height by one row, or asks to
      hide the list once a single row does not fit (returns true then). */
    method OnResize(height: int, parentHeight: int) returns (hideList: bool)
      requires Valid()
      modifies this
      ensures Valid()
      ensures var offset := YOffset(old(cursorY), height, parentHeight);
              (offset.Some? ==> !hideList && y == offset.value && maxHeight == old(maxHeight))
              && (offset.None? && old(maxHeight) > 1 ==> !hideList && y == old(y) && maxHeight == old(maxHeight) - 1)
              && (offset.None? && old(maxHeight) <= 1 ==> hideList && y == old(y) && maxHeight == old(maxHeight))
      ensures open == old(open) && additionalX == old(additionalX) && x == old(x) && width == old(width)
      ensures options == old(options) && highlighted == old(highlighted)
    {
      hideList := false;
      var offset := YOffset(cursorY, height, parentHeight);
      if offset.None? {
        if maxHeight > 1 {
          maxHeight := maxHeight - 1;
        } else {
          hideList := true;
        }
      } else {
        y := offset.value;
      }
    }
  }
}

/** The completion side of the newer widget's key handling: which completer is
    active (none, path, member or word), the prefix in front of the cursor
    that completions are looked up for, and the dispatch of one key press to
    an edit, a new mode and a message for the completion list. */
module Completion {
  import opened TextUtil
  import opened LineBuffer
  import opened EditingRules

  /** completer_active: None, "path", "member" or "word". */
  datatype Mode = NoMode | PathMode | MemberMode | WordMode

  /** The key press a prefix lookup accounts for, when there is one: it has
      not reached the document yet when the prefix is computed. */
  datatype Trigger = NoTrigger | BackspaceTrigger | CharTrigger(c: char)

  /** A key press. Char carries the character of a key that has one; the
      other keys are named. */
  datatype Key = Char(c: char) | Enter | Tab | ShiftTab | Up | Down | PageUp | PageDown
               | Backspace | CtrlAt | OtherKey

  /** What a key press asks of the completion list. */
  datatype Post = NoPost | Show(prefix: string) | Hide | Forward(key: Key)

  datatype Outcome = Outcome(state: State, mode: Mode, post: Post)

  /** The line up to the cursor. */
  function Before(s: State): (r: string)
    requires s.Valid()
    ensures r == s.lines[s.sel.end.line][..s.sel.end.col]
  {
    s.lines[s.sel.end.line][..s.sel.end.col]
  }

  /** The text searched for the prefix: the line up to the cursor, without its
      last character for a backspace (empty when at most one is left), with
      the typed character for a key that has one. */
  function SearchString(before: string, t: Trigger): (r: string)
    ensures t.NoTrigger? ==> r == before
    ensures t.BackspaceTrigger? ==> StartsWith(before, r) && |r| == if |before| > 0 then |before| - 1 else 0
    ensures t.CharTrigger? ==> StartsWith(r, before) && |r| == |before| + 1 && r[|before|] == t.c
  {
    match t
    case NoTrigger => before
    case BackspaceTrigger => if |before| > 1 then before[..|before| - 1] else ""
    case CharTrigger(c) => before + [c]
  }

  predicate IsQuote(c: char)
  {
    c == '"' || c == '\''
  }

  /** The characters a prefix is made of: no quote and no whitespace in path
      mode (PATH_PROG), word characters otherwise (WORD_PROG). */
  predicate InPrefix(c: char, path: bool)
  {
    if path then !IsQuote(c) && !IsSpace(c) else IsWordChar(c)
  }

  /** The longest suffix of s made of prefix characters: what the pattern
      matches at the start of the reversed string. */
  function TrailingRun(s: string, path: bool): (r: string)
    ensures EndsWith(s, r)
    ensures forall i :: 0 <= i < |r| ==> InPrefix(r[i], path)
    ensures |r| < |s| ==> !InPrefix(s[|s| - |r| - 1], path)
  {
    if |s| == 0 || !InPrefix(s[|s| - 1], path) then ""
    else
      var t := s[..|s| - 1];
      var rest := TrailingRun(t, path);
      var r := rest + [s[|s| - 1]];
      assert EndsWith(s, r) by {
        assert t[|t| - |rest|..] == rest;
        assert s[|s| - |r|..] == t[|t| - |rest|..] + [s[|s| - 1]];
      }
      assert forall i :: 0 <= i < |r| ==> InPrefix(r[i], path) by {
        assert forall i :: 0 <= i < |rest| ==> r[i] == rest[i];
      }
      assert |r| < |s| ==> s[|s| - |r| - 1] == t[|t| - |rest| - 1];
      r
  }

  /** The prefix before the cursor. In member mode memberLen stands for the
      length of the match of the member pattern on the reversed search string
      (0 when it does not match); it is kept within the string. */
  function WordBeforeCursor(s: State, mode: Mode, t: Trigger, memberLen: string -> nat): (r: string)
    requires s.Valid()
    ensures EndsWith(SearchString(Before(s), t), r)
    ensures mode == PathMode ==> r == TrailingRun(SearchString(Before(s), t), true)
    ensures mode != PathMode && mode != MemberMode ==> r == TrailingRun(SearchString(Before(s), t), false)
  {
    var search := SearchString(Before(s), t);
    match mode
    case PathMode => TrailingRun(search, true)
    case MemberMode =>
      var n := if memberLen(search) <= |search| then memberLen(search) else |search|;
      search[|search| - n..]
    case _ => TrailingRun(search, false)
  }

  /** The prefix never reaches past the line start: it is a suffix of the line
      up to the cursor, with the typed character when there is one. */
  lemma WordBeforeCursorInLine(s: State, mode: Mode, c: char, memberLen: string -> nat)
    requires s.Valid()
    ensures var w := WordBeforeCursor(s, mode, NoTrigger, memberLen);
            |w| <= s.sel.end.col && EndsWith(Before(s), w)
    ensures var w := WordBeforeCursor(s, mode, CharTrigger(c), memberLen);
            |w| <= s.sel.end.col + 1 && EndsWith(Before(s) + [c], w)
  {
  }

  /** The default deletion of the underlying text area on backspace: the
      selection, or the character before the cursor, joining two lines at a
      line start; nothing at the start of the document. */
  function DeleteBackward(s: State): (r: State)
    requires s.Valid()
    ensures r.Valid()
  {
    SortedEndpoints(s.sel);
    var p := s.sel.end;
    if s.sel.start != s.sel.end then Edit(s, s.sel.First(), s.sel.Last(), [""], false)
    else if p.col > 0 then Edit(s, Location(p.line, p.col - 1), p, [""], false)
    else if p.line > 0 then Edit(s, Location(p.line - 1, |s.lines[p.line - 1]|), p, [""], false)
    else s
  }

  /** Printable characters (an ASCII approximation of is_printable). */
  predicate IsPrintable(c: char)
  {
    ' ' <= c && c != '\U{7f}'
  }

  /** The message a prefix leads to: show the list for a non-empty prefix,
      hide it otherwise. */
  function ShowOrHide(prefix: string): (p: Post)
    ensures p.Show? <==> prefix != ""
    ensures p.Show? ==> p.prefix == prefix
    ensures !p.Show? ==> p == Hide
  {
    if prefix != "" then Show(prefix) else Hide
  }

  /** Any other printable character: a word character starts the word
      completer when none is active, a non-word character then leaves the
      list alone; the character is typed either way. */
  function OnPrintable(s: State, mode: Mode, c: char, memberLen: string -> nat): (r: Outcome)
    requires s.Valid()
    ensures r.state == TypeCharacter(s, c)
    ensures mode == NoMode && IsWordChar(c) ==> r.mode == WordMode
    ensures mode == NoMode && !IsWordChar(c) ==> r.mode == NoMode && r.post == NoPost
    ensures mode != NoMode ==> r.mode == mode
    ensures mode != NoMode || IsWordChar(c) ==>
              r.post == ShowOrHide(WordBeforeCursor(s, r.mode, CharTrigger(c), memberLen))
  {
    if mode == NoMode && !IsWordChar(c) then Outcome(TypeCharacter(s, c), mode, NoPost)
    else
      var m := if mode == NoMode then WordMode else mode;
      Outcome(TypeCharacter(s, c), m, ShowOrHide(WordBeforeCursor(s, m, CharTrigger(c), memberLen)))
  }

  /** One key press: the edit it makes (including the default insertion or
      deletion of the underlying text area for keys the handlers let through),
      the new mode, and the message for the completion list. */
  function OnKey(s: State, mode: Mode, key: Key, style: IndentStyle, memberLen: string -> nat): (r: Outcome)
    requires s.Valid() && style.Valid()
    ensures r.state.Valid()
    ensures key.CtrlAt? ==> r == Outcome(s, mode, NoPost)
  {
    match key
    case CtrlAt => Outcome(s, mode, NoPost)
    case Char(c) =>
      if IsQuoteOrBracket(c) then
        var post := if mode != MemberMode then Hide else Show(WordBeforeCursor(s, mode, CharTrigger(c), memberLen));
        Outcome(QuoteOrBracket(s, c), mode, post)
      else if c == '/' || c == '\\' then
        Outcome(TypeCharacter(s, c), PathMode, Show(WordBeforeCursor(s, PathMode, CharTrigger(c), memberLen)))
      else if c == '.' || c == ':' then
        var m := if mode != PathMode then MemberMode else mode;
        Outcome(TypeCharacter(s, c), m, Show(WordBeforeCursor(s, m, CharTrigger(c), memberLen)))
      else if IsPrintable(c) then OnPrintable(s, mode, c, memberLen)
      else Outcome(s, mode, Hide)
    case Enter => if mode != NoMode then Outcome(s, mode, Forward(key)) else Outcome(EditingRules.Enter(s, style), mode, NoPost)
    case Tab => if mode != NoMode then Outcome(s, mode, Forward(key)) else Outcome(EditingRules.Tab(s, style), mode, NoPost)
    case ShiftTab => if mode != NoMode then Outcome(s, mode, Forward(key)) else Outcome(EditingRules.ShiftTab(s, style), mode, NoPost)
    case Up => if mode != NoMode then Outcome(s, mode, Forward(key)) else Outcome(s, mode, NoPost)
    case Down => if mode != NoMode then Outcome(s, mode, Forward(key)) else Outcome(s, mode, NoPost)
    case PageUp => if mode != NoMode then Outcome(s, mode, Forward(key)) else Outcome(s, mode, NoPost)
    case PageDown => if mode != NoMode then Outcome(s, mode, Forward(key)) else Outcome(s, mode, NoPost)
    case Backspace =>
      var post := if mode != NoMode then ShowOrHide(WordBeforeCursor(s, mode, BackspaceTrigger, memberLen)) else NoPost;
      Outcome(DeleteBackward(s), mode, post)
    case OtherKey => Outcome(s, mode, Hide)
  }

  /** Slash and backslash always select the path completer and show the list. */
  lemma OnKeySlash(s: State, mode: Mode, c: char, style: IndentStyle, memberLen: string -> nat)
    requires s.Valid() && style.Valid() && (c == '/' || c == '\\')
    ensures var r := OnKey(s, mode, Char(c), style, memberLen);
            r.mode == PathMode && r.post.Show? && r.state == TypeCharacter(s, c)
  {
    var key := Char(c);
    assert !IsQuoteOrBracket(c) && key.c == c;
    var w := WordBeforeCursor(s, PathMode, CharTrigger(c), memberLen);
    assert OnKey(s, mode, key, style, memberLen) == Outcome(TypeCharacter(s, c), PathMode, Show(w));
  }

  /** A separator selects the member completer unless the path completer is
      active, and shows the list. */
  lemma OnKeySeparator(s: State, mode: Mode, c: char, style: IndentStyle, memberLen: string -> nat)
    requires s.Valid() && style.Valid() && (c == '.' || c == ':')
    ensures var r := OnKey(s, mode, Char(c), style, memberLen);
            r.mode == (if mode == PathMode then PathMode else MemberMode) && r.post.Show? && r.state == TypeCharacter(s, c)
  {
    assert !IsQuoteOrBracket(c);
    var m := if mode != PathMode then MemberMode else mode;
    assert OnKey(s, mode, Char(c), style, memberLen) ==
           Outcome(TypeCharacter(s, c), m, Show(WordBeforeCursor(s, m, CharTrigger(c), memberLen)));
  }

  /** An active completer receives the navigation keys, and the document is
      left alone. */
  lemma OnKeyForwards(s: State, mode: Mode, key: Key, style: IndentStyle, memberLen: string -> nat)
    requires s.Valid() && style.Valid() && mode != NoMode
    requires key.Enter? || key.Tab? || key.ShiftTab? || key.Up? || key.Down? || key.PageUp? || key.PageDown?
    ensures OnKey(s, mode, key, style, memberLen) == Outcome(s, mode, Forward(key))
  {
  }

  /** Quotes and brackets go to the closing/wrapping rule and keep the mode;
      they hide the list outside member mode. */
  lemma OnKeyQuoteOrBracket(s: State, mode: Mode, c: char, style: IndentStyle, memberLen: string -> nat)
    requires s.Valid() && style.Valid() && IsQuoteOrBracket(c)
    ensures var r := OnKey(s, mode, Char(c), style, memberLen);
            r.mode == mode && r.state == QuoteOrBracket(s, c)
            && (mode != MemberMode ==> r.post == Hide)
            && (mode == MemberMode ==> r.post.Show?)
  {
  }

  /** Backspace deletes backward and only talks to the list when a completer
      is active: it shows the list for the remaining prefix or hides it. */
  lemma OnKeyBackspace(s: State, mode: Mode, style: IndentStyle, memberLen: string -> nat)
    requires s.Valid() && style.Valid()
    ensures var r := OnKey(s, mode, Backspace, style, memberLen);
            r.mode == mode && r.state == DeleteBackward(s)
            && (mode == NoMode ==> r.post == NoPost)
            && (mode != NoMode ==> r.post == ShowOrHide(WordBeforeCursor(s, mode, BackspaceTrigger, memberLen)))
  {
  }

  /** Without an active completer, Enter, Tab and Shift+Tab are the editing
      rules, and the other navigation keys change nothing here. */
  lemma OnKeyNoCompleter(s: State, key: Key, style: IndentStyle, memberLen: string -> nat)
    requires s.Valid() && style.Valid()
    ensures key.Enter? ==> OnKey(s, NoMode, key, style, memberLen).state == EditingRules.Enter(s, style)
    ensures key.Tab? ==> OnKey(s, NoMode, key, style, memberLen).state == EditingRules.Tab(s, style)
    ensures key.ShiftTab? ==> OnKey(s, NoMode, key, style, memberLen).state == EditingRules.ShiftTab(s, style)
    ensures key.Up? || key.Down? || key.PageUp? || key.PageDown? ==> OnKey(s, NoMode, key, style, memberLen) == Outcome(s, NoMode, NoPost)
  {
  }

  /** Printable characters other than quotes, brackets, slashes and
      separators go to the printable handler and are then typed. */
  lemma PrintableDispatch(s: State, mode: Mode, c: char, style: IndentStyle, memberLen: string -> nat)
    requires s.Valid() && style.Valid() && IsPrintable(c)
    requires !IsQuoteOrBracket(c) && c != '/' && c != '\\' && c != '.' && c != ':'
    ensures OnKey(s, mode, Char(c), style, memberLen) == OnPrintable(s, mode, c, memberLen)
  {
  }

  /** With no completer active, a typed word character is always part of the
      prefix, so the word completer starts and the list is shown for a prefix
      ending in that character. */
  lemma WordCharShows(s: State, c: char, memberLen: string -> nat)
    requires s.Valid() && IsWordChar(c)
    ensures var r := OnPrintable(s, NoMode, c, memberLen);
            r.mode == WordMode && r.post.Show? && |r.post.prefix| > 0
            && r.post.prefix[|r.post.prefix| - 1] == c
  {
    var search := SearchString(Before(s), CharTrigger(c));
    var w := TrailingRun(search, false);
    assert search[|search| - 1] == c;
    assert w == TrailingRun(search[..|search| - 1], false) + [c];
  }

  /** The completion list hides and the mode is reset when a hide message is
      handled (hide_completion_list); any other message keeps the mode. */
  function AfterPost(mode: Mode, post: Post): (m: Mode)
    ensures post.Hide? ==> m == NoMode
    ensures !post.Hide? ==> m == mode
  {
    if post.Hide? then NoMode else mode
  }

  /** Inserting a chosen completion: the word before the cursor is replaced
      by the completion's value, and the cursor ends after it. */
  function ReplaceCurrentWord(s: State, mode: Mode, value: string, memberLen: string -> nat): (r: State)
    requires s.Valid()
    ensures r.Valid()
  {
    var w := WordBeforeCursor(s, mode, NoTrigger, memberLen);
    WordBeforeCursorInLine(s, mode, ' ', memberLen);
    var p := s.sel.end;
    Edit(s, Location(p.line, p.col - |w|), p, Split(value), false)
  }

  /** For a value without line breaks, replacing the current word rewrites
      the cursor's line only: the prefix before the cursor becomes the value
      and the cursor follows it. */
  lemma ReplaceCurrentWordInLine(s: State, mode: Mode, value: string, memberLen: string -> nat)
    requires s.Valid() && '\n' !in value
    ensures var w := WordBeforeCursor(s, mode, NoTrigger, memberLen);
            var p := s.sel.end;
            var line := s.lines[p.line];
            var r := ReplaceCurrentWord(s, mode, value, memberLen);
            |w| <= p.col
            && r.lines == s.lines[p.line := line[..p.col - |w|] + value + line[p.col..]]
            && r.sel == CursorAt(Location(p.line, p.col - |w| + |value|))
  {
    var w := WordBeforeCursor(s, mode, NoTrigger, memberLen);
    WordBeforeCursorInLine(s, mode, ' ', memberLen);
    var p := s.sel.end;
    SplitNoBreak(value);
    ReplaceInLine(s.lines, Location(p.line, p.col - |w|), p, value);
  }

  /** The value, given that the option's value may be missing or empty: the
      prompt is used then. */
  function CompletionText(value: Option<string>, prompt: string): (r: string)
    ensures value.Some? && value.value != "" ==> r == value.value
    ensures value.None? || value.value == "" ==> r == prompt
  {
    if value.Some? && value.value != "" then value.value else prompt
  }
}

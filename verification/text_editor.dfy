/** The editor that owns a TextAreaPlus and its completion list: it picks
    the completer for the active mode, hides the list (which ends the
    completion mode) and inserts a chosen completion. Messages posted by the
    text area are handled at once, in the order they are posted. */
module TextEditorWidget {
  import opened TextUtil
  import opened Completion
  import opened TextAreaPlusWidget
  import opened CompletionListWidget
  import LineBuffer
  import EditingRules

  /** A completer: the (prompt, value) pairs offered for a prefix. */
  type Completer = string -> seq<(string, string)>

  /** The completer consulted in each mode; without a mode none is. */
  function CompleterFor(mode: Mode, path: Completer, member: Completer, word: Completer): (r: Option<Completer>)
  {
    match mode
    case NoMode => None
    case PathMode => Some(path)
    case MemberMode => Some(member)
    case WordMode => Some(word)
  }

  /** The message the list sends back when the text area asks to show
      completions for a prefix; nothing happens without a mode. */
  function CompletionsFor(mode: Mode, prefix: string, path: Completer, member: Completer, word: Completer)
    : (r: Option<ListMessage>)
    ensures r.None? <==> mode.NoMode?
  {
    var c := CompleterFor(mode, path, member, word);
    if c.Some? then Some(ShowCompletions(prefix, c)) else None
  }

  /** With a mode, the list offers exactly the mode's completer's matches for
      the prefix, and asks to be hidden when there are none. */
  lemma CompletionsForMode(mode: Mode, prefix: string, path: Completer, member: Completer, word: Completer)
    requires !mode.NoMode?
    ensures var matches := if mode.PathMode? then path(prefix)
                           else if mode.MemberMode? then member(prefix)
                           else word(prefix);
            var r := CompletionsFor(mode, prefix, path, member, word);
            r.Some?
            && (matches == [] <==> r.value == HideCompletionList)
            && (matches != [] ==> r.value == CompletionsReady(prefix, matches))
  {
  }

  class TextEditor {
    const textInput: TextAreaPlus
    const completionList: CompletionList
    const pathCompleter: Completer
    const memberCompleter: Completer
    const wordCompleter: Completer

    predicate Valid()
      reads this, textInput, completionList
    {
      textInput.Valid() && completionList.Valid()
    }

    constructor(text: seq<string>, style: EditingRules.IndentStyle, marker: string,
                path: Completer, member: Completer, word: Completer)
      requires |text| > 0 && style.Valid()
      ensures Valid() && fresh(textInput) && fresh(completionList)
      ensures textInput.lines == text && textInput.mode == NoMode && !completionList.open
      ensures pathCompleter == path && memberCompleter == member && wordCompleter == word
    {
      textInput := new TextAreaPlus(text, style, marker);
      completionList := new CompletionList();
      pathCompleter := path;
      memberCompleter := member;
      wordCompleter := word;
    }

    /** hide_completion_list: closes the list and ends the completion mode. */
    method HideCompletionList()
      requires Valid()
      modifies textInput, completionList
      ensures Valid() && !completionList.open && textInput.mode == NoMode
      ensures textInput.Doc() == old(textInput.Doc()) && textInput.History() == old(textInput.History())
      ensures completionList.additionalX == 0 && completionList.options == old(completionList.options)
      ensures completionList.x == old(completionList.x) && completionList.y == old(completionList.y)
    {
      completionList.SetOpen(false);
      textInput.mode := NoMode;
    }

    /** A key press in the text area, with the message it posts handled: a
      request to hide the list closes it and resets the mode, so the mode
      left behind is the one AfterPost gives. */
    method OnKey(key: Key, memberLen: string -> nat) returns (post: Post)
      requires Valid()
      modifies textInput, completionList
      ensures Valid() && textInput.History() == old(textInput.History())
      ensures var r := Completion.OnKey(old(textInput.Doc()), old(textInput.mode), key, textInput.style, memberLen);
              textInput.Doc() == r.state && post == r.post && textInput.mode == AfterPost(r.mode, r.post)
      ensures post.Hide? ==> !completionList.open
    {
      post := textInput.OnKeyAction(key, memberLen);
      if post.Hide? {
        HideCompletionList();
      }
    }

    /** update_completers_and_completion_list_offset: records the cursor's
      position for the list and asks the active mode's completer. */
    method ShowCompletionList(prefix: string, cursorX: int, cursorY: int) returns (m: Option<ListMessage>)
      requires Valid()
      modifies completionList
      ensures Valid()
      ensures m == CompletionsFor(textInput.mode, prefix, pathCompleter, memberCompleter, wordCompleter)
      ensures completionList.cursorX == cursorX && completionList.cursorY == cursorY
      ensures completionList.open == old(completionList.open) && completionList.options == old(completionList.options)
    {
      completionList.cursorX := cursorX;
      completionList.cursorY := cursorY;
      var c := CompleterFor(textInput.mode, pathCompleter, memberCompleter, wordCompleter);
      m := if c.Some? then Some(ShowCompletions(prefix, c)) else None;
    }

    /** insert_completion: the chosen option's value (its prompt when the
      value is missing or empty) replaces the word before the cursor; the
      list closes and the completion mode ends. */
    method InsertCompletion(value: Option<string>, prompt: string, memberLen: string -> nat)
      requires Valid()
      modifies textInput, completionList
      ensures Valid() && !completionList.open && textInput.mode == NoMode
      ensures textInput.Doc()
              == ReplaceCurrentWord(old(textInput.Doc()), old(textInput.mode), CompletionText(value, prompt), memberLen)
      ensures textInput.History() == old(textInput.History())
    {
      var text := CompletionText(value, prompt);
      textInput.ReplaceCurrentWordAction(text, memberLen);
      completionList.SetOpen(false);
      textInput.mode := NoMode;
    }
  }

  /** Inserting a one-line completion rewrites only the cursor's line: the
      word before the cursor gives way to the completion text and the cursor
      ends right after it. */
  lemma InsertCompletionInLine(s: LineBuffer.State, mode: Mode, value: Option<string>, prompt: string,
                               memberLen: string -> nat)
    requires s.Valid() && '\n' !in CompletionText(value, prompt)
    ensures var text := CompletionText(value, prompt);
            var w := WordBeforeCursor(s, mode, NoTrigger, memberLen);
            var p := s.sel.end;
            var r := ReplaceCurrentWord(s, mode, text, memberLen);
            r.lines == s.lines[p.line := s.lines[p.line][..p.col - |w|] + text + s.lines[p.line][p.col..]]
            && r.sel == LineBuffer.CursorAt(LineBuffer.Location(p.line, p.col - |w| + |text|))
  {
    ReplaceCurrentWordInLine(s, mode, CompletionText(value, prompt), memberLen);
  }
}

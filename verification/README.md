# textual-textarea, modelled in Dafny

This project models the editing logic of textual-textarea, a terminal
text-editor widget for Textual, and proves properties of it. The repository
holds two generations of the widget, and both are modelled.

- **The newer widget.** `TextAreaPlus` and `TextEditor` in
  `src/textual_textarea/text_editor.py`, with its completion list
  (`CompletionList` in `src/textual_textarea/autocomplete.py`). Modelled:
  - the undo/redo history of two deques capped at 25 snapshots;
  - auto-closing of quotes and brackets;
  - Enter auto-indent, Tab, indent and dedent at tab stops;
  - line-comment toggling and delete-line;
  - the completion prefix and the completer mode machine (none, path,
    member, word);
  - the completion list's placement, prompt truncation and open/close state.
- **The older widget.** `TextInput` in `src/textual_textarea/textarea.py`,
  which edits a list of lines in place. Every line carries one trailing
  space. Modelled: insert, delete a range, paste, Tab, indent/dedent,
  comment toggle, auto-close, Enter and cursor clamping. Its line
  (de)serialisation (`src/textual_textarea/serde.py`) is modelled too.
- **The inputs.** The find input's history navigation
  (`src/textual_textarea/find_input.py`), the go-to-line validator and
  placeholder (`src/textual_textarea/goto_input.py`), and the path validator,
  suggester and Tab completion (`src/textual_textarea/path_input.py`).

## How the model is laid out

| file | module | models |
|---|---|---|
| text_util.dfy | TextUtil | Python's lstrip/rstrip, isspace, `\w`, `split("\n")` and `"\n".join` on ASCII |
| line_buffer.dfy | LineBuffer | the document the newer widget edits: a non-empty list of lines, (line, column) locations in lexicographic order, replace on a sorted range |
| history.dfy | History | the undo and redo deques and snapshot coalescing |
| editing_rules.dfy | EditingRules | closers, Enter, Tab, indent/dedent, delete-line of the newer widget, as functions of the document |
| comment_toggle.dfy | CommentToggle | line-comment toggling of the newer widget |
| completion.dfy | Completion | the completion prefix, the mode machine and the dispatch of one key press |
| text_area_plus.dfy | TextAreaPlusWidget | class `TextAreaPlus`, whose actions update its fields in place and are proved against the functions above |
| autocomplete.dfy | CompletionListWidget | the list's geometry, truncation and class `CompletionList` |
| text_editor.dfy | TextEditorWidget | class `TextEditor`, which owns the text area and the list |
| text_input_rules.dfy | TextInputRules | the older widget's editing helpers as functions of its lines |
| text_input_keys.dfy | TextInputKeys | the older widget's key handler as a function of its state |
| text_input.dfy | TextInputWidget | class `TextInput`, whose helpers rewrite its fields in place |
| serde.dfy | Serde | `serialize_lines` and `deserialize_lines` |
| find_input.dfy | FindInputWidget | the find history, with class `FindInput` |
| goto_input.dfy | GotoInput | `GotoLineValidator` and the placeholder |
| path_input.dfy | PathInput | `PathValidator`, `PathSuggester` and Tab completion |

Where the source changes state step by step, the model is a class whose
methods update its fields. Each method is proved equal to a reference
function of the old state. The properties are proved about that function.

Behaviour of the model to be aware of:

- Messages that the text area posts to its editor (show or hide the
  completion list, forward a key) are returned by the text area's methods.
  `TextEditor` handles them at once, in the order they are posted.
- The older widget's dedent can leave the cursor at a negative column.
  Dedenting `"    x "` with the cursor at column 2 moves it to column -2
  (`TextInputRules.DedentCanLeaveNegativeColumn`). The model keeps that
  column and reads it with Python's slicing rules, as the widget does.
- Tab, indent, dedent and toggle-comment in the older widget act on the
  selection as it was before the key press. The anchor update at
  `textarea.py:139-171` runs first and is modelled by
  `TextInputKeys.AnchorAfter`.

## Model

| member | source | states |
|---|---|---|
| History.Push | src/textual_textarea/text_editor.py:200-201 | appending to a bounded deque puts the entry on top, keeps at most 25 entries, and drops the oldest exactly when the deque was full |
| History.TakeSnapshot | src/textual_textarea/text_editor.py:499-513 | the new state is on top of the undo stack afterwards; the undo stack grows by at most one; redo is kept or emptied |
| History.Undo | src/textual_textarea/text_editor.py:458-468 | after the snapshot, undo acts exactly when the undo stack holds more than one state; then its top is popped and pushed onto redo and the state below it is restored; otherwise the stacks are those the snapshot left |
| History.UndoActs | src/textual_textarea/text_editor.py:458-468 | undo restores a state exactly when two or more states are recorded, or one whose text differs from the current text |
| History.Redo | src/textual_textarea/text_editor.py:470-476 | redo acts exactly when the redo stack is non-empty: its top is restored, popped, and pushed onto undo; otherwise nothing changes |
| History.SnapshotIdempotent | src/textual_textarea/text_editor.py:499-506 | snapshotting the same state twice changes nothing the second time |
| History.SnapshotOutcomes | src/textual_textarea/text_editor.py:505-513 | a new text pushes the snapshot and empties redo; the same text with a new selection overwrites the top entry and keeps redo |
| History.RedoAfterUndo | src/textual_textarea/text_editor.py:458-476 | redo right after an undo that acted restores the state the undo left, with the undo stack as the snapshot left it |
| History.UndoAtOldest | src/textual_textarea/text_editor.py:460-461 | with only the current state recorded, undo restores nothing and keeps it |
| History.UndoTwice | src/textual_textarea/text_editor.py:458-468 | two edits and two undos restore the intermediate then the initial state, and a third undo does nothing |
| History.TwoSnapshots | src/textual_textarea/text_editor.py:499-513 | two snapshots of different texts taken on empty stacks are both kept, oldest first |
| LineBuffer.Replace | src/textual_textarea/text_editor.py:324-332 | replacing a sorted range by a fragment keeps the lines before and after the range and leaves both ends of the fragment addressable |
| LineBuffer.Edit | src/textual_textarea/text_editor.py:324-332 | an edit yields a valid document; without selection-offset maintenance the cursor ends after the inserted text |
| LineBuffer.TextRangeOfReplace | src/textual_textarea/text_editor.py:324-332 | after a replacement, the edited range holds exactly the inserted fragment |
| LineBuffer.ReplaceRoundTrip | src/textual_textarea/text_editor.py:324-332 | replacing the new text by the text it replaced restores the document |
| LineBuffer.DeleteSpan | src/textual_textarea/text_editor.py:440-446 | deleting columns a..b of one line changes only that line, and endpoints move as DeletedAt says |
| LineBuffer.DeletedAt | src/textual_textarea/text_editor.py:437-444 | where an endpoint goes when columns a..b of line k are deleted with the selection offset kept: other lines and columns before the span stay, columns inside go to its start, later ones move left by its width |
| EditingRules.CloserOf | src/textual_textarea/text_editor.py:38-43 | a bracket's closer is its closing bracket; a quote closes itself |
| EditingRules.ClosedCharacter | src/textual_textarea/text_editor.py:732-745 | typing with an empty selection gives a valid document |
| EditingRules.ClosedCharacterEffect | src/textual_textarea/text_editor.py:732-769 | typing the character under the cursor only steps over it; otherwise the character, plus its closer when the bracket or quote rule holds, goes into the line, and the cursor ends just after the typed character |
| EditingRules.WrapSelection | src/textual_textarea/text_editor.py:725-730 | wrapping a selection gives a valid document |
| EditingRules.WrapSelectionInLine | src/textual_textarea/text_editor.py:725-730 | on one line the opener and closer go around exactly the selected text, and the new selection covers that text |
| EditingRules.WrapSelectionAcrossLines | src/textual_textarea/text_editor.py:725-730 | across lines the opener goes in at the first end and the closer at the last end, each on its own line; the new selection runs from just after the opener to the unmoved last end |
| EditingRules.WrapSelectionAcrossLinesCoversText | src/textual_textarea/text_editor.py:725-730 | across lines too, the new selection covers exactly the text that was selected |
| EditingRules.WrapOpenerInLine | src/textual_textarea/text_editor.py:726-727 | the opener goes in before the selection and both sorted endpoints move one column right |
| EditingRules.QuoteOrBracket | src/textual_textarea/text_editor.py:592-610 | a quote or bracket key gives a valid document: closed typing on a cursor, replacement by a closing bracket, wrapping otherwise |
| EditingRules.QuoteOrBracketClosingReplaces | src/textual_textarea/text_editor.py:603-608 | a closing bracket over a selection, on one line or across lines, replaces the selected text by the bracket, and the cursor ends just after it |
| EditingRules.IndentLevelReference | src/textual_textarea/text_editor.py:771-782 | the indent level is the leading run of the nearest line at or above the index that is not whitespace-only |
| EditingRules.IndentLevelAllBlank | src/textual_textarea/text_editor.py:779-780 | when every line up to the index is whitespace-only, the level is 0 |
| EditingRules.Stops | src/textual_textarea/text_editor.py:677-693 | indent gives floor(lead/w)+1 stops; dedent gives ceil(lead/w)-1 stops, never below 0 |
| EditingRules.Reindented | src/textual_textarea/text_editor.py:694-697 | the selected lines, each reindented against its reference line |
| EditingRules.IndentSelection | src/textual_textarea/text_editor.py:677-723 | indent or dedent keeps the line count and gives a valid document |
| EditingRules.Moved | src/textual_textarea/text_editor.py:705-723 | an endpoint stays on its line; at column 0 it stays there; elsewhere its column moves by its line's change of length whenever that lands inside the line |
| EditingRules.MovedClamped | src/textual_textarea/text_editor.py:713-723 | a shifted column before the line's start goes to column 0, one past its end goes to the end |
| EditingRules.ReindentKeepsCharacter | src/textual_textarea/text_editor.py:694-697 | a column on a line's text after its indentation, shifted by the line's change of length, holds the same character in the reindented line |
| EditingRules.MovedKeepsCharacter | src/textual_textarea/text_editor.py:694-723 | an endpoint on a selected line's text, after its indentation and not in column 0, is moved onto the same character of the reindented line |
| EditingRules.IndentSelectionStart | src/textual_textarea/text_editor.py:703-723 | after indent or dedent the selection's start is its old position moved by its line's change of length |
| EditingRules.IndentSelectionEnd | src/textual_textarea/text_editor.py:703-723 | the same for the selection's end |
| EditingRules.IndentSelectionStartKeepsCharacter | src/textual_textarea/text_editor.py:694-723 | a selection start on its line's text, after the indentation and not in column 0, stays on the same character after indent or dedent |
| EditingRules.IndentSelectionEndKeepsCharacter | src/textual_textarea/text_editor.py:694-723 | the same for the selection's end |
| EditingRules.IndentSelectionReversed | src/textual_textarea/text_editor.py:677-723 | indent or dedent of a selection taken the other way round gives the same lines and the same endpoints, swapped: the result depends only on the selected lines, not on the selection's direction |
| EditingRules.IndentSelectionLines | src/textual_textarea/text_editor.py:698-702 | indent and dedent rewrite exactly the selected lines, to their reindented form |
| EditingRules.ReindentKeepsContent | src/textual_textarea/text_editor.py:694-697 | a reindented line keeps its lstrip() content, and its indentation is a whole number of indent units |
| EditingRules.IndentSelectionOutside | src/textual_textarea/text_editor.py:698-702 | lines outside the selection are unchanged |
| EditingRules.IndentSelectionInside | src/textual_textarea/text_editor.py:694-702 | every selected line keeps its content and gets the computed number of indent units |
| EditingRules.IndentSelectionLine | src/textual_textarea/text_editor.py:694-702 | a selected line becomes its reindented form |
| EditingRules.IndentSelectionColumnZero | src/textual_textarea/text_editor.py:705-716 | selection endpoints at column 0 do not move |
| EditingRules.Tab | src/textual_textarea/text_editor.py:633-657 | Tab without a completer gives a valid document |
| EditingRules.ShiftTab | src/textual_textarea/text_editor.py:612-619 | Shift+Tab without a completer gives a valid document |
| EditingRules.TabToStop | src/textual_textarea/text_editor.py:641-652 | when Tab replaces the selection, 1 to w indent characters go in and the cursor lands on the next tab stop |
| EditingRules.Enter | src/textual_textarea/text_editor.py:564-590 | Enter without a completer gives a valid document |
| EditingRules.NextStop | src/textual_textarea/text_editor.py:576-581 | the indentation after a bracket is beyond the old one: the next multiple of the width with spaces, one more tab with tabs |
| EditingRules.EnterSplit | src/textual_textarea/text_editor.py:582 | after an opening bracket, the line is split and the new line starts at the next tab stop, with the cursor there |
| EditingRules.EnterBetweenPair | src/textual_textarea/text_editor.py:575-587 | between a bracket and its closer, the line splits in three: a middle line at the next tab stop holding the cursor, and the closer on a third line at the old indentation |
| EditingRules.EnterAfterBracket | src/textual_textarea/text_editor.py:575-582 | after a bracket whose closer is not under the cursor, the line splits and the cursor lands at the next tab stop |
| EditingRules.EnterPlain | src/textual_textarea/text_editor.py:588-590 | elsewhere, the line splits at the cursor and the new line starts with the reference indentation, followed by the cursor |
| EditingRules.CharBeforeFirst | src/textual_textarea/text_editor.py:570-573 | none exactly when the selection's first endpoint is in column 0, otherwise the character left of it |
| EditingRules.CharAfterLast | src/textual_textarea/text_editor.py:583 | none exactly when the selection's last endpoint is at the end of its line, otherwise the character right of it |
| EditingRules.SplitSelection | src/textual_textarea/text_editor.py:582 | the selected text gives way to a line break and the given indentation, the cursor lands after the indentation, and the character under it is the one that followed the selection |
| EditingRules.EnterBetweenPairSteps | src/textual_textarea/text_editor.py:582-587 | between a bracket pair, Enter is the split of the selection followed by a line break and the old indentation inserted at the cursor, which stays put |
| EditingRules.EnterSelectionBetweenPair | src/textual_textarea/text_editor.py:569-587 | over a selection after a bracket and before its closer, the selected text gives way to a middle line at the next tab stop holding the cursor, and the closer goes to a third line at the old indentation |
| EditingRules.EnterSelectionAfterBracket | src/textual_textarea/text_editor.py:569-582 | over a selection after a bracket and not before its closer, the selected text gives way to a line break and the next tab stop, with the cursor there |
| EditingRules.EnterSelectionPlain | src/textual_textarea/text_editor.py:569-590 | over a selection not after a bracket, the line breaks at the first endpoint with the reference indentation, the selected text stays, and the cursor lands after the indentation |
| EditingRules.DeleteLine | src/textual_textarea/text_editor.py:361-378 | delete-line gives a valid document |
| EditingRules.DeleteLineRemovesLine | src/textual_textarea/text_editor.py:366-378 | with a cursor in a document of two or more lines, exactly the cursor's line is removed; the cursor goes to the end of the line above for the last line, else to column 0 of the following line |
| EditingRules.DeleteLineSelection | src/textual_textarea/text_editor.py:364-365 | with a selection, the text between its ends is deleted and the cursor is at the first endpoint |
| EditingRules.RemoveLastLine | src/textual_textarea/text_editor.py:369-374 | deleting from the end of the line above to the end of the last line removes the last line |
| EditingRules.RemoveLineBefore | src/textual_textarea/text_editor.py:376-377 | deleting from column 0 of a line to column 0 of the next removes that line |
| EditingRules.TypeCharacter | src/textual_textarea/text_editor.py:664-675 | the default insertion of a printable character gives a valid document |
| CommentToggle.UncommentWidth | src/textual_textarea/text_editor.py:420-436 | the intended number of characters uncommenting removes: the marker, plus one whitespace character when one follows it |
| CommentToggle.UncommentLine | src/textual_textarea/text_editor.py:428-444 | a blank line is left as it is (the removal of the marker is stated by UncommentLineEdit and the round-trip lemmas) |
| CommentToggle.MinIndentSpec | src/textual_textarea/text_editor.py:447-449 | the commenting column is None exactly when all lines are blank, and otherwise the smallest indentation of a non-blank line |
| CommentToggle.MinIndentSelected | src/textual_textarea/text_editor.py:447-449 | when some selected line is not commented, the commenting column exists and no non-blank selected line is indented less |
| CommentToggle.SelectedCommented | src/textual_textarea/text_editor.py:420-427 | when all selected lines are commented or blank, so is each line of the range |
| CommentToggle.UncommentLineEdit | src/textual_textarea/text_editor.py:440-444 | uncommenting a line is the edit that deletes the marker span at its indentation |
| CommentToggle.CommentLineEdit | src/textual_textarea/text_editor.py:450-455 | commenting a non-blank line is the edit that inserts the marker and a space at column m |
| CommentToggle.UncommentAt | src/textual_textarea/text_editor.py:440-444 | an endpoint stays on its line when line k is uncommented |
| CommentToggle.CommentAt | src/textual_textarea/text_editor.py:450-455 | an endpoint stays on its line when line k is commented |
| CommentToggle.UncommentEditSel | src/textual_textarea/text_editor.py:440-444 | the uncommenting edit moves the endpoints as UncommentAt says |
| CommentToggle.CommentEdit | src/textual_textarea/text_editor.py:450-455 | the commenting edit moves the endpoints as CommentAt says |
| CommentToggle.UncommentRange | src/textual_textarea/text_editor.py:437-444 | the selected lines uncommented, the others kept |
| CommentToggle.CommentRange | src/textual_textarea/text_editor.py:450-455 | the selected lines commented at column m, the others kept |
| CommentToggle.UncommentedUpToStep | src/textual_textarea/text_editor.py:437-444 | one more iteration of the uncommenting loop extends the uncommented prefix |
| CommentToggle.CommentedUpToStep | src/textual_textarea/text_editor.py:450-455 | one more iteration of the commenting loop extends the commented prefix |
| CommentToggle.Uncommented | src/textual_textarea/text_editor.py:419-444 | uncommenting gives a valid document with the same number of lines |
| CommentToggle.Commented | src/textual_textarea/text_editor.py:446-455 | commenting gives a valid document with the same number of lines |
| CommentToggle.UncommentedSelection | src/textual_textarea/text_editor.py:437-444 | where uncommenting takes the selection's endpoints |
| CommentToggle.CommentedSelection | src/textual_textarea/text_editor.py:450-455 | where commenting takes the selection's endpoints |
| CommentToggle.ToggleComment | src/textual_textarea/text_editor.py:414-456 | the toggle keeps the line count; an empty marker changes nothing |
| CommentToggle.ToggleCommentKeeps | src/textual_textarea/text_editor.py:414-456 | lines outside the selection and blank lines are never changed |
| CommentToggle.CommentedShape | src/textual_textarea/text_editor.py:450-455 | a commented non-blank line has its indentation at the insertion column, its stripped text starts with the marker, and uncommenting removes the marker and the space |
| CommentToggle.CommentLineRoundTrip | src/textual_textarea/text_editor.py:420-455 | commenting a line at or left of its indentation, then uncommenting it, gives the original line back |
| CommentToggle.CommentColRoundTrip | src/textual_textarea/text_editor.py:437-455 | uncommenting maps every column of a commented line back to where it was |
| CommentToggle.CommentedAllCommented | src/textual_textarea/text_editor.py:420-427 | after commenting, every selected line is commented or blank |
| CommentToggle.UncommentCommented | src/textual_textarea/text_editor.py:414-456 | uncommenting what was just commented restores text and selection |
| CommentToggle.CommentBranch | src/textual_textarea/text_editor.py:446-455 | the commenting branch uses the smallest indentation of the non-blank selected lines |
| CommentToggle.ToggleCommentRoundTrip | src/textual_textarea/text_editor.py:414-456 | toggling twice, starting from lines that are not all commented, restores the text and the selection |
| CommentToggle.UncommentLineAsWritten | src/textual_textarea/text_editor.py:428-444 | uncommenting as the widget does it, removing 2 or 1 characters whatever the marker's length; never longer than the line |
| CommentToggle.AsWrittenAgreesForOneCharMarker | src/textual_textarea/text_editor.py:428-436 | for a one-character marker the widget's width is the intended one |
| CommentToggle.TwoCharMarkerRoundTripFails | src/textual_textarea/text_editor.py:428-436 | with the marker "--", commenting "foo bar baz" and uncommenting it as written leaves a space in front of the text |
| CommentToggle.CommentAtColumnZero | src/textual_textarea/text_editor.py:450-455 | commenting at column 0 puts the marker and a space in front of the line |
| CommentToggle.TwoCharMarkerWidths | src/textual_textarea/text_editor.py:428-436 | for a two-character marker the as-written and intended widths differ by one |
| CommentToggle.LoneMarkerOutOfRange | src/textual_textarea/text_editor.py:432 | a line that is exactly the marker counts as commented, but the widget reads one character past its end; the intended width leaves an empty line |
| Completion.Before | src/textual_textarea/text_editor.py:529-531 | the text of the cursor's line up to the cursor |
| Completion.SearchString | src/textual_textarea/text_editor.py:533-541 | backspace drops the last character (empty if at most one), a typed character is appended, otherwise the line up to the cursor |
| Completion.TrailingRun | src/textual_textarea/text_editor.py:543-554 | the longest suffix made of prefix characters: no quote or whitespace in path mode, word characters otherwise |
| Completion.WordBeforeCursor | src/textual_textarea/text_editor.py:529-554 | the prefix is a suffix of the search string |
| Completion.WordBeforeCursorInLine | src/textual_textarea/text_editor.py:529-554 | the prefix does not reach past the line start |
| Completion.DeleteBackward | src/textual_textarea/text_editor.py:556-562 | the underlying deletion on backspace gives a valid document |
| Completion.ShowOrHide | src/textual_textarea/text_editor.py:559-562 | a non-empty prefix shows the list, an empty one hides it |
| Completion.OnPrintable | src/textual_textarea/text_editor.py:664-675 | a word character starts word mode when none is active; a non-word character then posts nothing |
| Completion.OnKey | src/textual_textarea/text_editor.py:228-267 | one key press keeps the document valid; ctrl+@ changes nothing and posts nothing |
| Completion.OnKeySlash | src/textual_textarea/text_editor.py:627-631 | slash and backslash always select path mode and show the list |
| Completion.OnKeySeparator | src/textual_textarea/text_editor.py:620-625 | a full stop or colon selects member mode unless path mode is active, and shows the list |
| Completion.OnKeyForwards | src/textual_textarea/text_editor.py:658-662 | with a completer active, navigation keys are forwarded and the document is left alone |
| Completion.OnKeyQuoteOrBracket | src/textual_textarea/text_editor.py:592-610 | quotes and brackets apply the closing rule, keep the mode, and hide the list outside member mode |
| Completion.OnKeyBackspace | src/textual_textarea/text_editor.py:556-562 | backspace deletes backward, and talks to the list only when a completer is active |
| Completion.OnKeyNoCompleter | src/textual_textarea/text_editor.py:564-657 | without a completer, Enter, Tab and Shift+Tab are the editing rules |
| Completion.PrintableDispatch | src/textual_textarea/text_editor.py:263-264 | other printable characters go to the printable handler and are then typed |
| Completion.WordCharShows | src/textual_textarea/text_editor.py:664-675 | a word character typed with no completer starts word mode and shows the list for a prefix ending in it |
| Completion.AfterPost | src/textual_textarea/text_editor.py:1049-1053 | handling a hide message resets the mode to none; any other message keeps it |
| Completion.ReplaceCurrentWord | src/textual_textarea/text_editor.py:324-332 | inserting a completion keeps the document valid |
| Completion.ReplaceCurrentWordInLine | src/textual_textarea/text_editor.py:324-332 | a one-line value rewrites only the cursor's line: the prefix before the cursor becomes the value and the cursor follows it |
| Completion.CompletionText | src/textual_textarea/text_editor.py:1092 | the option's value when it is present and non-empty, otherwise its prompt |
| TextAreaPlusWidget.PushValid | src/textual_textarea/text_editor.py:200-201 | pushing a restorable snapshot keeps every entry restorable |
| TextAreaPlusWidget.TextAreaPlus.constructor | src/textual_textarea/text_editor.py:174-201 | a new text area holds the given lines with the cursor at the start, empty undo and redo stacks and no completion mode |
| TextAreaPlusWidget.TextAreaPlus.Append | src/textual_textarea/text_editor.py:200-201 | appending to a bounded deque is Push |
| TextAreaPlusWidget.TextAreaPlus.CreateUndoSnapshot | src/textual_textarea/text_editor.py:499-513 | the stacks become TakeSnapshot of the old stacks and the current state; text, selection and mode are unchanged |
| TextAreaPlusWidget.TextAreaPlus.UndoAction | src/textual_textarea/text_editor.py:458-468 | the new stacks are those of Undo, the text and selection are the state Undo restores or stay as they were, and the hide message is posted |
| TextAreaPlusWidget.TextAreaPlus.RedoAction | src/textual_textarea/text_editor.py:470-476 | the stacks and the restored state are those of Redo; the hide message is posted |
| TextAreaPlusWidget.TextAreaPlus.IndentLevelOfLine | src/textual_textarea/text_editor.py:771-782 | the loop walking up past whitespace-only lines returns IndentLevel |
| TextAreaPlusWidget.TextAreaPlus.ToggleCommentAction | src/textual_textarea/text_editor.py:414-456 | the line-by-line edits give the reference ToggleComment, and the history is untouched |
| TextAreaPlusWidget.TextAreaPlus.UncommentLineAt | src/textual_textarea/text_editor.py:440-444 | one delete edit uncomments line k and moves the endpoints as UncommentAt says |
| TextAreaPlusWidget.TextAreaPlus.CommentLineAt | src/textual_textarea/text_editor.py:450-455 | one insert edit comments line k at column m, unless it is blank |
| TextAreaPlusWidget.TextAreaPlus.UncommentLines | src/textual_textarea/text_editor.py:437-444 | the loop over the selected lines gives Uncommented |
| TextAreaPlusWidget.TextAreaPlus.CommentLines | src/textual_textarea/text_editor.py:450-455 | the loop over the selected lines gives Commented |
| TextAreaPlusWidget.TextAreaPlus.DeleteLineAction | src/textual_textarea/text_editor.py:361-378 | a snapshot is taken, then the document becomes DeleteLine of the old one |
| TextAreaPlusWidget.TextAreaPlus.OnKeyAction | src/textual_textarea/text_editor.py:228-267 | the document, the mode and the message are those of OnKey; the history is untouched |
| TextAreaPlusWidget.TextAreaPlus.ReplaceCurrentWordAction | src/textual_textarea/text_editor.py:324-332 | the document becomes ReplaceCurrentWord of the old one; mode and history are unchanged |
| TextEditorWidget.CompletionsFor | src/textual_textarea/text_editor.py:1065-1081 | no completer is consulted, and nothing is shown, exactly when no mode is active |
| TextEditorWidget.CompletionsForMode | src/textual_textarea/text_editor.py:1075-1081 | with a mode, the list gets exactly that mode's completer's matches, or is asked to hide when there are none |
| TextEditorWidget.TextEditor.constructor | src/textual_textarea/text_editor.py:819-860 | a new editor owns a fresh text area holding the text and a closed completion list, and keeps the three completers |
| TextEditorWidget.TextEditor.HideCompletionList | src/textual_textarea/text_editor.py:1049-1053 | the list is closed (its truncation offset reset) and the mode is none; document and history are unchanged |
| TextEditorWidget.TextEditor.OnKey | src/textual_textarea/text_editor.py:228-267 | the key's edit and message are those of OnKey, and the mode left behind is AfterPost of them |
| TextEditorWidget.TextEditor.ShowCompletionList | src/textual_textarea/text_editor.py:1065-1081 | the cursor offset is recorded and the message is CompletionsFor the active mode |
| TextEditorWidget.TextEditor.InsertCompletion | src/textual_textarea/text_editor.py:1089-1095 | the word before the cursor is replaced by the completion text, the list is closed and the mode is none |
| TextEditorWidget.InsertCompletionInLine | src/textual_textarea/text_editor.py:1089-1095 | a one-line completion rewrites only the cursor's line and leaves the cursor after it |
| CompletionListWidget.XOffset | src/textual_textarea/autocomplete.py:235-248 | None exactly when the list is wider than the container; otherwise at most cursor_x - prefix_length + additional_x_offset, ending inside the container, and equal to one of those two bounds |
| CompletionListWidget.YOffset | src/textual_textarea/autocomplete.py:250-261 | cursor_y + 1 when the list fits below the cursor; when it fits only above, it ends on the row just above the cursor (cursor_y - height); None exactly when it fits neither way |
| CompletionListWidget.YOffsetPlacement | src/textual_textarea/autocomplete.py:250-261 | the list starts on the row below the cursor and ends inside the container, or ends on the row just above the cursor and starts at row 0 or lower |
| CompletionListWidget.MaxLength | src/textual_textarea/autocomplete.py:120-121 | the widest prompt's length, bounding every prompt |
| CompletionListWidget.MaxLengthAttained | src/textual_textarea/autocomplete.py:120-121 | some prompt attains the maximum length |
| CompletionListWidget.TruncateAmount | src/textual_textarea/autocomplete.py:124-130 | 0 exactly when the widest prompt fits the inner width 37 or the prefix has at most two characters; otherwise the smaller of the overflow and len(prefix) - 2 |
| CompletionListWidget.Drop | src/textual_textarea/autocomplete.py:132-134 | the length of prompt[t:], with slicing past the end giving the empty string |
| CompletionListWidget.Options | src/textual_textarea/autocomplete.py:129-137 | with truncation each prompt becomes an ellipsis plus prompt[t:], otherwise it is kept; values are never changed |
| CompletionListWidget.ShortenedFits | src/textual_textarea/autocomplete.py:122-134 | when the truncation removes exactly the overflow beyond the inner width, every shortened prompt is at most one longer than that width |
| CompletionListWidget.TruncationKeepsColumns | src/textual_textarea/autocomplete.py:129-148 | the ellipsis offset shifts the list left so the text after the ellipsis keeps its screen columns |
| CompletionListWidget.ShowCompletions | src/textual_textarea/autocomplete.py:200-210 | a ready message with the same prefix and items exactly when there is a completer with matches; otherwise hide |
| CompletionListWidget.ProcessKeypress | src/textual_textarea/autocomplete.py:212-224 | Tab, Enter and Shift+Tab select; every key but those, the arrows and the page keys is ignored |
| CompletionListWidget.Placement | src/textual_textarea/autocomplete.py:139-163 | a closed list that fits is placed at cursor_x - prefix_length + additional_x_offset, or further left just enough to end at the parent's edge; one that does not fit goes to x = 0 with the container's width; an open list moves by the change in truncation offset, or just enough less to end at the parent's edge, and only when that offset changed |
| CompletionListWidget.PlacementFollowsTruncation | src/textual_textarea/autocomplete.py:155-163 | an open list moves by exactly the change in truncation offset when that fits |
| CompletionListWidget.CompletionList.constructor | src/textual_textarea/autocomplete.py:33-70 | a new list is closed, empty and has the default width and height |
| CompletionListWidget.CompletionList.SetOpen | src/textual_textarea/autocomplete.py:170-179 | closing resets the truncation offset; opening resets the maximum height to 8 |
| CompletionListWidget.CompletionList.PopulateAndPosition | src/textual_textarea/autocomplete.py:114-168 | options, truncation offset and placement are those of Options, TruncateAmount and Placement, the first option is highlighted and the list is open |
| CompletionListWidget.CompletionList.OnResize | src/textual_textarea/autocomplete.py:181-198 | on a fit, y is set and x kept; otherwise the maximum height drops by one while above one, and at one the list asks to be hidden |
| Serde.Lines | src/textual_textarea/serde.py:10 | the text's lines as str.splitlines() gives them: none exactly when the text is empty |
| Serde.LinesNoBreak | src/textual_textarea/serde.py:10 | no line holds a line break |
| Serde.Untrimmed | src/textual_textarea/serde.py:9-14 | never empty |
| Serde.UntrimmedLines | src/textual_textarea/serde.py:9-14 | before trimming, no line holds a break and every line ends with a space |
| Serde.Deserialize | src/textual_textarea/serde.py:8-19 | as many lines as before trimming; with trim only the last line changes, by right-stripping; without trim the lines are those before trimming |
| Serde.DeserializeLines | src/textual_textarea/serde.py:8-19 | no line holds a break; every line but a trimmed last one ends with a space |
| Serde.StripAll | src/textual_textarea/serde.py:5 | each line right-stripped, same number of lines |
| Serde.Serialize | src/textual_textarea/serde.py:4-5 | when no line holds a "\n", splitting the result on "\n" gives one piece per line, each the line right-stripped and so not ending in whitespace |
| Serde.LinesIsSplit | src/textual_textarea/serde.py:10-12 | on text with only "\n" breaks, splitlines() is split("\n") without the empty piece after a final newline |
| Serde.DeserializeIsPaddedSplit | src/textual_textarea/serde.py:9-12 | on such text, the pieces of split("\n") each with a space appended, one per "\n" plus one |
| Serde.SerializeDeserialize | src/textual_textarea/serde.py:4-19 | serialising what was deserialised gives the text back when its only breaks are "\n" and no line ends in whitespace |
| FindInputWidget.Saved | src/textual_textarea/find_input.py:53-57 | the value is appended exactly when it is non-empty and differs from the newest entry |
| FindInputWidget.SavedWellKept | src/textual_textarea/find_input.py:53-57 | saving keeps the history free of empty entries and of repeats |
| FindInputWidget.OnKeyInvariants | src/textual_textarea/find_input.py:23-71 | every key keeps the position valid and the history append-only and well kept |
| FindInputWidget.BlurInvariants | src/textual_textarea/find_input.py:37-39 | leaving the input applies the same rule, keeping the same invariants |
| FindInputWidget.UpShowsEntry | src/textual_textarea/find_input.py:66-71 | with a history, Up leaves -len(history) <= index <= -1 and shows that entry |
| FindInputWidget.UpSavesTypedValue | src/textual_textarea/find_input.py:66-71 | Up when not browsing saves what was typed and shows the newest entry before it |
| FindInputWidget.UpStopsAtOldest | src/textual_textarea/find_input.py:69 | Up at the oldest entry stays there |
| FindInputWidget.DownUndoesUp | src/textual_textarea/find_input.py:41-71 | Down undoes Up while browsing away from the oldest entry |
| FindInputWidget.FindInput.constructor | src/textual_textarea/find_input.py:11-21 | a new input has the given value and history and is not browsing |
| FindInputWidget.FindInput.Checkpoint | src/textual_textarea/find_input.py:53-57 | the state becomes Saved of the old one, and the result says whether the value was appended |
| FindInputWidget.FindInput.HandleUp | src/textual_textarea/find_input.py:59-71 | the state becomes Up of the old one |
| FindInputWidget.FindInput.HandleDown | src/textual_textarea/find_input.py:41-51 | the state becomes Down of the old one |
| FindInputWidget.FindInput.HandleBlur | src/textual_textarea/find_input.py:37-39 | the state becomes Blur of the old one |
| FindInputWidget.FindInput.HandleSpecialKeys | src/textual_textarea/find_input.py:23-35 | the state and the submitted value are those of OnKey: other keys stop browsing, F3 submits the value |
| GotoInput.DropUnderscores | src/textual_textarea/goto_input.py:20-21 | never longer than the input; digits only when the input holds only digits and underscores |
| GotoInput.ParseUnsigned | src/textual_textarea/goto_input.py:20-21 | a value exactly when the digit string is well formed for int() |
| GotoInput.ParseInt | src/textual_textarea/goto_input.py:20-23 | a value exactly when the stripped text is an optional sign followed by well-formed digits; negative only after a minus sign |
| GotoInput.NatToString | src/textual_textarea/goto_input.py:26-28 | str(n) of a natural number: non-empty and digits only |
| GotoInput.ValueOfNatToString | src/textual_textarea/goto_input.py:26-28 | the value of the decimal form of n is n |
| GotoInput.ParseIntOfIntToString | src/textual_textarea/goto_input.py:20-21 | int() reads back every integer from its decimal form |
| GotoInput.NewGotoLineValidator | src/textual_textarea/goto_input.py:9-17 | the minimum defaults to 1 |
| GotoInput.Validate | src/textual_textarea/goto_input.py:19-30 | a non-integer fails with "Not a valid line number."; then below the minimum fails with ">= min"; then above the maximum fails with "<= max"; otherwise success |
| GotoInput.ValidateLineNumber | src/textual_textarea/goto_input.py:19-30 | a typed line number is accepted exactly when min <= lno <= max |
| GotoInput.Placeholder | src/textual_textarea/goto_input.py:43-49 | always ends with the accepted range and how to cancel; is exactly that without a current line; starts with "Current line: n. " with one |
| GotoInput.PlaceholderNamesCurrentLine | src/textual_textarea/goto_input.py:43-49 | the placeholder starts with "Current line:" exactly when a current line is given |
| PathInput.Validate | src/textual_textarea/path_input.py:58-78 | an error from stat other than FileNotFoundError propagates unless the validator is permissive; otherwise it succeeds exactly when the reference Accepts holds, and each failure carries exactly its kind's message ("Not a valid path.", "File or directory does not exist.", "Path cannot be a directory.", "Path cannot be a regular file.") |
| PathInput.ValidateMonotone | src/textual_textarea/path_input.py:58-78 | allowing more kinds of path and requiring existence less never turns a success into a failure |
| PathInput.ValidatorMatchesDirectoryRows | tests/unit_tests/test_path_validator.py:37-72 | the expected results for a directory under every combination of flags |
| PathInput.ValidatorMatchesMissingRows | tests/unit_tests/test_path_validator.py:37-72 | the expected results for a missing path under every combination of flags |
| PathInput.ValidatorMatchesRegularFileRows | tests/unit_tests/test_path_validator.py:37-72 | the expected results for a regular file under every combination of flags |
| PathInput.Suggestion | src/textual_textarea/path_input.py:37-42 | a suggestion exactly when there is one match, and then that match's prompt |
| PathInput.Complete | src/textual_textarea/path_input.py:127-131 | a suggestion that differs from the value is accepted; otherwise the focus moves on when so configured |
| TextInputRules.First | src/textual_textarea/textarea.py:419 | min of the anchor and the cursor: at or before both, and one of them |
| TextInputRules.Last | src/textual_textarea/textarea.py:420 | max of the anchor and the cursor: at or after both, and one of them |
| TextInputRules.CloserOf | src/textual_textarea/textarea.py:25-31 | a bracket maps to a closing bracket, a quote to itself |
| TextInputRules.CutPoint | src/textual_textarea/textarea.py:425 | the index Python's slicing uses for a position: clamped to the line, counted from the end when negative |
| TextInputRules.HeadTail | src/textual_textarea/textarea.py:424-426 | the line before a position and the line from it make up the whole line |
| TextInputRules.CutAtSeam | src/textual_textarea/textarea.py:424-426 | cutting a concatenation at the seam gives back both parts |
| TextInputRules.InsertAt | src/textual_textarea/textarea.py:423-426 | the new line is as long as the old line and the text together |
| TextInputRules.InsertThenCut | src/textual_textarea/textarea.py:423-426 | the text sits at the position in the new line, and cutting it out gives the old line back |
| TextInputRules.Inserted | src/textual_textarea/textarea.py:423-426 | inserting text into one line keeps the number of lines |
| TextInputRules.Deleted | src/textual_textarea/textarea.py:456-466 | deleting a selection never leaves an empty document |
| TextInputRules.DeletedCollapses | src/textual_textarea/textarea.py:456-461 | the selected lines become one line: the first line up to the first end followed by the last line from the last end; the first end is a position in it |
| TextInputRules.DeletedRemovesLines | src/textual_textarea/textarea.py:462-465 | when that joined line is empty, the selected lines are removed, and a document left with no lines becomes [" "] |
| TextInputRules.InsertThenDelete | src/textual_textarea/textarea.py:423-466 | deleting the span of text just inserted restores the lines |
| TextInputRules.NewStopsBounds | src/textual_textarea/textarea.py:472-479 | indent moves the indentation to the next multiple of 4 strictly above it; dedent to the multiple of 4 strictly below it, or keeps 0 |
| TextInputRules.ReindentKeepsText | src/textual_textarea/textarea.py:475-480 | a reindented line keeps its lstrip() text and its indentation is the computed multiple of 4 |
| TextInputRules.ReindentAll | src/textual_textarea/textarea.py:477-480 | reindenting a block keeps its number of lines |
| TextInputRules.ReindentAllAt | src/textual_textarea/textarea.py:477-480 | each line of a reindented block is that line reindented |
| TextInputRules.Reindented | src/textual_textarea/textarea.py:481 | replacing the selected lines keeps the number of lines |
| TextInputRules.ReindentedLines | src/textual_textarea/textarea.py:481 | the selected lines are reindented and every other line is kept |
| TextInputRules.DedentUndoesIndent | src/textual_textarea/textarea.py:468-501 | on a non-blank line indented by a multiple of 4, dedent undoes indent |
| TextInputRules.DedentUndoesIndentLines | src/textual_textarea/textarea.py:468-501 | the same for every selected line at once |
| TextInputRules.DedentCanLeaveNegativeColumn | src/textual_textarea/textarea.py:494-501 | dedenting "    x " with the cursor at column 2 moves the cursor to column -2 |
| TextInputRules.ShiftedKeepsCharacter | src/textual_textarea/textarea.py:494-501 | a cursor past the indentation, shifted by the line's change of length, stays on the same character |
| TextInputKeys.IndentLonger | src/textual_textarea/textarea.py:472-480 | indenting always lengthens a line |
| TextUtil.Glue | src/textual_textarea/textarea.py:519-522 | gluing the head to the first piece and the tail to the last keeps the number of pieces |
| TextUtil.SplitJoin | src/textual_textarea/serde.py:5 | splitting on "\n" what "\n".join made gives the pieces back when none of them holds a "\n" |
| TextInputRules.PastedShape | src/textual_textarea/textarea.py:503-527 | pasting k lines replaces the cursor's line by k lines and keeps the rest; the first starts with the head, the middle ones are clipboard lines, the tail follows the new cursor on the last |
| TextInputRules.CopyRange | src/textual_textarea/textarea.py:256-263 | the ends of the copied text: the selection's ends, or the whole cursor line |
| TextInputRules.Copied | src/textual_textarea/textarea.py:254-266 | the clipboard is never empty after a copy |
| TextInputRules.CutCollapses | src/textual_textarea/textarea.py:274-279 | cutting a selection joins its first and last lines around the cut and puts the cursor at the first end |
| TextInputRules.GlueCopied | src/textual_textarea/textarea.py:254-266 | gluing the head and tail back around the copied lines gives the selected lines |
| TextInputRules.CopiedOrdered | src/textual_textarea/textarea.py:256-257 | copying does not depend on which end of the selection is the anchor |
| TextInputRules.PasteRestores | src/textual_textarea/textarea.py:456-527 | pasting what was copied over the collapsed selection restores the lines and leaves the cursor at the last end |
| TextInputRules.CutThenPaste | src/textual_textarea/textarea.py:254-282 | cut then paste gives the original lines back, with the cursor at the selection's last end |
| TextInputRules.CharBefore | src/textual_textarea/textarea.py:532-536 | None exactly when the widget's own cursor is at column 0; otherwise the character before the given position |
| TextInputRules.ClosedCharShape | src/textual_textarea/textarea.py:440-454 | the cursor moves one right; typing the character under the cursor only steps over it; otherwise the character, perhaps followed by its closer, goes in at the cursor and no other line changes |
| TextInputRules.ClosesAtLineEnd | src/textual_textarea/textarea.py:449-454 | a bracket typed before the line's final space is followed by its closer |
| TextInputRules.AroundOneLine | src/textual_textarea/textarea.py:428-438 | on one line the character goes before the selection and its closer after it, and the cursor ends just before the closer |
| TextInputRules.EnterIndent | src/textual_textarea/textarea.py:307-310 | the indentation kept by Enter: 0 for a whitespace-only line, otherwise the line's leading width |
| TextInputRules.NextStop | src/textual_textarea/textarea.py:316 | the next multiple of 4 strictly above the indentation |
| TextInputRules.EnterAutoIndents | src/textual_textarea/textarea.py:323-328 | Enter splits the selection into the head plus a space and a new line at the old indentation holding the stripped tail; the cursor goes to the new line at most at that indentation |
| TextInputRules.EnterSplitsBrackets | src/textual_textarea/textarea.py:313-322 | between a bracket and its closer, Enter makes three lines: the head, a blank line at the next tab stop holding the cursor, and the closer at the old indentation |
| TextInputRules.EnteredBetween | src/textual_textarea/textarea.py:313-322 | the three lines Enter puts between a bracket and its closer, and the cursor position |
| TextInputRules.ClampProperties | src/textual_textarea/textarea.py:538-543 | the clamped cursor is on a line, at a non-negative column inside a non-empty line, keeps an in-range row and an in-range position, and clamping again changes nothing |
| TextInputRules.CommentLineText | src/textual_textarea/textarea.py:250-253 | a commented line keeps its indentation and its stripped text is the marker, a space, and the old stripped text |
| TextInputRules.UncommentedText | src/textual_textarea/textarea.py:241-248 | uncommenting a commented line gives its indentation in spaces followed by its stripped text |
| TextInputRules.UncommentUndoesComment | src/textual_textarea/textarea.py:229-253 | on a space-indented line, uncommenting undoes commenting |
| TextInputRules.AllCommentedAt | src/textual_textarea/textarea.py:235-240 | all lines are commented exactly when each stripped line starts with the marker |
| TextInputRules.CommentAll | src/textual_textarea/textarea.py:250-253 | commenting keeps the number of lines |
| TextInputRules.CommentAllAt | src/textual_textarea/textarea.py:250-253 | each line is commented on its own |
| TextInputRules.UncommentAll | src/textual_textarea/textarea.py:241-248 | uncommenting keeps the number of lines |
| TextInputRules.UncommentAllAt | src/textual_textarea/textarea.py:241-248 | each line is uncommented on its own |
| TextInputRules.CommentAllMarks | src/textual_textarea/textarea.py:235-253 | after commenting every line counts as commented |
| TextInputRules.UncommentAllUndoes | src/textual_textarea/textarea.py:229-253 | uncommenting undoes commenting for space-indented lines |
| TextInputRules.Toggled | src/textual_textarea/textarea.py:245-253 | toggling keeps the number of lines |
| TextInputRules.ToggleAll | src/textual_textarea/textarea.py:235-253 | toggling a block keeps its number of lines |
| TextInputRules.ToggleTwice | src/textual_textarea/textarea.py:229-253 | toggling twice restores lines that were not all commented and are space-indented |
| TextInputRules.Splice | src/textual_textarea/textarea.py:461 | slice assignment: the length changes by the replacement's length less the slice's |
| TextInputRules.SpliceParts | src/textual_textarea/textarea.py:461 | slice assignment keeps what is before and after the slice and puts the replacement between |
| TextInputRules.SpliceRoundTrip | src/textual_textarea/textarea.py:461 | assigning the old slice back over the replacement restores the list |
| TextInputKeys.AnchorAfter | src/textual_textarea/textarea.py:139-171 | the anchor after the update is the old one, the cursor, none, or the document start |
| TextInputKeys.AnchorAfterSelects | src/textual_textarea/textarea.py:166-171 | for keys other than those that keep the selection and ctrl+a, a selection exists exactly when the key is shifted, and a shifted key anchors at the old anchor or the cursor |
| TextInputKeys.Ends | src/textual_textarea/textarea.py:406-421 | the ends are ordered, and with no anchor both are the cursor |
| TextInputKeys.Cleared | src/textual_textarea/textarea.py:351-352 | deleting a selection, if any, leaves a non-empty document |
| TextInputKeys.ReplacedAtCursor | src/textual_textarea/textarea.py:348-356 | with no selection, typed text goes into the cursor's line at the cursor and the cursor moves past it |
| TextInputKeys.TabWidth | src/textual_textarea/textarea.py:293 | 1 to 4 spaces, ending on a multiple of 4 |
| TextInputKeys.ShiftedIn | src/textual_textarea/textarea.py:494-501 | a shifted cursor stays on its line |
| TextInputKeys.Indented | src/textual_textarea/textarea.py:468-501 | reindenting keeps the number of lines, the cursor's line and the clipboard, and an anchor stays on its line |
| TextInputKeys.DeletedNothing | src/textual_textarea/textarea.py:292 | deleting an empty selection changes nothing |
| TextInputKeys.TabToNextStop | src/textual_textarea/textarea.py:283-295 | Tab with no selection inserts 1 to 4 spaces at the cursor and moves it to the next multiple of 4 |
| TextInputKeys.PasteSource | src/textual_textarea/textarea.py:506-513 | a system clipboard text always gives at least one line |
| TextInputKeys.Moved | src/textual_textarea/textarea.py:201-228 | navigation keeps the cursor on a line of the document |
| TextInputKeys.OnKeyKeepsShape | src/textual_textarea/textarea.py:136-358 | every handled key leaves a document with a line and the cursor and the anchor on its lines; for backspace or delete over a selection, when the insertion point the deletion leaves is on a line |
| TextInputKeys.OnEraseSelection | src/textual_textarea/textarea.py:329-346 | backspace or delete over a selection deletes the text between the anchor and the cursor, puts the cursor on the first end, drops the selection and keeps the clipboard |
| TextInputKeys.EraseSelectionCollapses | src/textual_textarea/textarea.py:456-461 | with both ends of the selection on characters, erasing it makes the selected lines one line, the first line up to the first end followed by the last line from the last end, and the shape is kept |
| TextInputKeys.EraseSelectionPastEnd | src/textual_textarea/textarea.py:456-466 | erasing from the start of the last line to its end removes that line and leaves the cursor one line past the document |
| TextInputKeys.OnUnhandledKey | src/textual_textarea/textarea.py:139-171 | a key no branch handles only runs the anchor update: without shift it drops the selection, with shift it keeps the anchor or anchors at the cursor |
| TextInputKeys.CharKeepsShape | src/textual_textarea/textarea.py:174-200 | the quote, bracket and printable branches keep that shape |
| TextInputKeys.TabKeepsShape | src/textual_textarea/textarea.py:283-298 | the Tab branch keeps that shape |
| TextInputKeys.EnterKeepsShape | src/textual_textarea/textarea.py:302-328 | the Enter branch keeps that shape |
| TextInputKeys.CutKeepsShape | src/textual_textarea/textarea.py:254-279 | the cut branch keeps that shape |
| TextInputKeys.PasteKeepsShape | src/textual_textarea/textarea.py:280-282 | the paste branch keeps that shape |
| TextInputKeys.CutThenPasteKeys | src/textual_textarea/textarea.py:254-282 | ctrl+x then ctrl+v restores the lines, leaves the cursor at the selection's last end and the cut text on the clipboard |
| TextInputKeys.OnCutKey | src/textual_textarea/textarea.py:139-171 | ctrl+x drops the selection before it cuts |
| TextInputKeys.OnPasteKey | src/textual_textarea/textarea.py:139-171 | ctrl+v drops the selection before it pastes over it |
| TextInputKeys.CutThenPasteState | src/textual_textarea/textarea.py:254-282 | the same round trip stated on the branches |
| TextInputKeys.OnToggleComment | src/textual_textarea/textarea.py:229-253 | ctrl+/ toggles the selected lines when a marker is set, and otherwise changes nothing; cursor and anchor stay |
| TextInputKeys.CommentTwiceKeys | src/textual_textarea/textarea.py:229-253 | pressing ctrl+/ twice restores the whole state when the lines were not all commented and are space-indented |
| TextInputKeys.ToggleTwiceEnds | src/textual_textarea/textarea.py:229-253 | the same restoration stated on the selection's ends |
| TextInputKeys.OnIndentKey | src/textual_textarea/textarea.py:283-298 | Tab over a selection spanning lines indents it and drops the anchor first |
| TextInputKeys.OnDedentKey | src/textual_textarea/textarea.py:299-301 | Shift+Tab dedents the selection and keeps the anchor |
| TextInputKeys.IndentThenDedentKeys | src/textual_textarea/textarea.py:283-301 | Tab then Shift+Tab over lines indented by multiples of 4 restores the lines, and the cursor and anchor when their columns are not negative |
| TextInputKeys.IndentThenDedent | src/textual_textarea/textarea.py:468-501 | the same restoration stated on the reindentation |
| TextInputKeys.CursorShiftsBack | src/textual_textarea/textarea.py:494-501 | a cursor shifted by an indent and then a dedent returns to where it was |
| TextInputKeys.ShiftedInLine | src/textual_textarea/textarea.py:494-501 | a cursor at column 0 stays; otherwise it moves by its line's change of length |
| TextInputWidget.TextInput.constructor | src/textual_textarea/textarea.py:43-62 | a new widget holds [" "] with the cursor at the start, no anchor and an empty clipboard |
| TextInputWidget.TextInput.GetSelectedLines | src/textual_textarea/textarea.py:406-421 | the selected lines and the ordered ends |
| TextInputWidget.TextInput.InsertCharacterAtCursor | src/textual_textarea/textarea.py:423-426 | the lines become Inserted; nothing else changes |
| TextInputWidget.TextInput.DeleteSelection | src/textual_textarea/textarea.py:456-466 | the lines become Deleted and the cursor goes to the first end |
| TextInputWidget.TextInput.InsertCharactersAroundSelection | src/textual_textarea/textarea.py:428-438 | lines and cursor become Around |
| TextInputWidget.TextInput.InsertClosedCharacterAtCursor | src/textual_textarea/textarea.py:440-454 | lines and cursor become ClosedChar |
| TextInputWidget.TextInput.ReindentLines | src/textual_textarea/textarea.py:475-480 | the loop reindents every line as ReindentAll does |
| TextInputWidget.TextInput.ShiftWithLine | src/textual_textarea/textarea.py:483-501 | the shifted cursor as Shifted gives it |
| TextInputWidget.TextInput.IndentSelection | src/textual_textarea/textarea.py:468-501 | the state becomes Indented of the old one |
| TextInputWidget.TextInput.InsertClipboardAtSelection | src/textual_textarea/textarea.py:503-527 | the state becomes PasteKey of the old one |
| TextInputWidget.TextInput.PasteAtCursor | src/textual_textarea/textarea.py:517-527 | lines and cursor become Pasted; the clipboard and anchor are kept |
| TextInputWidget.TextInput.MoveCursor | src/textual_textarea/textarea.py:538-543 | the cursor becomes Clamp of the requested position; nothing else changes |
| TextInputWidget.TextInput.TypeCharacter | src/textual_textarea/textarea.py:174-200 | the state becomes CharKey of the old one |
| TextInputWidget.TextInput.PressTab | src/textual_textarea/textarea.py:283-298 | the state becomes TabKey of the old one |
| TextInputWidget.TextInput.PressEnter | src/textual_textarea/textarea.py:302-328 | the state becomes EnterKey of the old one |
| TextInputWidget.TextInput.BreakLines | src/textual_textarea/textarea.py:304-328 | the new lines and cursor are those of Entered |
| TextInputWidget.TextInput.ToggleCommentKey | src/textual_textarea/textarea.py:229-253 | the lines become Toggled when a marker is set; cursor, anchor and clipboard are kept |
| TextInputWidget.TextInput.ToggleSelectedLines | src/textual_textarea/textarea.py:232-253 | the selected lines toggled, the others kept, as Toggled gives them |
| TextInputWidget.TextInput.CopyOrCut | src/textual_textarea/textarea.py:254-279 | the state becomes CopyKey of the old one |
| TextInputWidget.TextInput.CopySelection | src/textual_textarea/textarea.py:256-266 | the clipboard lines are Copied and the ends are CopyRange |
| TextInputWidget.TextInput.UpdateAnchor | src/textual_textarea/textarea.py:139-171 | returns the old anchor and sets the anchor to AnchorAfter |
| TextInputWidget.TextInput.EditKey | src/textual_textarea/textarea.py:174-200 | the quote, bracket, printable, Tab, Shift+Tab and Enter branches, and Backspace and Delete over a selection, give OnKey |
| TextInputWidget.TextInput.ClipboardKey | src/textual_textarea/textarea.py:229-282 | the comment, copy, cut and paste branches give OnKey |
| TextInputWidget.TextInput.OtherKey | src/textual_textarea/textarea.py:201-228 | navigation, maintained and unhandled keys give OnKey |
| TextInputWidget.TextInput.Navigate | src/textual_textarea/textarea.py:201-228 | the cursor moves as Moved says; nothing else changes |
| TextInputWidget.TextInput.OnKey | src/textual_textarea/textarea.py:136-358 | the state becomes OnKey of the old one and keeps its shape, for backspace or delete over a selection when the insertion point left is on a line |
| TextInputWidget.TextInput.OnPaste | src/textual_textarea/textarea.py:121-134 | the state becomes OnPaste of the old one |

## Left out

- Textual's `TextArea` is not part of this model. `LineBuffer` stands in for its edit primitives. When an edit keeps the selection offset, an endpoint before the edit stays, one inside it goes to the end of the inserted text, and one after it moves with the text. When it does not, the cursor ends after the inserted text. Where the widget assigns a computed selection, the location is clamped into the document. These are the model's own rules. They decide two cases where Textual's own rule may differ: an endpoint lying exactly at a zero-width insertion point, which moves past the inserted text (the opener of `EditingRules.WrapSelection`, the cursor of `EditingRules.EnterSelectionPlain`); and the selection left by a replacement over a selection, which collapses to a cursor after the new text (the closing-bracket branch of `EditingRules.QuoteOrBracket`).
- The system clipboard (pyperclip) is left out. In the older widget, the text a paste reads from it is the parameter `system` (`None` when there is none or it is not used). What a copy writes to it is not modelled. The newer widget's copy, cut and paste actions (`text_editor.py:334-349`, `text_editor.py:380-390`, `text_editor.py:483-497`) go through it and are not modelled.
- Arrow keys of the older widget, and Backspace and Delete with no selection, are left out. They call `handle_arrow`, which `textarea.py:21` imports but which key_handlers.py does not define. Backspace and Delete over a selection are modelled (`EraseSelection`), and so is a key no branch handles (`Unhandled`), which only runs the anchor update. The model's key handler covers every other branch of `TextInput.on_key`.
- In the newer widget, keys handled by Textual's `TextArea` itself are left out: cursor movement on the arrow and page keys without a completer, and the keys that only hide the list. The model leaves the document unchanged for them.
- Rendering, scrolling, the cursor blink, the undo timer, mouse handling, double and triple clicks, themes and CSS are left out: they are presentation and timing. Undo snapshots are taken where the model calls `CreateUndoSnapshot`, not on a timer.
- The comment marker comes from a table of languages (`INLINE_MARKERS`), which is not part of this model. It is a parameter, and the empty string stands for no marker.
- `MEMBER_PROG` is left out: it is a case-insensitive regular expression over quoted identifiers. The length of the member-mode prefix it matches at the end of the search string is the parameter `memberLen`.
- Python's Unicode `\w` and `str.isspace` are modelled on ASCII, and `'\n'` is the only line break of the editors' text. The exception is `str.splitlines`, whose breaks the serialiser models in full.
- The completers are functions passed in, and the path completer's globbing of the file system is left out. The threaded workers that call them are modelled as returning at once, in order.
- Resolving and stat-ing a path is left out: the path validator takes what that found as a `PathStatus`, including an error other than FileNotFoundError, which it lets propagate.
- Opening and saving files, tree-sitter queries and the colour themes are left out: they are I/O or rendering.
- Prompt widths in the completion list are string lengths rather than terminal cell widths.
- Keys are a datatype of the keys the handlers tell apart, not Textual's key names. A printable key carries its character.
- The editor's find search and go-to-line jump are not in the text_editor.py modelled here. Only the inputs' own logic is modelled.
- TextInputWidget.TextInput.GetSelectedLines, ReindentLines, ShiftWithLine, BreakLines, ToggleSelectedLines and CopySelection are static methods over the lines passed in. The widget's methods call them and then assign the fields.
- EditingRules.Enter: its own contract states only that the document stays valid. What Enter does is stated by the lemmas EnterPlain, EnterBetweenPair, EnterAfterBracket and EnterSplit for a cursor, and by EnterSelectionPlain, EnterSelectionBetweenPair and EnterSelectionAfterBracket for a selection.
- EditingRules.IndentSelection: its own contract states only validity and the line count. The new lines are stated by IndentSelectionLines, IndentSelectionInside and IndentSelectionOutside. The new endpoints are stated by IndentSelectionStart, IndentSelectionEnd, IndentSelectionColumnZero and the two KeepsCharacter lemmas.
- EditingRules.WrapSelection: its own contract states only that the document stays valid. What wrapping does is stated by WrapOpenerInLine and WrapSelectionInLine for a selection on one line, and by WrapSelectionAcrossLines and WrapSelectionAcrossLinesCoversText for one across lines.
- EditingRules.QuoteOrBracket: its own contract states only that the document stays valid. Its branches are stated by ClosedCharacterEffect for a cursor, QuoteOrBracketClosingReplaces for a closing bracket over a selection, and the WrapSelection lemmas otherwise.
- TextInputRules.DedentCanLeaveNegativeColumn: the model follows the widget and lets a dedent leave the cursor at a negative column. It does not claim that later keys handle that column well.

## Findings

| source | as written | input that shows it | evidently intended | confidence | as-written member | corrected member |
|---|---|---|---|---|---|---|
| src/textual_textarea/text_editor.py:428-436 | uncommenting removes 2 characters when whitespace follows the marker, else 1, whatever the marker's length | marker `--`, line `foo bar baz`: commenting gives `-- foo bar baz`, and uncommenting removes 2 characters, leaving ` foo bar baz` | remove the whole marker, plus one whitespace character when one follows it, so that toggling twice restores the line | not executed | CommentToggle.TwoCharMarkerRoundTripFails | CommentToggle.ToggleCommentRoundTrip |
| src/textual_textarea/text_editor.py:432 | a line that is exactly the marker counts as commented, and the width is read from the character just after the marker | the line `#` with marker `#`: `line[1]` is past the end and raises IndexError | such a line uncomments to the empty line | not executed | CommentToggle.LoneMarkerOutOfRange | CommentToggle.UncommentWidth |

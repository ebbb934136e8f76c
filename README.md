# steve editor core in Dafny

A verified model of the text-buffer core of the `steve` editor. It covers:

- the character buffer in `src/editor.rs`: `Buffer::new`, `insert` and `flatten`;
- the editor state around that buffer: the edit mode and its display name, the active buffer, the registry of background buffers (sorted by id after each `create_empty_buffer` and before each lookup in `change_buffer`, but not after a successful switch), the id counter, and the status line;
- the buffer of styled entries in `src/editor/buffer.rs`: `insert_at_cursor` (newline, backspace, tab and ordinary characters), `insert_line_above`, `insert_line_below`, `delete_at_cursor` and the accessors;
- the key values in `src/editor/keymaps.rs`;
- the run segmentation in `src/editor/graphics.rs`, which cuts the buffer into styled runs at each font marker.

Layout:

- `textlines.dfy` (module `TextLines`) holds what both buffers share. A `Snapshot<T>` is the lines plus a `(line, column)` cursor, with the line 1-based and the column 0-based. `WellFormed` is the invariant: at least one line, the line in range, the column at most the line's length. The module also has the three edits (`InsertInLine`, `BreakLine`, `DeleteBack`), `Flatten`, and the cursor's `Offset` in the flattened text.
- `editor.dfy` (module `Editor`) is `src/editor.rs`. `Buffer` and `EditorState` are classes whose methods update their fields in place. The `Buffer` methods, `EditorState.SwapActive` and `EditorState.Update` are proved against a function of the old state. `CreateEmptyBuffer`, `ChangeBuffer` and `SortRegistry` are proved against relations to the old state: the registry's multiset of buffers and ids, membership, and sortedness by id.
- `buffer.dfy` (module `EditorBuffer`) is `src/editor/buffer.rs`, with `Buffer` as a class.
- `keymaps.dfy` (module `Keymaps`) is `src/editor/keymaps.rs`, on plain values.
- `graphics.dfy` (module `Graphics`) is `src/editor/graphics.rs`. The loop of `get_section_text` is a method proved equal to the function `Runs`.
- `fonts.dfy` has the `Font` enumeration. `wrappers.dfy` has `Option` and `Result`.

A panic in the source becomes a precondition. These panics are the two `usize` underflows of backspace, an out-of-range `Vec::insert` or `remove`, the `u32` overflow of the id counter, and the two theme `unwrap`s of `get_section_text` (`src/editor/graphics.rs:40` and `:49`), which become the `ThemeCovers` precondition of `Graphics.Runs` and `Graphics.GetSectionText`. One exception is `Buffer::insert` in `src/editor.rs`, which takes a whole string: there `InsertText` returns `None` when some character of the string would panic, and the method requires `Some`.

Behaviour the model takes from the code, where a reader might expect otherwise:

- A newline is stored in the text. Typing `"ab\ncd"` into a new buffer gives the lines `["ab\n", "cd"]`, not `["ab", "cd"]`: `Editor.TypingTwoLines` proves it. Backspace on an empty line below another relies on this: it removes the empty line and pops the stored `'\n'` of the line above (`Editor.BackspaceJoinsLines`). At the start of a non-empty line, backspace underflows the column instead, which the model excludes by precondition.
- A tab appends three spaces to the end of the current line, wherever the cursor is, and moves the column right by three (`EditorBuffer.TabFlatten`). This is modelled as written.
- A new editor starts in `Insert` mode, with an empty registry and `next_id == 1`.
- Neither buffer struct carries a theme or chains. `EditorState` in `src/editor.rs` has no `theme` field, and its active buffer is the `src/editor.rs` `Buffer`. Yet `graphics.rs` reads `self.theme` and calls `get_lines` of the `src/editor/buffer.rs` `Buffer`. So `Graphics` takes the theme (a map from `Font` to a style) and a `src/editor/buffer.rs` buffer as parameters.

## Model

| member | source | states |
|---|---|---|
| TextLines.InsertInLine | src/editor.rs:54-57 | inserting an ordinary character at the cursor keeps the buffer well formed |
| TextLines.InsertInLineLines | src/editor.rs:54-57 | the character goes in at the cursor column of the current line; that line grows by one, the column grows by one, the line count and every other line are unchanged |
| TextLines.FlattenInsertInLine | src/editor.rs:54-57 | the flattened text is the old one with the character inserted at the cursor's offset, and the offset moves past it |
| TextLines.BreakLine | src/editor.rs:29-37 | a newline keeps the buffer well formed |
| TextLines.BreakLineLines | src/editor.rs:29-37 | a newline adds one line; the two new lines rejoin to the old line with the marker inserted at the column; the first ends with the marker; the lines around are untouched; the cursor becomes (line+1, 0) |
| TextLines.FlattenBreakLine | src/editor.rs:29-37 | the flattened text is the old one with the marker inserted at the cursor's offset, and the offset moves past it |
| TextLines.FlattenSplitLine | src/editor.rs:33-34 | splitting a line in two (split_off and insert) leaves the flattened text as it was |
| TextLines.DeleteBack | src/editor.rs:39-52 | backspace keeps the buffer well formed whenever it does not underflow |
| TextLines.DeleteBackLines | src/editor.rs:39-52 | the three backspace cases: an empty only line is left alone; an empty later line is removed, the line above loses its last element and the column goes to its new end; otherwise the element before the column goes and the column drops by one; at least one line always remains |
| TextLines.DeleteBackJoin | src/editor.rs:40-44 | removing an empty line: one line fewer, the lines before are unchanged, the line above is popped, the lines after move up, and the cursor is at the end of the popped line |
| TextLines.FlattenRemoveBeforeCursor | src/editor.rs:48-51 | removing the element before the column removes exactly that element from the flattened text, and the offset drops by one |
| TextLines.FlattenJoinEmptyLine | src/editor.rs:40-44 | removing an empty line and popping the line above removes at most the element before the cursor from the flattened text, and exactly it when the line above is not empty |
| TextLines.FlattenDeleteBack | src/editor.rs:39-52 | backspace removes at most the one element before the cursor from the flattened text, exactly that one unless nothing precedes it on the lines involved, and the cursor ends where the deletion began |
| TextLines.Offset | src/editor.rs:63-68 | a helper with no counterpart in the source: the cursor's position in the text `flatten` returns, which lies within it |
| TextLines.FlattenAppend | src/editor.rs:63-68 | flattening distributes over concatenation of line lists |
| TextLines.FlattenAround | src/editor.rs:63-68 | the flattened text is the lines before line i, line i, and the lines after it |
| Editor.InsertChar | src/editor.rs:28-58 | one character of `insert` keeps the buffer well formed when it does not underflow |
| Editor.InsertText | src/editor.rs:22-61 | a string that can be inserted whole leaves a well-formed buffer |
| Editor.InsertTextPrefix | src/editor.rs:27-58 | a string that can be inserted whole can be inserted up to any point |
| Editor.InsertTextNext | src/editor.rs:27-58 | each loop step applies one character to the result of the prefix before it, and that character does not underflow |
| Editor.InsertTextSnoc | src/editor.rs:27-58 | inserting one more character continues from where the string left off |
| Editor.InsertCharFlatten | src/editor.rs:28-57 | a character other than backspace is inserted into the flattened text at the cursor ('\r' as '\n'), and the cursor moves past it |
| Editor.TypingStep | src/editor.rs:27-58 | with the cursor at the very end, no character underflows, the cursor stays at the end, and the flattened text gains the character (or loses its last one on backspace) |
| Editor.TypingBackspace | src/editor.rs:39-52 | backspace at the very end removes the last character of the flattened text, if any, and keeps the cursor at the end |
| Editor.TypingBackspaceJoin | src/editor.rs:40-44 | backspace on an empty last line removes it and the '\n' above, and keeps the cursor at the end |
| Editor.TypingBackspaceInLine | src/editor.rs:48-51 | backspace after the last character of the last line removes it and keeps the cursor at the end |
| Editor.TypingCharacter | src/editor.rs:28-57 | a character typed at the very end is appended to the flattened text and the cursor stays at the end |
| Editor.TypingNewline | src/editor.rs:29-37 | a newline at the end leaves the old last line ending in '\n' and the cursor at the start of a new empty last line |
| Editor.TypingOrdinary | src/editor.rs:54-57 | an ordinary character at the end is appended to the last line, and the cursor stays after it |
| Editor.TypingFromEmpty | src/editor.rs:12-61 | any string typed into a new buffer never underflows, and the flattened text is what the user sees (carriage returns as '\n', backspace removing the last character) |
| Editor.TypedPlainText | src/editor.rs:54-57 | without backspace or carriage return, what the user sees is exactly what was typed |
| Editor.FlattenAfterTyping | src/editor.rs:12-68 | inserting a string with no backspace and no carriage return into a new buffer and flattening it gives back that string |
| Editor.TypingFirstLine | src/editor.rs:29-37 | typing "ab\n" into a new buffer gives the lines "ab\n" and "", with the cursor at (2, 0) |
| Editor.TypingTwoLines | src/editor.rs:29-57 | typing "ab\ncd" into a new buffer gives the lines "ab\n" and "cd", with the cursor at (2, 2) |
| Editor.BackspaceJoinsLines | src/editor.rs:40-44 | typing "ab\n" and then a backspace gives back the single line "ab", with the cursor at (1, 2) |
| Editor.Buffer.constructor | src/editor.rs:12-19 | a new buffer has one empty line, the cursor at (1, 0), no file path and id 0 |
| Editor.Buffer.Numbered | src/editor.rs:115-116 | a new buffer whose id is set to the counter's value |
| Editor.Buffer.Insert | src/editor.rs:22-61 | the loop leaves the lines and cursor that `InsertText` gives, and keeps the buffer well formed |
| Editor.Buffer.HandleChar | src/editor.rs:28-58 | one turn of the loop has the effect `InsertChar` gives on the lines and the local line and column indices |
| Editor.Buffer.Flatten | src/editor.rs:63-68 | the cursor's offset lies within the flattened text |
| Editor.ModeName | src/editor.rs:85-93 | each mode is displayed as a six-letter name |
| Editor.ModeNameInjective | src/editor.rs:85-93 | different modes are displayed differently |
| Editor.NatToString | src/editor.rs:151-155 | the decimal text of a number is digits only, has no leading zero, and denotes the number |
| Editor.NatToStringInjective | src/editor.rs:151-155 | different numbers have different decimal texts |
| Editor.BracketedInjective | src/editor.rs:151-155 | a bracketed text determines what is inside the brackets |
| Editor.SplitAtColon | src/editor.rs:151-155 | "line:col" with decimal line and column splits at the colon one way only |
| Editor.PositionInjective | src/editor.rs:151-155 | the "line:col" text determines the cursor |
| Editor.StatusLineInjective | src/editor.rs:151-155 | the status line determines the mode and the cursor it was made from |
| Editor.IdsOf | src/editor.rs:142-149 | the registry's ids, one per buffer and in order |
| Editor.BufferList | src/editor.rs:142-149 | `get_buffer_list` has one (id, file path) pair per registry buffer, in registry order |
| Editor.InsertById | src/editor.rs:120-121 | inserting a buffer into an id-sorted list after every buffer with a smaller or equal id keeps it sorted and adds exactly that buffer |
| Editor.SortById | src/editor.rs:121 | sorting by id yields a sorted permutation of the registry, with the same ids and the same members |
| Editor.IdsOfPermutation | src/editor.rs:121 | reordering buffers reorders their ids |
| Editor.FindById | src/editor.rs:129 | binary search on an id-sorted registry finds an index holding the id exactly when the id is present |
| Editor.PushAndSort | src/editor.rs:119-121 | push followed by sort adds exactly the new buffer and its id, and leaves the registry sorted |
| Editor.DistinctPermutation | src/editor.rs:121 | reordering distinct ids keeps them distinct |
| Editor.FreshIdKeepsDistinct | src/editor.rs:115-117 | adding the counter's value to ids below it keeps them distinct and below the advanced counter |
| Editor.ReorderKeepsIds | src/editor.rs:121 | a reordering of distinct ids below a bound is distinct and below it |
| Editor.PushedIdsValid | src/editor.rs:115-121 | adding the counter's value and reordering keeps the ids distinct and below the advanced counter |
| Editor.ReorderedRegistry | src/editor.rs:127 | sorting the registry keeps the editor's ids distinct and below the counter |
| Editor.SwapMultiset | src/editor.rs:136 | swapping an element out of a list for another only moves elements between the list and the outside |
| Editor.SwappedRegistry | src/editor.rs:136 | swapping the active buffer with a registry entry keeps the editor's ids distinct and below the counter |
| Editor.IdsMembership | src/editor.rs:127-129 | lists with the same ids contain the same ids |
| Editor.SortedRegistryValid | src/editor.rs:127 | sorting the registry keeps the editor's invariant and its ids |
| Editor.SwappedRegistryValid | src/editor.rs:136 | the swap keeps the editor's invariant and its ids |
| Editor.PushedRegistryValid | src/editor.rs:115-121 | adding a new buffer numbered with the counter keeps the invariant once the counter advances |
| Editor.EditorState.constructor | src/editor.rs:104-112 | a new editor is in Insert mode, with an empty registry, the counter at 1, an empty status line and a new empty active buffer with id 0 |
| Editor.EditorState.CreateEmptyBuffer | src/editor.rs:114-124 | returns the counter's old value, advances the counter, adds exactly one new empty buffer with that id, keeps the registry sorted and the invariant |
| Editor.EditorState.FirstIds | src/editor.rs:104-124 | three buffers created on a new editor get the ids 1, 2 and 3 |
| Editor.EditorState.ChangeBuffer | src/editor.rs:126-140 | fails with "buffer with id N does not exist." exactly when the id is not in the registry, leaving the active buffer; otherwise the buffer with that id becomes active and the old active buffer takes its place; in both cases the multiset of all ids is kept; on success the registry is the sorted one with the found slot now holding the old active buffer, which fixes the order `get_buffer_list` returns |
| Editor.EditorState.SortRegistry | src/editor.rs:127 | the registry is sorted by id and keeps its members and ids |
| Editor.EditorState.SwapActive | src/editor.rs:136 | the active buffer and registry entry i trade places, the invariant and all ids are kept |
| Editor.EditorState.Update | src/editor.rs:151-155 | the status line is "[MODE] [line:col]" for the mode and the active buffer's cursor |
| EditorBuffer.Buffer.constructor | src/editor/buffer.rs:49-54 | a new buffer has one empty line and the cursor at (1, 0); the id argument is ignored |
| EditorBuffer.InsertEntry | src/editor/buffer.rs:56-101 | every case of `insert_at_cursor` keeps the buffer well formed when backspace does not underflow |
| EditorBuffer.InsertEntryFlatten | src/editor/buffer.rs:62-97 | a character other than backspace and tab inserts one entry at the cursor's place in the flattened text ('\r' as Text('\n')), and the cursor moves past it |
| EditorBuffer.Spaces | src/editor/buffer.rs:87-92 | n space entries |
| EditorBuffer.AppendTab | src/editor/buffer.rs:87-92 | a tab keeps the buffer well formed |
| EditorBuffer.TabLines | src/editor/buffer.rs:87-92 | a tab appends three spaces to the end of the current line, leaves the other lines alone and moves the column right by three |
| EditorBuffer.TabFlatten | src/editor/buffer.rs:87-92 | in the flattened text the three spaces go at the end of the current line, which is the cursor's place only when the cursor is at the end of its line |
| EditorBuffer.Buffer.InsertAtCursor | src/editor/buffer.rs:56-101 | the new lines and cursor are those `InsertEntry` gives, and the buffer stays well formed |
| EditorBuffer.Buffer.BreakAt | src/editor/buffer.rs:62-70 | the newline branch has the effect `BreakLine` gives |
| EditorBuffer.Buffer.DeleteBefore | src/editor/buffer.rs:72-85 | the backspace branch has the effect `DeleteBack` gives |
| EditorBuffer.Buffer.AppendSpaces | src/editor/buffer.rs:87-92 | the loop of three pushes has the effect `AppendTab` gives |
| EditorBuffer.InsertLineAboveAsWritten | src/editor/buffer.rs:103-106 | the line goes in at the cursor's line index and the column grows by one |
| EditorBuffer.InsertLineAboveAsWrittenWellFormed | src/editor/buffer.rs:103-106 | as written, the buffer stays well formed exactly when the inserted line is longer than the old column |
| EditorBuffer.InsertLineAboveAsWrittenCounterexample | src/editor/buffer.rs:103-106 | inserting an empty line above on a new buffer leaves the cursor out of range |
| EditorBuffer.LineAbove | src/editor/buffer.rs:103-106 | inserting a line above with the line number advanced keeps the buffer well formed |
| EditorBuffer.LineAboveKeepsCursor | src/editor/buffer.rs:103-106 | the new line sits before the current line, which is unchanged under the cursor, and the flattened text gains the line just before it |
| EditorBuffer.Buffer.InsertLineAbove | src/editor/buffer.rs:103-106 | the new state is `LineAbove` of the old one |
| EditorBuffer.LineBelow | src/editor/buffer.rs:107-109 | inserting a line below keeps the buffer well formed |
| EditorBuffer.LineBelowKeepsCursor | src/editor/buffer.rs:107-109 | the new line follows the current line, the cursor and its offset do not move, and the flattened text gains the line right after the current one |
| EditorBuffer.Buffer.InsertLineBelow | src/editor/buffer.rs:107-109 | the new state is `LineBelow` of the old one |
| EditorBuffer.DeleteForward | src/editor/buffer.rs:111-113 | removing the entry at the column keeps the buffer well formed |
| EditorBuffer.DeleteForwardFlatten | src/editor/buffer.rs:111-113 | the entry at the cursor leaves the flattened text, nothing else does, and the cursor's offset does not move |
| EditorBuffer.Buffer.DeleteAtCursor | src/editor/buffer.rs:111-113 | the new state is `DeleteForward` of the old one |
| EditorBuffer.Buffer.GetCurrentLine | src/editor/buffer.rs:115-117 | the cursor's column lies within the current line |
| EditorBuffer.Buffer.Clone | src/editor/buffer.rs:42-46 | a new buffer with the same lines and cursor |
| Keymaps.WithNone | src/editor/keymaps.rs:42-48 | no flag set |
| Keymaps.WithControl | src/editor/keymaps.rs:49-55 | only control set |
| Keymaps.WithAlt | src/editor/keymaps.rs:56-62 | only alt set |
| Keymaps.WithLogo | src/editor/keymaps.rs:63-69 | only logo set |
| Keymaps.DefaultModifiers | src/editor/keymaps.rs:72-76 | no flag set, as with_none |
| Keymaps.FlagCount | src/editor/keymaps.rs:35-39 | a helper with no counterpart in the source, counting the struct's three flags: at most three, and none exactly for with_none |
| Keymaps.SingleFlagConstructors | src/editor/keymaps.rs:49-69 | the values with exactly one flag are the three single-flag constructors, and those differ |
| Keymaps.ModifiersEq | src/editor/keymaps.rs:78-85 | equal flag by flag exactly when the values are equal |
| Keymaps.FromChar | src/editor/keymaps.rs:94-101 | the key with no modifier |
| Keymaps.KeyPressEq | src/editor/keymaps.rs:103-107 | same key and equal modifiers exactly when the values are equal |
| Keymaps.KeyPressEqEquivalence | src/editor/keymaps.rs:103-107 | key-press equality is reflexive, symmetric and transitive, as `Eq` requires |
| Keymaps.FromCharMatches | src/editor/keymaps.rs:94-107 | a key press equals the conversion of a character exactly when it has that key and no modifier |
| Graphics.Runs | src/editor/graphics.rs:38-59 | there is always at least one run |
| Graphics.RunStyles | src/editor/graphics.rs:40-55 | one run more than there are font markers; the first run is in the Normal style; run i+1 is in the style of the i-th marker |
| Graphics.RunTexts | src/editor/graphics.rs:47-59 | joining the run texts gives the characters of all lines in order, with nothing between lines |
| Graphics.RunsExtendLast | src/editor/graphics.rs:56-57 | characters after the latest font marker all go into the latest run; the other runs and the number of runs stay as they were |
| Graphics.NoMarkersOneRun | src/editor/graphics.rs:40-59 | without font markers the result is one Normal run holding all the text |
| Graphics.ThemeCoversPrefix | src/editor/graphics.rs:40-49 | a theme that covers the whole buffer covers every prefix of it |
| Graphics.GetSectionText | src/editor/graphics.rs:34-62 | the loop builds exactly `Runs` of the flattened entries, given a theme with Normal and every marker's font |
| Graphics.GetDisplayBuffer | src/editor/graphics.rs:16-32 | a new buffer with the active buffer's lines and cursor |

## Left out

- `src/main.rs` is not part of this model. This covers the window, the event loop, GPU surfaces, glyph layout and font loading.
- `src/editor/fonts.rs` is reduced to the `Font` enumeration. Colours and sizes are floating point, and the theme's style is a type parameter.
- The syntax highlighter is not modelled, because its methods have empty bodies.
- The `Keymap`/`leader` struct, the `Chain` map and `ChainLink` closures are not modelled. Nothing in the core dispatches through them.
- The `Hash` derives are not modelled.
- `get_current_line_mut` is not modelled. It hands out a mutable alias into the lines, which the value-level state does not capture.
- `get_cursor_pos` and `get_lines` are plain reads with no contract (`EditorBuffer.Buffer.GetCursorPos`, `EditorBuffer.Buffer.GetLines`).
- `BufferEntry`'s `From<char>` is the constructor `Text`.
- `file_path` is never filled in by the core, so it stays an opaque `Option<string>`.
- `OwnedText`'s colour, scale and font id are not modelled; a run is a style and its characters.
- Editor.EditorState.GetBufferList: has no contract of its own. Its row is `Editor.BufferList`, the function it returns.
- Editor.SortById: does not state that the sort is stable, which `sort_by_key` is. Only sortedness and the permutation are proved, and nothing in the core depends on the order of equal ids, because ids are distinct.
- Editor.EditorState.CreateEmptyBuffer: requires the counter to stay below the largest `u32`. The source would overflow there instead.
- Editor.Buffer.Insert, EditorBuffer.Buffer.InsertAtCursor: the two backspace underflows (`usize` going below zero) are preconditions rather than modelled panics. Indices are unbounded naturals.
- Editor.EditorState.Update: the decimal formatting of `format!` is modelled by `NatToString`, digit by digit.

## Findings

| source | as written | input that shows it | evidently intended | confidence | as-written member | corrected member |
|---|---|---|---|---|---|---|
| src/editor/buffer.rs:103-106 | `insert_line_above` increments `cursor_pos.1`, the column | `Buffer::new(0)`, then `insert_line_above(vec![])`: the cursor is at (1, 1) on an empty line, so a following `insert_at_cursor('a')` inserts out of range | increment `cursor_pos.0`, so that the cursor follows its line down one row, just as `insert_line_below` leaves it on its line | not executed | EditorBuffer.InsertLineAboveAsWrittenCounterexample | EditorBuffer.LineAboveKeepsCursor |

The class method `EditorBuffer.Buffer.InsertLineAbove` uses the corrected definition.

/**
 * The buffer of styled entries (src/editor/buffer.rs): lines of
 * `BufferEntry` values, each a text character or a font marker that styles
 * the text after it, edited at a (line, column) cursor.
 */
module EditorBuffer {
  import opened TextLines
  import Fonts

  /** One element of a line: a character, or a font marker. */
  datatype BufferEntry = Text(ch: char) | Font(font: Fonts.Font)

  type BufferState = Snapshot<BufferEntry>

  /** A new buffer: one empty line, cursor on line 1, column 0. */
  const EmptyBuffer: BufferState := Snapshot([[]], (1, 0))

  /** How many spaces a tab appends. */
  const TabWidth: nat := 3

  /** `n` space entries. */
  function Spaces(n: nat): (r: seq<BufferEntry>)
    ensures |r| == n && forall k :: 0 <= k < n ==> r[k] == Text(' ')
  {
    if n == 0 then [] else Spaces(n - 1) + [Text(' ')]
  }

  // ---------------------------------------------------------------------------
  // `insert_at_cursor`, as a function of the lines and cursor
  // ---------------------------------------------------------------------------

  /** Whether `insert_at_cursor(c)` stays clear of the backspace underflows. */
  predicate CanInsertEntry(s: BufferState, c: char)
    requires WellFormed(s)
  {
    c == Backspace ==> CanDeleteBack(s)
  }

  /** A tab: three spaces are appended to the END of the current line, wherever
      the cursor is, and the column moves right by three. */
  function AppendTab(s: BufferState): (r: BufferState)
    requires WellFormed(s)
    ensures WellFormed(r)
  {
    var li := s.cursor.0 - 1;
    Snapshot(s.lines[li := s.lines[li] + Spaces(TabWidth)], (s.cursor.0, s.cursor.1 + TabWidth))
  }

  /** The effect of `insert_at_cursor(c)`: `'\n'` and `'\r'` break the line
      after a stored `Text('\n')`, backspace deletes back, a tab appends three
      spaces, and any other character is inserted as `Text(c)` at the cursor. */
  function InsertEntry(s: BufferState, c: char): (r: BufferState)
    requires WellFormed(s) && CanInsertEntry(s, c)
    ensures WellFormed(r)
  {
    if c == '\n' || c == '\r' then BreakLine(s, Text('\n'))
    else if c == Backspace then DeleteBack(s)
    else if c == '\t' then AppendTab(s)
    else InsertInLine(s, Text(c))
  }

  /** Every character but backspace and tab inserts one entry into the
      flattened text at the cursor (`'\r'` is stored as `Text('\n')`) and moves
      the cursor past it. */
  lemma InsertEntryFlatten(s: BufferState, c: char)
    requires WellFormed(s) && c != Backspace && c != '\t'
    ensures var r := InsertEntry(s, c);
      && Flatten(r.lines) == InsertAt(Flatten(s.lines), Offset(s), Text(if c == '\r' then '\n' else c))
      && Offset(r) == Offset(s) + 1
  {
    if c == '\n' || c == '\r' {
      FlattenBreakLine(s, Text('\n'));
    } else {
      FlattenInsertInLine(s, Text(c));
    }
  }

  /** Where the current line ends in the flattened text. */
  function LineEnd(s: BufferState): (k: nat)
    requires WellFormed(s)
    ensures Offset(s) <= k <= |Flatten(s.lines)|
  {
    FlattenAround(s.lines, s.cursor.0 - 1);
    |Flatten(s.lines[..s.cursor.0 - 1])| + |CurrentLine(s)|
  }

  /** A tab changes only the current line, which gains three trailing
      spaces, and moves the column right by three. */
  lemma TabLines(s: BufferState)
    requires WellFormed(s)
    ensures var r := InsertEntry(s, '\t');
      && |r.lines| == |s.lines|
      && CurrentLine(r) == CurrentLine(s) + Spaces(TabWidth)
      && (forall k :: 0 <= k < |s.lines| && k != s.cursor.0 - 1 ==> r.lines[k] == s.lines[k])
      && r.cursor == (s.cursor.0, s.cursor.1 + TabWidth)
  {
  }

  /** In the flattened text a tab inserts three spaces at the end of the
      current line, and the cursor offset grows by three; only with the
      cursor at the end of its line are the spaces where the cursor was. */
  lemma TabFlatten(s: BufferState)
    requires WellFormed(s)
    ensures var r := InsertEntry(s, '\t'); var whole := Flatten(s.lines);
      && Flatten(r.lines) == whole[..LineEnd(s)] + Spaces(TabWidth) + whole[LineEnd(s)..]
      && Offset(r) == Offset(s) + TabWidth
      && (s.cursor.1 == |CurrentLine(s)| ==> LineEnd(s) == Offset(s))
  {
    var li := s.cursor.0 - 1;
    var r := InsertEntry(s, '\t');
    var before := Flatten(s.lines[..li]);
    var after := Flatten(s.lines[li + 1..]);
    var line := CurrentLine(s);
    FlattenAround(s.lines, li);
    FlattenReplaceLine(s.lines, li, line + Spaces(TabWidth));
    assert r.lines[..li] == s.lines[..li];
    var whole := before + line + after;
    assert whole[..LineEnd(s)] == before + line;
    assert whole[LineEnd(s)..] == after;
  }

  // ---------------------------------------------------------------------------
  // Whole-line edits and forward delete
  // ---------------------------------------------------------------------------

  /** `insert_line_above` as written: `line` goes in at the cursor's line
      index, pushing the current line down, and the COLUMN grows by one. */
  function InsertLineAboveAsWritten(s: BufferState, line: seq<BufferEntry>): (r: BufferState)
    requires WellFormed(s)
    ensures |r.lines| == |s.lines| + 1 && r.lines[s.cursor.0 - 1] == line
    ensures r.cursor == (s.cursor.0, s.cursor.1 + 1)
  {
    Snapshot(InsertAt(s.lines, s.cursor.0 - 1, line), (s.cursor.0, s.cursor.1 + 1))
  }

  /** The written version leaves the cursor on the inserted line, at a column
      one past where it was: the buffer stays well formed exactly when the
      inserted line is longer than the old column. */
  lemma InsertLineAboveAsWrittenWellFormed(s: BufferState, line: seq<BufferEntry>)
    requires WellFormed(s)
    ensures WellFormed(InsertLineAboveAsWritten(s, line)) <==> s.cursor.1 < |line|
  {
  }

  /** Inserting an empty line above the cursor of a new buffer leaves the
      cursor at column 1 of an empty line, where the next `insert_at_cursor`
      would insert out of range. */
  lemma InsertLineAboveAsWrittenCounterexample()
    ensures !WellFormed(InsertLineAboveAsWritten(EmptyBuffer, []))
  {
  }

  /** `insert_line_above` with the cursor following its line down: `line`
      goes in at the cursor's line index and the LINE number grows by one. */
  function LineAbove(s: BufferState, line: seq<BufferEntry>): (r: BufferState)
    requires WellFormed(s)
    ensures WellFormed(r)
  {
    Snapshot(InsertAt(s.lines, s.cursor.0 - 1, line), (s.cursor.0 + 1, s.cursor.1))
  }

  /** `insert_line_below`: `line` goes in right after the current line and the
      cursor does not move. */
  function LineBelow(s: BufferState, line: seq<BufferEntry>): (r: BufferState)
    requires WellFormed(s)
    ensures WellFormed(r)
  {
    Snapshot(InsertAt(s.lines, s.cursor.0, line), s.cursor)
  }

  /** `delete_at_cursor`: the entry AT the cursor column is removed; the cursor
      does not move. */
  function DeleteForward(s: BufferState): (r: BufferState)
    requires WellFormed(s) && s.cursor.1 < |CurrentLine(s)|
    ensures WellFormed(r)
  {
    var li := s.cursor.0 - 1;
    Snapshot(s.lines[li := RemoveAt(s.lines[li], s.cursor.1)], s.cursor)
  }

  /** A line inserted above keeps the cursor on the same entry: the current
      line is unchanged, the line before it is the new one, and the flattened
      text gains `line` just before the current line. */
  lemma LineAboveKeepsCursor(s: BufferState, line: seq<BufferEntry>)
    requires WellFormed(s)
    ensures var r := LineAbove(s, line); var li := s.cursor.0 - 1;
      && |r.lines| == |s.lines| + 1
      && r.lines[li] == line
      && CurrentLine(r) == CurrentLine(s)
      && Flatten(r.lines) == Flatten(s.lines[..li]) + line + Flatten(s.lines[li..])
      && Offset(r) == Offset(s) + |line|
  {
    var li := s.cursor.0 - 1;
    var r := LineAbove(s, line);
    assert r.lines == s.lines[..li] + [line] + s.lines[li..];
    FlattenAppend(s.lines[..li] + [line], s.lines[li..]);
    FlattenAppend(s.lines[..li], [line]);
    assert [line][1..] == [];
    assert r.lines[..li + 1] == s.lines[..li] + [line];
    FlattenPrefixStep(r.lines, li);
    assert r.lines[..li] == s.lines[..li];
  }

  /** A line inserted below leaves the current line and the cursor offset
      alone; the flattened text gains `line` right after the current line. */
  lemma LineBelowKeepsCursor(s: BufferState, line: seq<BufferEntry>)
    requires WellFormed(s)
    ensures var r := LineBelow(s, line); var i := s.cursor.0;
      && |r.lines| == |s.lines| + 1
      && r.lines[i] == line
      && CurrentLine(r) == CurrentLine(s)
      && Flatten(r.lines) == Flatten(s.lines[..i]) + line + Flatten(s.lines[i..])
      && Offset(r) == Offset(s)
  {
    var i := s.cursor.0;
    var r := LineBelow(s, line);
    assert r.lines == s.lines[..i] + [line] + s.lines[i..];
    FlattenAppend(s.lines[..i] + [line], s.lines[i..]);
    FlattenAppend(s.lines[..i], [line]);
    assert [line][1..] == [];
    assert r.lines[..i - 1] == s.lines[..i - 1];
  }

  /** Forward delete removes the entry at the cursor from the flattened text,
      leaves the cursor offset and every other line alone. */
  lemma DeleteForwardFlatten(s: BufferState)
    requires WellFormed(s) && s.cursor.1 < |CurrentLine(s)|
    ensures var r := DeleteForward(s); var whole := Flatten(s.lines);
      && Offset(r) == Offset(s) < |whole|
      && Flatten(r.lines) == whole[..Offset(s)] + whole[Offset(s) + 1..]
      && (forall k :: 0 <= k < |s.lines| && k != s.cursor.0 - 1 ==> r.lines[k] == s.lines[k])
  {
    var li := s.cursor.0 - 1;
    var line := CurrentLine(s);
    var r := DeleteForward(s);
    FlattenAround(s.lines, li);
    FlattenReplaceLine(s.lines, li, RemoveAt(line, s.cursor.1));
    RemoveAtMiddle(Flatten(s.lines[..li]), line, Flatten(s.lines[li + 1..]), s.cursor.1);
    assert r.lines[..li] == s.lines[..li];
  }

  // ---------------------------------------------------------------------------
  // The buffer object
  // ---------------------------------------------------------------------------

  class Buffer {
    var cursorPos: (nat, nat)
    var lines: seq<seq<BufferEntry>>

    function State(): BufferState
      reads this
    {
      Snapshot(lines, cursorPos)
    }

    ghost predicate Valid()
      reads this
    {
      WellFormed(State())
    }

    /** `Buffer::new(id)`: the id is not stored. */
    constructor (id: nat)
      ensures Valid() && State() == EmptyBuffer
    {
      lines := [[]];
      cursorPos := (1, 0);
    }

    /** `insert_at_cursor(c)`. */
    method InsertAtCursor(c: char)
      requires Valid() && CanInsertEntry(State(), c)
      modifies this
      ensures Valid() && State() == InsertEntry(old(State()), c)
    {
      var lineIndex: nat := cursorPos.0 - 1;
      var columnIndex: nat := cursorPos.1;
      if c == '\n' || c == '\r' {
        lineIndex, columnIndex := BreakAt(lineIndex, columnIndex);
      } else if c == Backspace {
        lineIndex, columnIndex := DeleteBefore(lineIndex, columnIndex);
      } else if c == '\t' {
        columnIndex := AppendSpaces(lineIndex, columnIndex);
      } else {
        lines := lines[lineIndex := InsertAt(lines[lineIndex], columnIndex, Text(c))];
        columnIndex := columnIndex + 1;
      }
      cursorPos := (lineIndex + 1, columnIndex);
    }

    /** The newline branch of `insert_at_cursor`: `Text('\n')` goes in at the
        column, the rest of the line is split off below, and the returned
        cursor starts the new line. */
    method BreakAt(lineIndex: nat, columnIndex: nat) returns (nextLine: nat, nextColumn: nat)
      requires WellFormed(Snapshot(lines, (lineIndex + 1, columnIndex)))
      modifies this`lines
      ensures Snapshot(lines, (nextLine + 1, nextColumn)) == BreakLine(old(Snapshot(lines, (lineIndex + 1, columnIndex))), Text('\n'))
    {
      ghost var before := lines;
      ghost var marked := InsertAt(lines[lineIndex], columnIndex, Text('\n'));
      lines := lines[lineIndex := InsertAt(lines[lineIndex], columnIndex, Text('\n'))];
      nextColumn := columnIndex + 1;
      var newline := lines[lineIndex][nextColumn..];
      lines := lines[lineIndex := lines[lineIndex][..nextColumn]];
      assert lines[..lineIndex + 1] == before[..lineIndex] + [marked[..nextColumn]];
      assert lines[lineIndex + 1..] == before[lineIndex + 1..];
      lines := InsertAt(lines, lineIndex + 1, newline);
      assert lines == before[..lineIndex] + [marked[..nextColumn], marked[nextColumn..]] + before[lineIndex + 1..];
      nextColumn := 0;
      nextLine := lineIndex + 1;
    }

    /** The backspace branch of `insert_at_cursor`. */
    method DeleteBefore(lineIndex: nat, columnIndex: nat) returns (nextLine: nat, nextColumn: nat)
      requires WellFormed(Snapshot(lines, (lineIndex + 1, columnIndex)))
      requires CanDeleteBack(Snapshot(lines, (lineIndex + 1, columnIndex)))
      modifies this`lines
      ensures Snapshot(lines, (nextLine + 1, nextColumn)) == DeleteBack(old(Snapshot(lines, (lineIndex + 1, columnIndex))))
    {
      nextLine, nextColumn := lineIndex, columnIndex;
      if lines[lineIndex] == [] && |lines| > 1 {
        lines := RemoveAt(lines, lineIndex);
        nextLine := lineIndex - 1;
        if lines[nextLine] != [] {
          lines := lines[nextLine := lines[nextLine][..|lines[nextLine]| - 1]];  // the trailing newline
        }
        nextColumn := |lines[nextLine]|;
      } else if lines[lineIndex] == [] {
        // the first line is empty: nothing to delete
      } else {
        lines := lines[lineIndex := RemoveAt(lines[lineIndex], columnIndex - 1)];
        nextColumn := columnIndex - 1;
      }
    }

    /** The tab branch of `insert_at_cursor`: three pushes of a space onto
        the end of the line, each moving the column right by one. */
    method AppendSpaces(lineIndex: nat, columnIndex: nat) returns (nextColumn: nat)
      requires WellFormed(Snapshot(lines, (lineIndex + 1, columnIndex)))
      modifies this`lines
      ensures Snapshot(lines, (lineIndex + 1, nextColumn)) == AppendTab(old(Snapshot(lines, (lineIndex + 1, columnIndex))))
    {
      nextColumn := columnIndex;
      assert old(lines)[lineIndex] + Spaces(0) == lines[lineIndex];
      assert lines == old(lines)[lineIndex := old(lines)[lineIndex] + Spaces(0)];
      for k := 0 to TabWidth
        invariant lines == old(lines)[lineIndex := old(lines)[lineIndex] + Spaces(k)]
        invariant nextColumn == columnIndex + k
      {
        assert Spaces(k + 1) == Spaces(k) + [Text(' ')];
        assert old(lines)[lineIndex] + Spaces(k + 1) == lines[lineIndex] + [Text(' ')];
        lines := lines[lineIndex := lines[lineIndex] + [Text(' ')]];
        nextColumn := nextColumn + 1;
      }
    }

    /** `insert_line_above(line)`, with the cursor following its line down. */
    method InsertLineAbove(line: seq<BufferEntry>)
      requires Valid()
      modifies this
      ensures Valid() && State() == LineAbove(old(State()), line)
    {
      lines := InsertAt(lines, cursorPos.0 - 1, line);
      cursorPos := (cursorPos.0 + 1, cursorPos.1);
    }

    /** `insert_line_below(line)`. */
    method InsertLineBelow(line: seq<BufferEntry>)
      requires Valid()
      modifies this`lines
      ensures Valid() && State() == LineBelow(old(State()), line)
    {
      lines := InsertAt(lines, cursorPos.0, line);
    }

    /** `delete_at_cursor()`: the column must name an entry of the current line. */
    method DeleteAtCursor()
      requires Valid() && cursorPos.1 < |lines[cursorPos.0 - 1]|
      modifies this`lines
      ensures Valid() && State() == DeleteForward(old(State()))
    {
      lines := lines[cursorPos.0 - 1 := RemoveAt(lines[cursorPos.0 - 1], cursorPos.1)];
    }

    /** `get_current_line`: the cursor's column lies within it. */
    function GetCurrentLine(): (line: seq<BufferEntry>)
      reads this
      requires Valid()
      ensures cursorPos.1 <= |line|
    {
      lines[cursorPos.0 - 1]
    }

    /** `get_cursor_pos`. */
    function GetCursorPos(): (nat, nat)
      reads this
    {
      cursorPos
    }

    /** `get_lines`. */
    function GetLines(): seq<seq<BufferEntry>>
      reads this
    {
      lines
    }

    /** The derived `Clone`: a new buffer with the same lines and cursor. */
    method Clone() returns (copy: Buffer)
      ensures fresh(copy) && copy.State() == State()
    {
      copy := new Buffer(0);
      copy.lines := lines;
      copy.cursorPos := cursorPos;
    }
  }
}

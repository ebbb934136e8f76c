/**
 * The editor's orchestration layer and its character buffer (src/editor.rs):
 * a `Buffer` of `char` lines edited through `Insert`, the edit mode, and the
 * `EditorState` that owns the active buffer and a registry of background
 * buffers.
 */
module Editor {
  import opened Wrappers
  import opened TextLines

  /** The largest `u32`: buffer ids and the id counter are `u32`s. */
  const U32Max: nat := 0xFFFF_FFFF

  type BufferState = Snapshot<char>

  /** A new buffer: one empty line, cursor on line 1, column 0. */
  const EmptyBuffer: BufferState := Snapshot([[]], (1, 0))

  // ---------------------------------------------------------------------------
  // One character of `Buffer::insert`
  // ---------------------------------------------------------------------------

  /** Whether handling `c` stays clear of the two `usize` underflows of the
      backspace branch. */
  predicate CanInsert(s: BufferState, c: char)
    requires WellFormed(s)
  {
    c == Backspace ==> CanDeleteBack(s)
  }

  /** The effect of one character of `Buffer::insert` on the lines and cursor:
      `'\n'` and `'\r'` break the line after a stored `'\n'`, backspace
      deletes back, and any other character is inserted at the cursor. */
  function InsertChar(s: BufferState, c: char): (r: BufferState)
    requires WellFormed(s) && CanInsert(s, c)
    ensures WellFormed(r)
  {
    if c == '\n' || c == '\r' then BreakLine(s, '\n')
    else if c == Backspace then DeleteBack(s)
    else InsertInLine(s, c)
  }

  /** `Buffer::insert(text)`: the characters handled one after another, or
      `None` when one of them would underflow. */
  function InsertText(s: BufferState, text: string): (r: Option<BufferState>)
    requires WellFormed(s)
    ensures r.Some? ==> WellFormed(r.value)
    decreases |text|
  {
    if text == [] then Some(s)
    else
      match InsertText(s, text[..|text| - 1])
      case None => None
      case Some(p) =>
        var c := text[|text| - 1];
        if CanInsert(p, c) then Some(InsertChar(p, c)) else None
  }

  /** Inserting one more character continues from where the text left off. */
  lemma InsertTextSnoc(s: BufferState, text: string, c: char)
    requires WellFormed(s)
    ensures InsertText(s, text + [c]) ==
      match InsertText(s, text)
      case None => None
      case Some(p) => if CanInsert(p, c) then Some(InsertChar(p, c)) else None
  {
    assert (text + [c])[..|text|] == text;
  }

  /** A text that can be inserted whole can be inserted up to any point. */
  lemma {:induction false} InsertTextPrefix(s: BufferState, text: string, i: nat)
    requires WellFormed(s) && InsertText(s, text).Some? && i <= |text|
    ensures InsertText(s, text[..i]).Some?
    decreases |text|
  {
    if i < |text| {
      var init := text[..|text| - 1];
      assert init[..i] == text[..i];
      InsertTextPrefix(s, init, i);
    } else {
      assert text[..i] == text;
    }
  }

  /** The step from one point of a text that can be inserted to the next. */
  lemma InsertTextNext(s: BufferState, text: string, i: nat)
    requires WellFormed(s) && InsertText(s, text).Some? && i < |text|
    ensures InsertText(s, text[..i]).Some?
    ensures CanInsert(InsertText(s, text[..i]).value, text[i])
    ensures InsertText(s, text[..i + 1]) == Some(InsertChar(InsertText(s, text[..i]).value, text[i]))
  {
    InsertTextPrefix(s, text, i + 1);
    assert text[..i + 1][..i] == text[..i];
  }

  // ---------------------------------------------------------------------------
  // What one character does to the flattened text
  // ---------------------------------------------------------------------------

  /** Every character but backspace inserts one character into the flattened
      text at the cursor (`'\r'` is stored as `'\n'`) and moves the cursor
      past it. */
  lemma InsertCharFlatten(s: BufferState, c: char)
    requires WellFormed(s) && c != Backspace
    ensures var r := InsertChar(s, c);
      && Flatten(r.lines) == InsertAt(Flatten(s.lines), Offset(s), if c == '\r' then '\n' else c)
      && Offset(r) == Offset(s) + 1
  {
    if c == '\n' || c == '\r' {
      FlattenBreakLine(s, '\n');
    } else {
      FlattenInsertInLine(s, c);
    }
  }

  // ---------------------------------------------------------------------------
  // Typing into a new buffer
  // ---------------------------------------------------------------------------

  /** The text a user sees after typing `typed` into an empty buffer with the
      cursor always at the end: `'\r'` becomes `'\n'`, and backspace drops the
      last character if there is one. */
  function Typed(typed: string): string
    decreases |typed|
  {
    if typed == [] then []
    else
      var shown := Typed(typed[..|typed| - 1]);
      var c := typed[|typed| - 1];
      if c == Backspace then (if shown == [] then [] else shown[..|shown| - 1])
      else shown + [if c == '\r' then '\n' else c]
  }

  /** The cursor is at the very end of the text: on the last line, after its
      last character. */
  predicate AtEnd(s: BufferState)
    requires WellFormed(s)
  {
    s.cursor.0 == |s.lines| && s.cursor.1 == |s.lines[|s.lines| - 1]|
  }

  /** Every line but the last ends with the `'\n'` that split it off. */
  predicate Terminated(s: BufferState)
  {
    forall k :: 0 <= k < |s.lines| - 1 ==> s.lines[k] != [] && s.lines[k][|s.lines[k]| - 1] == '\n'
  }

  lemma AtEndOffset(s: BufferState)
    requires WellFormed(s) && AtEnd(s)
    ensures Offset(s) == |Flatten(s.lines)|
  {
    FlattenPrefixStep(s.lines, |s.lines| - 1);
    assert s.lines[..|s.lines|] == s.lines;
  }

  /** With the cursor at the end, every character can be handled, the cursor
      stays at the end, and the flattened text changes as `Typed` says. */
  lemma TypingStep(s: BufferState, c: char)
    requires WellFormed(s) && AtEnd(s) && Terminated(s)
    ensures CanInsert(s, c)
    ensures AtEnd(InsertChar(s, c)) && Terminated(InsertChar(s, c))
    ensures var shown := Flatten(s.lines); var r := InsertChar(s, c);
      Flatten(r.lines) ==
        if c == Backspace then (if shown == [] then [] else shown[..|shown| - 1])
        else shown + [if c == '\r' then '\n' else c]
  {
    AtEndOffset(s);
    if c == Backspace {
      TypingBackspace(s);
    } else {
      TypingCharacter(s, c);
    }
  }

  lemma TypingBackspace(s: BufferState)
    requires WellFormed(s) && AtEnd(s) && Terminated(s)
    ensures CanDeleteBack(s)
    ensures AtEnd(DeleteBack(s)) && Terminated(DeleteBack(s))
    ensures var shown := Flatten(s.lines);
      Flatten(DeleteBack(s).lines) == if shown == [] then [] else shown[..|shown| - 1]
  {
    AtEndOffset(s);
    FlattenDeleteBack(s);
    if CurrentLine(s) == [] && |s.lines| > 1 {
      TypingBackspaceJoin(s);
    } else if CurrentLine(s) != [] {
      TypingBackspaceInLine(s);
    }
  }

  /** Backspace on the empty last line removes it, together with the `'\n'`
      ending the line above, and leaves the cursor at the new end. */
  lemma TypingBackspaceJoin(s: BufferState)
    requires WellFormed(s) && AtEnd(s) && Terminated(s) && CurrentLine(s) == [] && |s.lines| > 1
    ensures CanDeleteBack(s)
    ensures AtEnd(DeleteBack(s)) && Terminated(DeleteBack(s))
    ensures var n := |s.lines|; var above := s.lines[n - 2];
      above != [] && DeleteBack(s).lines == s.lines[..n - 2] + [above[..|above| - 1]]
  {
    var li := s.cursor.0 - 1;
    DeleteBackJoin(s);
    var r := DeleteBack(s);
    assert |r.lines| == li;
    assert RemoveAt(s.lines, li) == s.lines[..li];
    assert r.lines == s.lines[..li - 1] + [r.lines[li - 1]];
    forall k | 0 <= k < |r.lines| - 1
      ensures r.lines[k] != [] && r.lines[k][|r.lines[k]| - 1] == '\n'
    {
      assert r.lines[k] == r.lines[..li - 1][k] == s.lines[k];
    }
  }

  /** Backspace after the last character of the last line removes it. */
  lemma TypingBackspaceInLine(s: BufferState)
    requires WellFormed(s) && AtEnd(s) && Terminated(s) && CurrentLine(s) != []
    ensures CanDeleteBack(s)
    ensures AtEnd(DeleteBack(s)) && Terminated(DeleteBack(s))
    ensures var n := |s.lines|; var last := s.lines[n - 1];
      DeleteBack(s).lines == s.lines[n - 1 := last[..|last| - 1]]
  {
    var r := DeleteBack(s);
    var last := s.lines[|s.lines| - 1];
    assert RemoveAt(last, |last| - 1) == last[..|last| - 1];
    DeleteBackLines(s);
    forall k | 0 <= k < |r.lines| - 1
      ensures r.lines[k] != [] && r.lines[k][|r.lines[k]| - 1] == '\n'
    {
      assert r.lines[k] == s.lines[k];
    }
  }

  lemma TypingCharacter(s: BufferState, c: char)
    requires WellFormed(s) && AtEnd(s) && Terminated(s) && c != Backspace
    ensures AtEnd(InsertChar(s, c)) && Terminated(InsertChar(s, c))
    ensures Flatten(InsertChar(s, c).lines) == Flatten(s.lines) + [if c == '\r' then '\n' else c]
  {
    AtEndOffset(s);
    InsertCharFlatten(s, c);
    if c == '\n' || c == '\r' {
      TypingNewline(s);
    } else {
      TypingOrdinary(s, c);
    }
  }

  /** A line break at the end leaves the old last line ending in `'\n'` and
      the cursor at the start of a new, empty last line. */
  lemma TypingNewline(s: BufferState)
    requires WellFormed(s) && AtEnd(s) && Terminated(s)
    ensures AtEnd(BreakLine(s, '\n')) && Terminated(BreakLine(s, '\n'))
    ensures var n := |s.lines|;
      && BreakLine(s, '\n').lines == s.lines[n - 1 := s.lines[n - 1] + ['\n']] + [[]]
      && BreakLine(s, '\n').cursor == (n + 1, 0)
  {
    var r := BreakLine(s, '\n');
    var li := s.cursor.0 - 1;
    BreakLineLines(s, '\n');
    var marked := InsertAt(s.lines[li], s.cursor.1, '\n');
    assert marked == s.lines[li] + ['\n'];
    assert marked[..s.cursor.1 + 1] == marked && marked[s.cursor.1 + 1..] == [];
    assert s.lines[li + 1..] == [] && s.lines[..li] + [marked] == s.lines[li := marked];
    assert r.lines[li + 1] == [] && |r.lines| == li + 2;
    forall k | 0 <= k < |r.lines| - 1
      ensures r.lines[k] != [] && r.lines[k][|r.lines[k]| - 1] == '\n'
    {
      if k < li {
        assert r.lines[k] == r.lines[..li][k] == s.lines[k];
      }
    }
  }

  /** Any other character at the end is appended to the last line, and the
      cursor stays after it. */
  lemma TypingOrdinary(s: BufferState, c: char)
    requires WellFormed(s) && AtEnd(s) && Terminated(s)
    ensures AtEnd(InsertInLine(s, c)) && Terminated(InsertInLine(s, c))
    ensures var n := |s.lines|; InsertInLine(s, c).lines == s.lines[n - 1 := s.lines[n - 1] + [c]]
  {
    var r := InsertInLine(s, c);
    assert InsertAt(CurrentLine(s), s.cursor.1, c) == CurrentLine(s) + [c];
    InsertInLineLines(s, c);
    forall k | 0 <= k < |r.lines| - 1
      ensures r.lines[k] != [] && r.lines[k][|r.lines[k]| - 1] == '\n'
    {
      assert r.lines[k] == s.lines[k];
    }
  }

  /** A buffer that is only ever typed into from new (as the event loop in
      src/main.rs does) never reaches either backspace underflow, keeps its
      cursor at the end, and flattens to the typed text. */
  lemma {:induction false} TypingFromEmpty(typed: string)
    ensures InsertText(EmptyBuffer, typed).Some?
    ensures AtEnd(InsertText(EmptyBuffer, typed).value) && Terminated(InsertText(EmptyBuffer, typed).value)
    ensures Flatten(InsertText(EmptyBuffer, typed).value.lines) == Typed(typed)
    decreases |typed|
  {
    if typed == [] {
      assert Flatten(EmptyBuffer.lines) == [] by {
        assert EmptyBuffer.lines[1..] == [];
      }
    } else {
      var init := typed[..|typed| - 1];
      TypingFromEmpty(init);
      TypingStep(InsertText(EmptyBuffer, init).value, typed[|typed| - 1]);
    }
  }

  /** Typing a text without backspace or carriage return into a new buffer
      and flattening it gives back exactly that text. */
  lemma {:induction false} TypedPlainText(typed: string)
    requires forall k :: 0 <= k < |typed| ==> typed[k] != Backspace && typed[k] != '\r'
    ensures Typed(typed) == typed
    decreases |typed|
  {
    if typed != [] {
      TypedPlainText(typed[..|typed| - 1]);
      assert typed[..|typed| - 1] + [typed[|typed| - 1]] == typed;
    }
  }

  lemma FlattenAfterTyping(typed: string)
    requires forall k :: 0 <= k < |typed| ==> typed[k] != Backspace && typed[k] != '\r'
    ensures InsertText(EmptyBuffer, typed).Some?
    ensures Flatten(InsertText(EmptyBuffer, typed).value.lines) == typed
  {
    TypingFromEmpty(typed);
    TypedPlainText(typed);
  }

  /** Typing `"ab\n"` into a new buffer keeps the `'\n'` at the end of the
      first line and leaves the cursor at the start of an empty second line. */
  lemma TypingFirstLine()
    ensures InsertText(EmptyBuffer, "ab\n") == Some(Snapshot(["ab\n", ""], (2, 0)))
  {
    var s0, s1, s2 := EmptyBuffer, Snapshot(["a"], (1, 1)), Snapshot(["ab"], (1, 2));
    var s3 := Snapshot(["ab\n", ""], (2, 0));
    assert InsertText(s0, "a") == Some(s1) by {
      InsertTextSnoc(s0, "", 'a');
      assert "" + ['a'] == "a";
      assert InsertAt([], 0, 'a') == "a";
      assert EmptyBuffer.lines[0 := "a"] == ["a"];
      assert InsertChar(s0, 'a') == s1;
    }
    assert InsertText(s0, "ab") == Some(s2) by {
      InsertTextSnoc(s0, "a", 'b');
      assert "a" + ['b'] == "ab";
      assert InsertAt("a", 1, 'b') == "ab";
      assert InsertChar(s1, 'b') == s2;
    }
    InsertTextSnoc(s0, "ab", '\n');
    assert "ab" + ['\n'] == "ab\n";
    assert InsertAt("ab", 2, '\n') == "ab\n";
    assert "ab\n"[..3] == "ab\n" && "ab\n"[3..] == "";
    assert BreakLine(s2, '\n') == s3;
    assert InsertChar(s2, '\n') == s3;
  }

  /** Typing `"ab\ncd"` into a new buffer gives two lines, the first still
      ending in `'\n'`, with the cursor after `"cd"` on line 2. */
  lemma TypingTwoLines()
    ensures InsertText(EmptyBuffer, "ab\ncd") == Some(Snapshot(["ab\n", "cd"], (2, 2)))
  {
    var s0, s3 := EmptyBuffer, Snapshot(["ab\n", ""], (2, 0));
    var s4, s5 := Snapshot(["ab\n", "c"], (2, 1)), Snapshot(["ab\n", "cd"], (2, 2));
    TypingFirstLine();
    assert InsertText(s0, "ab\nc") == Some(s4) by {
      InsertTextSnoc(s0, "ab\n", 'c');
      assert "ab\n" + ['c'] == "ab\nc";
      assert InsertAt("", 0, 'c') == "c";
      assert InsertChar(s3, 'c') == s4;
    }
    InsertTextSnoc(s0, "ab\nc", 'd');
    assert "ab\nc" + ['d'] == "ab\ncd";
    assert InsertAt("c", 1, 'd') == "cd";
    assert InsertChar(s4, 'd') == s5;
  }

  /** A backspace at the start of the empty second line removes that line and
      the `'\n'` ending the first, putting the cursor back after `"ab"`. */
  lemma BackspaceJoinsLines()
    ensures InsertText(EmptyBuffer, "ab\n" + [Backspace]) == Some(Snapshot(["ab"], (1, 2)))
  {
    var s3 := Snapshot(["ab\n", ""], (2, 0));
    TypingFirstLine();
    InsertTextSnoc(EmptyBuffer, "ab\n", Backspace);
    assert CanDeleteBack(s3);
    assert RemoveAt(s3.lines, 1) == ["ab\n"];
    assert "ab\n"[..2] == "ab";
    assert DeleteBack(s3) == Snapshot(["ab"], (1, 2));
  }

  // ---------------------------------------------------------------------------
  // The buffer object
  // ---------------------------------------------------------------------------

  class Buffer {
    /** The buffer's lines, each a sequence of characters. */
    var data: seq<seq<char>>
    var cursorPos: (nat, nat)
    var filePath: Option<string>
    /** Set once, when the editor numbers a new buffer; nothing changes it afterwards. */
    const id: nat

    function State(): BufferState
      reads this
    {
      Snapshot(data, cursorPos)
    }

    ghost predicate Valid()
      reads this
    {
      WellFormed(State())
    }

    constructor ()
      ensures Valid() && State() == EmptyBuffer
      ensures filePath == None && id == 0
    {
      data := [[]];
      cursorPos := (1, 0);
      filePath := None;
      id := 0;
    }

    /** `Buffer::new()` followed by setting its id, as `create_empty_buffer` does. */
    constructor Numbered(id: nat)
      ensures Valid() && State() == EmptyBuffer
      ensures filePath == None && this.id == id
    {
      data := [[]];
      cursorPos := (1, 0);
      filePath := None;
      this.id := id;
    }

    /** Inserts `text` at the cursor, one character at a time. */
    method Insert(text: string)
      requires Valid() && InsertText(State(), text).Some?
      modifies this
      ensures Valid() && State() == InsertText(old(State()), text).value
      ensures filePath == old(filePath)
    {
      var lineIndex: nat := cursorPos.0 - 1;
      var columnIndex: nat := cursorPos.1;
      assert text[..0] == [];
      for i := 0 to |text|
        invariant InsertText(old(State()), text[..i]) == Some(Snapshot(data, (lineIndex + 1, columnIndex)))
        invariant filePath == old(filePath)
      {
        InsertTextNext(old(State()), text, i);
        lineIndex, columnIndex := HandleChar(text[i], lineIndex, columnIndex);
      }
      assert text[..|text|] == text;
      cursorPos := (lineIndex + 1, columnIndex);
    }

    /** One turn of the loop in `Insert`: handles `t` at line index
        `lineIndex` and column `columnIndex` and returns the moved cursor. */
    method HandleChar(t: char, lineIndex: nat, columnIndex: nat) returns (nextLine: nat, nextColumn: nat)
      requires WellFormed(Snapshot(data, (lineIndex + 1, columnIndex)))
      requires CanInsert(Snapshot(data, (lineIndex + 1, columnIndex)), t)
      modifies this`data
      ensures Snapshot(data, (nextLine + 1, nextColumn)) == InsertChar(old(Snapshot(data, (lineIndex + 1, columnIndex))), t)
    {
      ghost var before := Snapshot(data, (lineIndex + 1, columnIndex));
      nextLine, nextColumn := lineIndex, columnIndex;
      if t == '\n' || t == '\r' {
        ghost var marked := InsertAt(data[nextLine], nextColumn, '\n');
        data := data[nextLine := InsertAt(data[nextLine], nextColumn, '\n')];
        nextColumn := nextColumn + 1;
        var newline := data[nextLine][nextColumn..];
        data := data[nextLine := data[nextLine][..nextColumn]];
        assert data[..nextLine + 1] == before.lines[..nextLine] + [marked[..nextColumn]];
        assert data[nextLine + 1..] == before.lines[nextLine + 1..];
        data := InsertAt(data, nextLine + 1, newline);
        assert data == before.lines[..nextLine] + [marked[..nextColumn], marked[nextColumn..]] + before.lines[nextLine + 1..];
        nextColumn := 0;
        nextLine := nextLine + 1;
      } else if t == Backspace {
        if data[nextLine] == [] && |data| > 1 {
          data := RemoveAt(data, nextLine);
          nextLine := nextLine - 1;
          if data[nextLine] != [] {
            data := data[nextLine := data[nextLine][..|data[nextLine]| - 1]];  // the trailing newline
          }
          nextColumn := |data[nextLine]|;
        } else if data[nextLine] == [] {
          // the first line is empty: nothing to delete
        } else {
          data := data[nextLine := RemoveAt(data[nextLine], nextColumn - 1)];
          nextColumn := nextColumn - 1;
        }
      } else {
        data := data[nextLine := InsertAt(data[nextLine], nextColumn, t)];
        nextColumn := nextColumn + 1;
      }
    }

    /** All lines concatenated; the cursor lies within the result. */
    function Flatten(): (s: string)
      reads this
      ensures Valid() ==> Offset(State()) <= |s|
    {
      TextLines.Flatten(data)
    }
  }

  // ---------------------------------------------------------------------------
  // Edit mode and status line
  // ---------------------------------------------------------------------------

  datatype EditMode = Normal | Insert | Visual

  /** The `Display` text of a mode. */
  function ModeName(mode: EditMode): (name: string)
    ensures |name| == 6
  {
    match mode
    case Normal => "NORMAL"
    case Insert => "INSERT"
    case Visual => "VISUAL"
  }

  /** Different modes are displayed differently. */
  lemma ModeNameInjective(a: EditMode, b: EditMode)
    requires ModeName(a) == ModeName(b)
    ensures a == b
  {
  }

  predicate IsDigit(ch: char)
  {
    '0' <= ch <= '9'
  }

  predicate IsDecimal(s: string)
  {
    forall k :: 0 <= k < |s| ==> IsDigit(s[k])
  }

  function DigitChar(d: nat): (ch: char)
    requires d < 10
    ensures IsDigit(ch) && ch as int - '0' as int == d
  {
    (d + '0' as int) as char
  }

  /** The number a string of decimal digits denotes. */
  function DecimalValue(s: string): nat
    requires IsDecimal(s)
    decreases |s|
  {
    if s == [] then 0 else DecimalValue(s[..|s| - 1]) * 10 + (s[|s| - 1] as int - '0' as int)
  }

  /** The decimal text `format!` writes for an integer: digits only, no
      leading zero, and denoting exactly `n`. */
  function NatToString(n: nat): (s: string)
    ensures |s| >= 1 && IsDecimal(s)
    ensures |s| > 1 ==> s[0] != '0'
    ensures DecimalValue(s) == n
    decreases n
  {
    if n < 10 then [DigitChar(n)]
    else
      var s := NatToString(n / 10) + [DigitChar(n % 10)];
      assert s[..|s| - 1] == NatToString(n / 10);
      s
  }

  lemma NatToStringInjective(a: nat, b: nat)
    requires NatToString(a) == NatToString(b)
    ensures a == b
  {
  }

  function Bracketed(s: string): string
  {
    "[" + s + "]"
  }

  /** The cursor as `line:col`. */
  function Position(cursor: (nat, nat)): string
  {
    NatToString(cursor.0) + ":" + NatToString(cursor.1)
  }

  /** The status line `update` writes: `[MODE] [line:col]`. */
  function StatusLine(mode: EditMode, cursor: (nat, nat)): string
  {
    Bracketed(ModeName(mode)) + " " + Bracketed(Position(cursor))
  }

  lemma BracketedInjective(a: string, b: string)
    requires Bracketed(a) == Bracketed(b)
    ensures a == b
  {
    assert a == Bracketed(a)[1..|a| + 1];
  }

  /** Two digit strings each followed by `':'` can only be split one way. */
  lemma {:induction false} SplitAtColon(a: string, b: string, a': string, b': string)
    requires IsDecimal(a) && IsDecimal(a')
    requires a + [':'] + b == a' + [':'] + b'
    ensures a == a' && b == b'
  {
    var joined := a + [':'] + b;
    assert forall k :: 0 <= k < |a| ==> joined[k] != ':';
    assert forall k :: 0 <= k < |a'| ==> joined[k] != ':';
    assert joined[|a|] == ':' && joined[|a'|] == ':';
    assert a == joined[..|a|] == a';
    assert b == joined[|a| + 1..] == b';
  }

  lemma PositionInjective(c: (nat, nat), c': (nat, nat))
    requires Position(c) == Position(c')
    ensures c == c'
  {
    SplitAtColon(NatToString(c.0), NatToString(c.1), NatToString(c'.0), NatToString(c'.1));
    NatToStringInjective(c.0, c'.0);
    NatToStringInjective(c.1, c'.1);
  }

  /** The status line determines the mode and the cursor it was made from. */
  lemma StatusLineInjective(m: EditMode, c: (nat, nat), m': EditMode, c': (nat, nat))
    requires StatusLine(m, c) == StatusLine(m', c')
    ensures m == m' && c == c'
  {
    var line := StatusLine(m, c);
    assert Bracketed(ModeName(m)) == line[..8] == Bracketed(ModeName(m'));
    assert Bracketed(Position(c)) == line[9..] == Bracketed(Position(c'));
    BracketedInjective(ModeName(m), ModeName(m'));
    ModeNameInjective(m, m');
    BracketedInjective(Position(c), Position(c'));
    PositionInjective(c, c');
  }

  // ---------------------------------------------------------------------------
  // The registry of background buffers
  // ---------------------------------------------------------------------------

  /** The ids of `buffers`, in order. */
  function IdsOf(buffers: seq<Buffer>): (ids: seq<nat>)
    ensures |ids| == |buffers|
    ensures forall k :: 0 <= k < |buffers| ==> ids[k] == buffers[k].id
  {
    seq(|buffers|, k requires 0 <= k < |buffers| => buffers[k].id)
  }

  lemma IdsOfAppend(a: seq<Buffer>, b: seq<Buffer>)
    ensures IdsOf(a + b) == IdsOf(a) + IdsOf(b)
  {
  }

  /** `get_buffer_list`: each background buffer's id and file path, in registry order. */
  function BufferList(buffers: seq<Buffer>): (list: seq<(nat, Option<string>)>)
    reads buffers
    ensures |list| == |buffers|
    ensures forall k :: 0 <= k < |list| ==> list[k].0 == IdsOf(buffers)[k] && list[k].1 == buffers[k].filePath
  {
    if buffers == [] then [] else [(buffers[0].id, buffers[0].filePath)] + BufferList(buffers[1..])
  }

  predicate SortedById(buffers: seq<Buffer>)
  {
    forall i, j :: 0 <= i < j < |buffers| ==> buffers[i].id <= buffers[j].id
  }

  predicate Distinct(ids: seq<nat>)
  {
    forall i, j :: 0 <= i < j < |ids| ==> ids[i] != ids[j]
  }

  lemma {:induction false} DistinctCount(ids: seq<nat>, x: nat)
    requires Distinct(ids)
    ensures multiset(ids)[x] <= 1
    decreases |ids|
  {
    if ids != [] {
      var init := ids[..|ids| - 1];
      assert ids == init + [ids[|ids| - 1]];
      DistinctCount(init, x);
    }
  }

  /** Reordering distinct ids keeps them distinct. */
  lemma DistinctPermutation(ids: seq<nat>, ids': seq<nat>)
    requires multiset(ids) == multiset(ids') && Distinct(ids)
    ensures Distinct(ids')
  {
    forall i, j | 0 <= i < j < |ids'|
      ensures ids'[i] != ids'[j]
    {
      if ids'[i] == ids'[j] {
        var x := ids'[i];
        assert ids' == ids'[..i] + [x] + ids'[i + 1..j] + [x] + ids'[j + 1..];
        assert multiset(ids')[x] >= 2;
        DistinctCount(ids, x);
      }
    }
  }

  lemma InsertKeepsSorted(sorted: seq<Buffer>, k: nat, b: Buffer)
    requires SortedById(sorted) && k <= |sorted|
    requires forall j :: 0 <= j < k ==> sorted[j].id <= b.id
    requires k < |sorted| ==> b.id < sorted[k].id
    ensures SortedById(sorted[..k] + [b] + sorted[k..])
  {
  }

  lemma MultisetInsertAt<T>(s: seq<T>, k: nat, x: T)
    requires k <= |s|
    ensures multiset(s[..k] + [x] + s[k..]) == multiset(s) + multiset{x}
  {
    assert s == s[..k] + s[k..];
  }

  lemma IdsOfInsertAt(s: seq<Buffer>, k: nat, b: Buffer)
    requires k <= |s|
    ensures IdsOf(s[..k] + [b] + s[k..]) == IdsOf(s)[..k] + [b.id] + IdsOf(s)[k..]
  {
    var l := s[..k] + [b] + s[k..];
    var ids := IdsOf(s);
    var expected := ids[..k] + [b.id] + ids[k..];
    forall i | 0 <= i < |l|
      ensures IdsOf(l)[i] == expected[i]
    {
      if i < k {
        assert l[i] == s[i];
      } else if i > k {
        assert l[i] == s[i - 1];
      }
    }
  }

  lemma IdsOfCons(a: seq<Buffer>)
    requires |a| > 0
    ensures multiset(IdsOf(a)) == multiset{a[0].id} + multiset(IdsOf(a[1..]))
  {
    var ids := IdsOf(a);
    assert ids == [ids[0]] + ids[1..];
    assert ids[1..] == IdsOf(a[1..]);
  }

  lemma IdsOfInsertMultiset(s: seq<Buffer>, k: nat, b: Buffer)
    requires k <= |s|
    ensures multiset(IdsOf(s[..k] + [b] + s[k..])) == multiset(IdsOf(s)) + multiset{b.id}
  {
    IdsOfInsertAt(s, k, b);
    MultisetInsertAt(IdsOf(s), k, b.id);
  }

  /** Reordering buffers reorders their ids. */
  lemma {:induction false} IdsOfPermutation(a: seq<Buffer>, b: seq<Buffer>)
    requires multiset(a) == multiset(b)
    ensures multiset(IdsOf(a)) == multiset(IdsOf(b))
    decreases |a|
  {
    if a == [] {
      assert |b| == |multiset(b)| == 0;
      assert IdsOf(a) == [] == IdsOf(b);
    } else {
      var j := IndexIn(b, a[0]);
      var rest := b[..j] + b[j + 1..];
      RemoveFromBoth(a, b, j);
      IdsOfPermutation(a[1..], rest);
      IdsOfInsertMultiset(rest, j, a[0]);
      IdsOfCons(a);
      calc {
        multiset(IdsOf(a));
        multiset{a[0].id} + multiset(IdsOf(a[1..]));
        multiset(IdsOf(rest)) + multiset{a[0].id};
        multiset(IdsOf(rest[..j] + [a[0]] + rest[j..]));
        { assert b == rest[..j] + [a[0]] + rest[j..]; }
        multiset(IdsOf(b));
      }
    }
  }

  /** An index at which `x` occurs in `s`. */
  lemma IndexIn<T>(s: seq<T>, x: T) returns (j: nat)
    requires x in multiset(s)
    ensures j < |s| && s[j] == x
  {
    j :| 0 <= j < |s| && s[j] == x;
  }

  /** Taking the first element of `a` out of `b` at an index where it occurs
      leaves two reorderings of each other, and putting it back gives `b`. */
  lemma RemoveFromBoth<T>(a: seq<T>, b: seq<T>, j: nat)
    requires multiset(a) == multiset(b) && |a| > 0 && j < |b| && b[j] == a[0]
    ensures var rest := b[..j] + b[j + 1..];
      && multiset(a[1..]) == multiset(rest)
      && b == rest[..j] + [a[0]] + rest[j..]
  {
    var rest := b[..j] + b[j + 1..];
    assert b == rest[..j] + [a[0]] + rest[j..];
    MultisetInsertAt(rest, j, a[0]);
    assert multiset(b) == multiset(rest) + multiset{a[0]};
    assert a == [a[0]] + a[1..];
    assert multiset(a) == multiset{a[0]} + multiset(a[1..]);
    assert multiset(a[1..]) == multiset(a) - multiset{a[0]};
    assert multiset(rest) == multiset(b) - multiset{a[0]};
  }

  /** Inserts `b` into a registry sorted by id, after every buffer whose id is
      not larger (the position a stable sort gives it). */
  method InsertById(sorted: seq<Buffer>, b: Buffer) returns (r: seq<Buffer>)
    requires SortedById(sorted)
    ensures SortedById(r)
    ensures |r| == |sorted| + 1
    ensures multiset(r) == multiset(sorted) + multiset{b}
  {
    var k := 0;
    while k < |sorted| && sorted[k].id <= b.id
      invariant 0 <= k <= |sorted|
      invariant forall j :: 0 <= j < k ==> sorted[j].id <= b.id
    {
      k := k + 1;
    }
    InsertKeepsSorted(sorted, k, b);
    r := sorted[..k] + [b] + sorted[k..];
    MultisetInsertAt(sorted, k, b);
  }

  /** `sort_by_key(|buf| buf.id)`: the registry reordered by id. */
  method SortById(buffers: seq<Buffer>) returns (r: seq<Buffer>)
    ensures SortedById(r)
    ensures |r| == |buffers|
    ensures multiset(r) == multiset(buffers)
    ensures multiset(IdsOf(r)) == multiset(IdsOf(buffers))
    ensures forall x :: x in r <==> x in buffers
  {
    r := [];
    for i := 0 to |buffers|
      invariant SortedById(r)
      invariant |r| == i
      invariant multiset(r) == multiset(buffers[..i])
    {
      r := InsertById(r, buffers[i]);
      assert buffers[..i + 1] == buffers[..i] + [buffers[i]];
    }
    assert buffers[..|buffers|] == buffers;
    IdsOfPermutation(buffers, r);
    forall x
      ensures x in r <==> x in buffers
    {
      assert x in r <==> x in multiset(r);
      assert x in buffers <==> x in multiset(buffers);
    }
  }

  /** `binary_search_by_key(&id, |buf| buf.id)` on a registry sorted by id:
      the index of a buffer with that id, or `None` if there is none. */
  method FindById(buffers: seq<Buffer>, id: nat) returns (index: Option<nat>)
    requires SortedById(buffers)
    ensures index.Some? ==> index.value < |buffers| && buffers[index.value].id == id
    ensures index.None? <==> id !in IdsOf(buffers)
  {
    var lo, hi := 0, |buffers|;
    while lo < hi
      invariant 0 <= lo <= hi <= |buffers|
      invariant forall k :: 0 <= k < lo ==> buffers[k].id < id
      invariant forall k :: hi <= k < |buffers| ==> buffers[k].id > id
    {
      var mid := lo + (hi - lo) / 2;
      if buffers[mid].id < id {
        lo := mid + 1;
      } else if buffers[mid].id > id {
        hi := mid;
      } else {
        return Some(mid);
      }
    }
    return None;
  }

  /** Ids outside a list stay outside it once a fresh id is added, so the
      list stays duplicate-free and below the next counter value. */
  lemma FreshIdKeepsDistinct(ids: seq<nat>, last: nat, n: nat)
    requires Distinct(ids + [last])
    requires forall x :: x in ids + [last] ==> x < n
    ensures Distinct(ids + [n] + [last])
    ensures forall x :: x in ids + [n] + [last] ==> x < n + 1
  {
    var before := ids + [last];
    var after := ids + [n] + [last];
    forall x | x in after
      ensures x < n + 1
    {
      var k :| 0 <= k < |after| && after[k] == x;
      if k < |ids| {
        assert x == before[k];
        assert x in before;
      } else if k == |ids| + 1 {
        assert x == before[|ids|];
        assert x in before;
      }
    }
    forall i, j | 0 <= i < j < |after|
      ensures after[i] != after[j]
    {
      if j == |ids| {
        assert after[i] in before;
      } else if i == |ids| {
        assert after[j] in before;
      } else {
        var i' := if i < |ids| then i else i - 1;
        var j' := if j < |ids| then j else j - 1;
        assert after[i] == before[i'] && after[j] == before[j'];
      }
    }
  }

  /** A reordering of duplicate-free ids below a bound is duplicate-free and below it. */
  lemma ReorderKeepsIds(ids: seq<nat>, ids': seq<nat>, bound: nat)
    requires multiset(ids) == multiset(ids') && Distinct(ids)
    requires forall x :: x in ids ==> x < bound
    ensures Distinct(ids')
    ensures forall x :: x in ids' ==> x < bound
  {
    DistinctPermutation(ids, ids');
    forall x | x in ids'
      ensures x < bound
    {
      assert x in multiset(ids');
      assert x in multiset(ids);
      assert x in ids;
    }
  }

  lemma IdsMembership(a: seq<Buffer>, b: seq<Buffer>, id: nat)
    requires multiset(IdsOf(a)) == multiset(IdsOf(b))
    ensures id in IdsOf(a) <==> id in IdsOf(b)
  {
    assert id in IdsOf(a) <==> id in multiset(IdsOf(a));
    assert id in IdsOf(b) <==> id in multiset(IdsOf(b));
  }

  lemma IdsOfUpdate(s: seq<Buffer>, i: nat, b: Buffer)
    requires i < |s|
    ensures IdsOf(s[i := b]) == IdsOf(s)[i := b.id]
  {
  }

  /** Swapping the element at `i` out for `x` and keeping the old element
      beside the list only reorders it. */
  lemma SwapMultiset<T>(s: seq<T>, i: nat, x: T)
    requires i < |s|
    ensures multiset(s[i := x] + [s[i]]) == multiset(s + [x])
    ensures multiset(s[i := x]) == multiset(s) - multiset{s[i]} + multiset{x}
  {
    assert s == s[..i] + [s[i]] + s[i + 1..];
    assert s[i := x] == s[..i] + [x] + s[i + 1..];
  }

  /** `push` followed by `sort_by_key(|buf| buf.id)`. */
  method PushAndSort(buffers: seq<Buffer>, b: Buffer) returns (r: seq<Buffer>)
    ensures SortedById(r) && |r| == |buffers| + 1
    ensures multiset(r) == multiset(buffers) + multiset{b}
    ensures multiset(IdsOf(r)) == multiset(IdsOf(buffers)) + multiset{b.id}
    ensures forall x :: x in r <==> x in buffers || x == b
  {
    var pushed := buffers + [b];
    r := SortById(pushed);
    assert IdsOf([b]) == [b.id];
    IdsOfAppend(buffers, [b]);
  }

  /** Adding the counter's value to duplicate-free ids below it, and then
      reordering, leaves them duplicate-free and below the advanced counter. */
  lemma PushedIdsValid(ids: seq<nat>, active: nat, n: nat, ids': seq<nat>)
    requires Distinct(ids + [active]) && (forall x :: x in ids + [active] ==> x < n)
    requires multiset(ids') == multiset(ids) + multiset{n}
    ensures Distinct(ids' + [active]) && (forall x :: x in ids' + [active] ==> x < n + 1)
  {
    FreshIdKeepsDistinct(ids, active, n);
    assert multiset(ids' + [active]) == multiset(ids + [n] + [active]);
    ReorderKeepsIds(ids + [n] + [active], ids' + [active], n + 1);
  }

  /** Reordering the registry keeps the editor's ids duplicate-free and below the counter. */
  lemma ReorderedRegistry(ids: seq<nat>, ids': seq<nat>, active: nat, bound: nat)
    requires multiset(ids') == multiset(ids)
    requires Distinct(ids + [active]) && (forall x :: x in ids + [active] ==> x < bound)
    ensures multiset(ids' + [active]) == multiset(ids + [active])
    ensures Distinct(ids' + [active]) && (forall x :: x in ids' + [active] ==> x < bound)
  {
    ReorderKeepsIds(ids + [active], ids' + [active], bound);
  }

  /** Swapping the active buffer with the registry entry at `i` keeps the
      editor's ids duplicate-free and below the counter. */
  lemma SwappedRegistry(ids: seq<nat>, i: nat, active: nat, bound: nat, swapped: seq<nat>)
    requires i < |ids| && swapped == ids[i := active] + [ids[i]]
    requires Distinct(ids + [active]) && (forall x :: x in ids + [active] ==> x < bound)
    ensures multiset(swapped) == multiset(ids + [active])
    ensures Distinct(swapped) && (forall x :: x in swapped ==> x < bound)
  {
    SwapMultiset(ids, i, active);
    ReorderKeepsIds(ids + [active], swapped, bound);
  }

  /** The editor's invariant on its registry, active buffer and id counter:
      every buffer is well formed, no two buffers share an id, and every id
      is below the counter, which fits a `u32`. */
  ghost predicate RegistryValid(buffers: seq<Buffer>, active: Buffer, nextId: nat)
    reads buffers, active
  {
    && active.Valid()
    && (forall b :: b in buffers ==> b.Valid())
    && Distinct(IdsOf(buffers) + [active.id])
    && (forall x :: x in IdsOf(buffers) + [active.id] ==> x < nextId)
    && nextId <= U32Max
  }

  /** Sorting the registry keeps the invariant and the editor's ids. */
  lemma SortedRegistryValid(buffers: seq<Buffer>, sorted: seq<Buffer>, active: Buffer, nextId: nat)
    requires RegistryValid(buffers, active, nextId)
    requires multiset(IdsOf(sorted)) == multiset(IdsOf(buffers))
    requires forall b :: b in sorted <==> b in buffers
    ensures RegistryValid(sorted, active, nextId)
    ensures multiset(IdsOf(sorted) + [active.id]) == multiset(IdsOf(buffers) + [active.id])
  {
    ReorderedRegistry(IdsOf(buffers), IdsOf(sorted), active.id, nextId);
  }

  /** Swapping the active buffer with the registry entry at `i` keeps the
      invariant and the editor's ids. */
  lemma SwappedRegistryValid(sorted: seq<Buffer>, i: nat, active: Buffer, nextId: nat)
    requires i < |sorted| && RegistryValid(sorted, active, nextId)
    ensures RegistryValid(sorted[i := active], sorted[i], nextId)
    ensures multiset(IdsOf(sorted[i := active]) + [sorted[i].id]) == multiset(IdsOf(sorted) + [active.id])
  {
    IdsOfUpdate(sorted, i, active);
    SwappedRegistry(IdsOf(sorted), i, active.id, nextId, IdsOf(sorted[i := active]) + [sorted[i].id]);
    assert forall b :: b in sorted[i := active] ==> b in sorted || b == active;
  }

  /** Adding a well-formed buffer carrying the counter's value to the
      registry, and reordering it, keeps the invariant once the counter advances. */
  lemma PushedRegistryValid(buffers: seq<Buffer>, pushed: seq<Buffer>, active: Buffer, newBuffer: Buffer, nextId: nat)
    requires RegistryValid(buffers, active, nextId) && nextId < U32Max
    requires newBuffer.Valid() && newBuffer.id == nextId
    requires multiset(IdsOf(pushed)) == multiset(IdsOf(buffers)) + multiset{nextId}
    requires forall b :: b in pushed <==> b in buffers || b == newBuffer
    ensures RegistryValid(pushed, active, nextId + 1)
  {
    PushedIdsValid(IdsOf(buffers), active.id, nextId, IdsOf(pushed));
  }

  /** The message `change_buffer` reports for an unknown id. */
  function NotFoundMessage(id: nat): string
  {
    "buffer with id " + NatToString(id) + " does not exist."
  }

  // ---------------------------------------------------------------------------
  // The editor state
  // ---------------------------------------------------------------------------

  class EditorState {
    var activeBuffer: Buffer
    var mode: EditMode
    var statusLine: string
    var buffers: seq<Buffer>
    var nextId: nat

    /** Every buffer id the editor holds: the registry's, then the active buffer's. */
    function AllIds(): seq<nat>
      reads this, buffers, activeBuffer
    {
      IdsOf(buffers) + [activeBuffer.id]
    }

    /** Every buffer is well formed, no two buffers share an id, and every id
        is below the counter, which fits a `u32`. */
    ghost predicate Valid()
      reads this, buffers, activeBuffer
    {
      RegistryValid(buffers, activeBuffer, nextId)
    }

    constructor ()
      ensures Valid() && fresh(activeBuffer)
      ensures activeBuffer.State() == EmptyBuffer && activeBuffer.id == 0
      ensures mode == Insert && buffers == [] && nextId == 1 && statusLine == ""
    {
      activeBuffer := new Buffer();
      mode := Insert;
      buffers := [];
      nextId := 1;
      statusLine := "";
    }

    /** Creates a new empty buffer in the registry and returns its id. */
    method CreateEmptyBuffer() returns (newId: nat)
      requires Valid() && nextId < U32Max
      modifies this`buffers, this`nextId
      ensures Valid()
      ensures newId == old(nextId) && nextId == old(nextId) + 1
      ensures SortedById(buffers) && |buffers| == |old(buffers)| + 1
      ensures multiset(IdsOf(buffers)) == old(multiset(IdsOf(buffers))) + multiset{newId}
      ensures forall b :: b in old(buffers) ==> b in buffers
      ensures forall b :: b in buffers && b !in old(buffers) ==> fresh(b) && b.id == newId && b.State() == EmptyBuffer
    {
      var newBuffer := new Buffer.Numbered(nextId);
      var pushed := PushAndSort(buffers, newBuffer);
      PushedRegistryValid(buffers, pushed, activeBuffer, newBuffer, nextId);
      newId := nextId;
      buffers, nextId := pushed, nextId + 1;
    }

    /** Makes the registry buffer with id `bufferId` the active one, putting
        the active buffer in its place; reports an unknown id as an error. */
    method ChangeBuffer(bufferId: nat) returns (r: Result<(), string>)
      requires Valid()
      modifies this`buffers, this`activeBuffer
      ensures Valid()
      ensures multiset(AllIds()) == old(multiset(AllIds()))
      ensures |buffers| == |old(buffers)|
      ensures r.Failure? <==> bufferId !in old(IdsOf(buffers))
      ensures r.Failure? ==> r.error == NotFoundMessage(bufferId)
      ensures r.Failure? ==> activeBuffer == old(activeBuffer) && SortedById(buffers) && multiset(buffers) == multiset(old(buffers))
      ensures r.Success? ==> activeBuffer.id == bufferId && activeBuffer in old(buffers) && old(activeBuffer) in buffers
      ensures r.Success? ==> multiset(buffers) == multiset(old(buffers)) - multiset{activeBuffer} + multiset{old(activeBuffer)}
      ensures r.Success? ==> exists i :: 0 <= i < |buffers| && buffers[i] == old(activeBuffer) && SortedById(buffers[i := activeBuffer])
    {
      SortRegistry();
      var index := FindById(buffers, bufferId);
      match index
      case None =>
        IdsMembership(old(buffers), buffers, bufferId);
        r := Failure(NotFoundMessage(bufferId));
      case Some(i) =>
        IdsMembership(old(buffers), buffers, bufferId);
        assert buffers[i] in old(buffers);
        ghost var sorted := buffers;
        SwapActive(i);
        assert buffers[i] == old(activeBuffer);
        assert buffers[i := activeBuffer] == sorted;
        r := Success(());
    }

    /** `self.buffers.sort_by_key(|buf| buf.id)`. */
    method SortRegistry()
      requires Valid()
      modifies this`buffers
      ensures Valid() && SortedById(buffers)
      ensures multiset(AllIds()) == old(multiset(AllIds()))
      ensures multiset(buffers) == multiset(old(buffers)) && |buffers| == |old(buffers)|
      ensures multiset(IdsOf(buffers)) == multiset(old(IdsOf(buffers)))
      ensures forall b :: b in buffers <==> b in old(buffers)
    {
      var sorted := SortById(buffers);
      SortedRegistryValid(buffers, sorted, activeBuffer, nextId);
      buffers := sorted;
    }

    /** `std::mem::swap(&mut self.active_buffer, &mut self.buffers[i])`. */
    method SwapActive(i: nat)
      requires Valid() && i < |buffers|
      modifies this`buffers, this`activeBuffer
      ensures Valid()
      ensures multiset(AllIds()) == old(multiset(AllIds()))
      ensures activeBuffer == old(buffers[i]) && buffers == old(buffers[i := activeBuffer])
      ensures multiset(buffers) == multiset(old(buffers)) - multiset{activeBuffer} + multiset{old(activeBuffer)}
    {
      SwappedRegistryValid(buffers, i, activeBuffer, nextId);
      SwapMultiset(buffers, i, activeBuffer);
      activeBuffer, buffers := buffers[i], buffers[i := activeBuffer];
    }

    /** Three buffers created one after another on a new editor get the ids
        1, 2 and 3. */
    static method FirstIds() returns (a: nat, b: nat, c: nat)
      ensures a == 1 && b == 2 && c == 3
    {
      var editor := new EditorState();
      a := editor.CreateEmptyBuffer();
      b := editor.CreateEmptyBuffer();
      c := editor.CreateEmptyBuffer();
    }

    /** `get_buffer_list`. */
    function GetBufferList(): seq<(nat, Option<string>)>
      reads this, buffers
    {
      BufferList(buffers)
    }

    /** Recomputes the status line from the mode and the active buffer's cursor. */
    method Update()
      modifies this`statusLine
      ensures statusLine == StatusLine(mode, activeBuffer.cursorPos)
    {
      var (line, col) := activeBuffer.cursorPos;
      statusLine := "[" + ModeName(mode) + "] [" + NatToString(line) + ":" + NatToString(col) + "]";
    }
  }
}

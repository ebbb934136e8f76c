/**
 * Lines of text as sequences of elements, shared by the two buffer
 * variants of the editor (src/editor.rs stores `char`s, src/editor/buffer.rs
 * stores `BufferEntry`s), with the `Vec` operations they use on them and the
 * facts about the flattened text that the buffer lemmas are built from.
 */
module TextLines {

  /** Control-H, the character both buffers treat as backspace. */
  const Backspace: char := '\U{8}'

  /** A buffer's lines and cursor. `cursor.0` is the 1-based line number,
      `cursor.1` the 0-based column inside that line. */
  datatype Snapshot<T> = Snapshot(lines: seq<seq<T>>, cursor: (nat, nat))

  /** The buffer invariant: there is always a line, the cursor's line exists
      and its column is at most the length of that line. */
  predicate WellFormed<T>(s: Snapshot<T>)
  {
    && |s.lines| >= 1
    && 1 <= s.cursor.0 <= |s.lines|
    && s.cursor.1 <= |s.lines[s.cursor.0 - 1]|
  }

  /** The line the cursor is on. */
  function CurrentLine<T>(s: Snapshot<T>): (line: seq<T>)
    requires WellFormed(s)
    ensures s.cursor.1 <= |line|
  {
    s.lines[s.cursor.0 - 1]
  }

  /** `Vec::insert(i, x)`: `x` is placed at index `i`, later elements move up. */
  function InsertAt<T>(s: seq<T>, i: nat, x: T): (r: seq<T>)
    requires i <= |s|
    ensures |r| == |s| + 1 && r[i] == x
    ensures r[..i] == s[..i] && r[i + 1..] == s[i..]
  {
    s[..i] + [x] + s[i..]
  }

  /** `Vec::remove(i)`: the element at index `i` is dropped, later elements move down. */
  function RemoveAt<T>(s: seq<T>, i: nat): (r: seq<T>)
    requires i < |s|
    ensures |r| == |s| - 1
    ensures r[..i] == s[..i] && r[i..] == s[i + 1..]
  {
    s[..i] + s[i + 1..]
  }

  // ---------------------------------------------------------------------------
  // The cursor edits both buffers make
  // ---------------------------------------------------------------------------

  /** Puts `x` into the current line at the cursor column; the column moves past it. */
  function InsertInLine<T>(s: Snapshot<T>, x: T): (r: Snapshot<T>)
    requires WellFormed(s)
    ensures WellFormed(r)
  {
    var li := s.cursor.0 - 1;
    Snapshot(s.lines[li := InsertAt(s.lines[li], s.cursor.1, x)], (s.cursor.0, s.cursor.1 + 1))
  }

  /** Puts `marker` into the current line at the cursor column and splits the
      line right after it; the cursor moves to the start of the second half. */
  function BreakLine<T>(s: Snapshot<T>, marker: T): (r: Snapshot<T>)
    requires WellFormed(s)
    ensures WellFormed(r)
  {
    var li := s.cursor.0 - 1;
    var col := s.cursor.1;
    var marked := InsertAt(s.lines[li], col, marker);
    Snapshot(s.lines[..li] + [marked[..col + 1], marked[col + 1..]] + s.lines[li + 1..], (s.cursor.0 + 1, 0))
  }

  /** Whether backspace stays clear of its two `usize` underflows: removing an
      empty first line while more lines follow (the line index drops below 0),
      and deleting before column 0 of a non-empty line. */
  predicate CanDeleteBack<T>(s: Snapshot<T>)
    requires WellFormed(s)
  {
    if CurrentLine(s) == [] then (|s.lines| > 1 ==> s.cursor.0 >= 2) else s.cursor.1 >= 1
  }

  /** Backspace: an empty line (other than the only one) is removed and the
      last element of the line above, the newline that ended it, is popped; an
      empty only line stays; otherwise the element before the cursor goes. */
  function DeleteBack<T>(s: Snapshot<T>): (r: Snapshot<T>)
    requires WellFormed(s) && CanDeleteBack(s)
    ensures WellFormed(r)
  {
    var li := s.cursor.0 - 1;
    var col := s.cursor.1;
    var line := s.lines[li];
    if line == [] && |s.lines| > 1 then
      var remaining := RemoveAt(s.lines, li);
      var previous := remaining[li - 1];
      var popped := if previous == [] then [] else previous[..|previous| - 1];
      Snapshot(remaining[li - 1 := popped], (li, |popped|))
    else if line == [] then
      s
    else
      Snapshot(s.lines[li := RemoveAt(line, col - 1)], (s.cursor.0, col - 1))
  }

  /** An inserted element goes in at the cursor column of the current line:
      that line grows by one, the column moves past it and no other line changes. */
  lemma InsertInLineLines<T>(s: Snapshot<T>, x: T)
    requires WellFormed(s)
    ensures var r := InsertInLine(s, x);
      && |r.lines| == |s.lines|
      && r.lines[s.cursor.0 - 1] == InsertAt(CurrentLine(s), s.cursor.1, x)
      && |CurrentLine(r)| == |CurrentLine(s)| + 1
      && (forall k :: 0 <= k < |s.lines| && k != s.cursor.0 - 1 ==> r.lines[k] == s.lines[k])
      && r.cursor == (s.cursor.0, s.cursor.1 + 1)
  {
  }

  /** Breaking a line: the two new lines rejoin to the current line with the
      marker at the cursor, the first of them ends with the marker, the lines
      around them are untouched and the cursor starts the second one. */
  lemma BreakLineLines<T>(s: Snapshot<T>, marker: T)
    requires WellFormed(s)
    ensures var r := BreakLine(s, marker); var li := s.cursor.0 - 1;
      && |r.lines| == |s.lines| + 1
      && r.lines[li] + r.lines[li + 1] == InsertAt(CurrentLine(s), s.cursor.1, marker)
      && r.lines[li][|r.lines[li]| - 1] == marker
      && r.lines[..li] == s.lines[..li]
      && r.lines[li + 2..] == s.lines[li + 1..]
      && r.cursor == (s.cursor.0 + 1, 0)
  {
    var li := s.cursor.0 - 1;
    var col := s.cursor.1;
    var marked := InsertAt(CurrentLine(s), col, marker);
    var r := BreakLine(s, marker);
    assert r.lines == s.lines[..li] + [marked[..col + 1], marked[col + 1..]] + s.lines[li + 1..];
    assert marked[..col + 1] + marked[col + 1..] == marked;
    assert r.lines[li + 2..] == s.lines[li + 1..];
  }

  /** The three cases of backspace; the buffer keeps at least one line. */
  lemma DeleteBackLines<T>(s: Snapshot<T>)
    requires WellFormed(s) && CanDeleteBack(s)
    ensures var r := DeleteBack(s); var li := s.cursor.0 - 1; var line := CurrentLine(s);
      && |r.lines| >= 1
      && (line == [] && |s.lines| == 1 ==> r == s)
      && (line == [] && |s.lines| > 1 ==>
            var previous := s.lines[li - 1];
            && |r.lines| == |s.lines| - 1
            && r.lines[..li - 1] == s.lines[..li - 1]
            && r.lines[li - 1] == (if previous == [] then [] else previous[..|previous| - 1])
            && r.lines[li..] == s.lines[li + 1..]
            && r.cursor == (li, |r.lines[li - 1]|))
      && (line != [] ==>
            && |r.lines| == |s.lines|
            && r.lines[li] == RemoveAt(line, s.cursor.1 - 1)
            && (forall k :: 0 <= k < |s.lines| && k != li ==> r.lines[k] == s.lines[k])
            && r.cursor == (s.cursor.0, s.cursor.1 - 1))
  {
    if CurrentLine(s) == [] && |s.lines| > 1 {
      DeleteBackJoin(s);
    }
  }

  lemma DeleteBackJoin<T>(s: Snapshot<T>)
    requires WellFormed(s) && CurrentLine(s) == [] && |s.lines| > 1 && s.cursor.0 >= 2
    ensures var r := DeleteBack(s); var li := s.cursor.0 - 1; var previous := s.lines[li - 1];
      && |r.lines| == |s.lines| - 1
      && r.lines[..li - 1] == s.lines[..li - 1]
      && r.lines[li - 1] == (if previous == [] then [] else previous[..|previous| - 1])
      && r.lines[li..] == s.lines[li + 1..]
      && r.cursor == (li, |r.lines[li - 1]|)
  {
    var li := s.cursor.0 - 1;
    var remaining := RemoveAt(s.lines, li);
    assert remaining[..li - 1] == s.lines[..li - 1];
    assert remaining[li..] == s.lines[li + 1..];
  }

  /** All lines concatenated, with nothing added between them. */
  function Flatten<T>(lines: seq<seq<T>>): seq<T>
  {
    if lines == [] then [] else lines[0] + Flatten(lines[1..])
  }

  /** The cursor's position inside the flattened text. */
  function Offset<T>(s: Snapshot<T>): (k: nat)
    requires WellFormed(s)
    ensures k <= |Flatten(s.lines)|
  {
    FlattenAround(s.lines, s.cursor.0 - 1);
    |Flatten(s.lines[..s.cursor.0 - 1])| + s.cursor.1
  }

  lemma {:induction false} FlattenAppend<T>(a: seq<seq<T>>, b: seq<seq<T>>)
    ensures Flatten(a + b) == Flatten(a) + Flatten(b)
    decreases |a|
  {
    if a == [] {
      assert a + b == b;
    } else {
      assert (a + b)[1..] == a[1..] + b;
      FlattenAppend(a[1..], b);
    }
  }

  /** The flattened text is the lines before line `i`, line `i`, and the lines after it. */
  lemma {:induction false} FlattenAround<T>(lines: seq<seq<T>>, i: nat)
    requires i < |lines|
    ensures Flatten(lines) == Flatten(lines[..i]) + lines[i] + Flatten(lines[i + 1..])
    decreases i
  {
    if i == 0 {
      assert lines[..0] == [] && lines[1..] == lines[i + 1..];
    } else {
      var tail := lines[1..];
      FlattenAround(tail, i - 1);
      assert tail[..i - 1] == lines[..i][1..] && tail[i - 1] == lines[i] && tail[i..] == lines[i + 1..];
      assert lines[..i][0] == lines[0];
    }
  }

  /** Replacing line `i` by `line` changes the flattened text only in that line's place. */
  lemma FlattenReplaceLine<T>(lines: seq<seq<T>>, i: nat, line: seq<T>)
    requires i < |lines|
    ensures Flatten(lines[i := line]) == Flatten(lines[..i]) + line + Flatten(lines[i + 1..])
  {
    var updated := lines[i := line];
    FlattenAround(updated, i);
    assert updated[..i] == lines[..i] && updated[i + 1..] == lines[i + 1..];
  }

  /** Splitting line `i` into two lines at index `k` leaves the flattened text as it was. */
  lemma FlattenSplitLine<T>(lines: seq<seq<T>>, i: nat, k: nat)
    requires i < |lines| && k <= |lines[i]|
    ensures Flatten(lines[..i] + [lines[i][..k], lines[i][k..]] + lines[i + 1..]) == Flatten(lines)
  {
    var line := lines[i];
    var split := lines[..i] + [line[..k], line[k..]] + lines[i + 1..];
    FlattenAppend(lines[..i] + [line[..k], line[k..]], lines[i + 1..]);
    FlattenAppend(lines[..i], [line[..k], line[k..]]);
    assert Flatten([line[..k], line[k..]]) == line[..k] + line[k..] by {
      assert [line[..k], line[k..]][1..] == [line[k..]];
      assert Flatten([line[k..]]) == line[k..] by {
        assert [line[k..]][1..] == [];
      }
    }
    assert line[..k] + line[k..] == line;
    FlattenAround(lines, i);
  }

  /** Removing an empty line leaves the flattened text as it was. */
  lemma FlattenRemoveEmptyLine<T>(lines: seq<seq<T>>, i: nat)
    requires i < |lines| && lines[i] == []
    ensures Flatten(RemoveAt(lines, i)) == Flatten(lines)
  {
    FlattenAppend(lines[..i], lines[i + 1..]);
    FlattenAround(lines, i);
  }

  /** The flattened prefix grows by one line at a time. */
  lemma FlattenPrefixStep<T>(lines: seq<seq<T>>, i: nat)
    requires i < |lines|
    ensures Flatten(lines[..i + 1]) == Flatten(lines[..i]) + lines[i]
  {
    assert lines[..i + 1] == lines[..i] + [lines[i]];
    FlattenAppend(lines[..i], [lines[i]]);
    assert [lines[i]][1..] == [];
  }

  // ---------------------------------------------------------------------------
  // The cursor edits, seen on the flattened text
  // ---------------------------------------------------------------------------

  lemma InsertAtMiddle<T>(before: seq<T>, line: seq<T>, after: seq<T>, col: nat, x: T)
    requires col <= |line|
    ensures before + InsertAt(line, col, x) + after == InsertAt(before + line + after, |before| + col, x)
  {
    var whole := before + line + after;
    assert whole[..|before| + col] == before + line[..col];
    assert whole[|before| + col..] == line[col..] + after;
  }

  lemma RemoveAtMiddle<T>(before: seq<T>, line: seq<T>, after: seq<T>, col: nat)
    requires col < |line|
    ensures before + RemoveAt(line, col) + after
         == (before + line + after)[..|before| + col] + (before + line + after)[|before| + col + 1..]
  {
    var whole := before + line + after;
    assert whole[..|before| + col] == before + line[..col];
    assert whole[|before| + col + 1..] == line[col + 1..] + after;
  }

  /** Inserting `x` at the cursor column of the current line inserts it into
      the flattened text at the cursor, and the cursor moves past it. */
  lemma FlattenInsertInLine<T>(s: Snapshot<T>, x: T)
    requires WellFormed(s)
    ensures var r := InsertInLine(s, x);
      && Flatten(r.lines) == InsertAt(Flatten(s.lines), Offset(s), x)
      && Offset(r) == Offset(s) + 1
  {
    var li := s.cursor.0 - 1;
    var line := s.lines[li];
    var marked := InsertAt(line, s.cursor.1, x);
    var r := Snapshot(s.lines[li := marked], (s.cursor.0, s.cursor.1 + 1));
    FlattenAround(s.lines, li);
    FlattenReplaceLine(s.lines, li, marked);
    InsertAtMiddle(Flatten(s.lines[..li]), line, Flatten(s.lines[li + 1..]), s.cursor.1, x);
    assert r.lines[..li] == s.lines[..li];
  }

  /** Breaking the line at the cursor inserts the marker into the flattened
      text at the cursor; the cursor moves to the start of the second half,
      which is just past the marker. */
  lemma FlattenBreakLine<T>(s: Snapshot<T>, x: T)
    requires WellFormed(s)
    ensures var r := BreakLine(s, x);
      && Flatten(r.lines) == InsertAt(Flatten(s.lines), Offset(s), x)
      && Offset(r) == Offset(s) + 1
  {
    var li := s.cursor.0 - 1;
    var col := s.cursor.1;
    var marked := InsertAt(s.lines[li], col, x);
    var updated := s.lines[li := marked];
    var r := Snapshot(s.lines[..li] + [marked[..col + 1], marked[col + 1..]] + s.lines[li + 1..], (s.cursor.0 + 1, 0));
    FlattenInsertInLine(s, x);
    assert updated[..li] == s.lines[..li] && updated[li + 1..] == s.lines[li + 1..];
    FlattenSplitLine(updated, li, col + 1);
    assert r.lines[..li + 1] == s.lines[..li] + [marked[..col + 1]];
    FlattenPrefixStep(r.lines, li);
    assert r.lines[..li] == s.lines[..li];
    assert (r.lines[..li + 1])[..li] == s.lines[..li];
  }

  /** Removing the element just before the cursor removes it from the
      flattened text, and the cursor moves back over it. */
  lemma FlattenRemoveBeforeCursor<T>(s: Snapshot<T>)
    requires WellFormed(s) && s.cursor.1 >= 1
    ensures var li := s.cursor.0 - 1;
      var r := Snapshot(s.lines[li := RemoveAt(s.lines[li], s.cursor.1 - 1)], (s.cursor.0, s.cursor.1 - 1));
      && WellFormed(r)
      && Offset(r) + 1 == Offset(s)
      && Flatten(r.lines) == Flatten(s.lines)[..Offset(r)] + Flatten(s.lines)[Offset(s)..]
  {
    var li := s.cursor.0 - 1;
    var line := s.lines[li];
    var shortened := RemoveAt(line, s.cursor.1 - 1);
    var r := Snapshot(s.lines[li := shortened], (s.cursor.0, s.cursor.1 - 1));
    FlattenAround(s.lines, li);
    FlattenReplaceLine(s.lines, li, shortened);
    RemoveAtMiddle(Flatten(s.lines[..li]), line, Flatten(s.lines[li + 1..]), s.cursor.1 - 1);
    assert r.lines[..li] == s.lines[..li];
  }

  /** Backspace on an empty line below another removes that line and the
      last element of the line above (if it has one), with the cursor at the
      end of that line: at most the element before the cursor leaves the
      flattened text. */
  lemma FlattenJoinEmptyLine<T>(s: Snapshot<T>)
    requires WellFormed(s) && s.cursor.0 >= 2 && CurrentLine(s) == []
    ensures CanDeleteBack(s)
    ensures var r := DeleteBack(s); var previous := s.lines[s.cursor.0 - 2];
      && Offset(r) <= Offset(s) <= Offset(r) + 1
      && (previous != [] ==> Offset(r) + 1 == Offset(s))
      && Flatten(r.lines) == Flatten(s.lines)[..Offset(r)] + Flatten(s.lines)[Offset(s)..]
  {
    var li := s.cursor.0 - 1;
    var head := Flatten(s.lines[..li - 1]);
    var tail := Flatten(s.lines[li + 1..]);
    JoinParts(s);
    PopBetween(head, s.lines[li - 1], tail);
  }

  /** The flattened texts before and after joining an empty line to the line
      above, cut into the lines before, the line above, and the lines after. */
  lemma JoinParts<T>(s: Snapshot<T>)
    requires WellFormed(s) && s.cursor.0 >= 2 && CurrentLine(s) == []
    ensures CanDeleteBack(s)
    ensures var r := DeleteBack(s); var li := s.cursor.0 - 1;
      var head := Flatten(s.lines[..li - 1]); var tail := Flatten(s.lines[li + 1..]);
      var previous := s.lines[li - 1];
      var popped := if previous == [] then [] else previous[..|previous| - 1];
      && Flatten(s.lines) == head + previous + tail
      && Flatten(r.lines) == head + popped + tail
      && Offset(s) == |head| + |previous|
      && Offset(r) == |head| + |popped|
  {
    var li := s.cursor.0 - 1;
    var r := DeleteBack(s);
    DeleteBackJoin(s);
    var remaining := RemoveAt(s.lines, li);
    var previous := s.lines[li - 1];
    var popped := r.lines[li - 1];
    assert r.lines == remaining[li - 1 := popped];
    FlattenRemoveEmptyLine(s.lines, li);
    FlattenAround(remaining, li - 1);
    FlattenReplaceLine(remaining, li - 1, popped);
    assert remaining[..li - 1] == s.lines[..li - 1] && remaining[li - 1] == previous;
    assert remaining[li..] == s.lines[li + 1..];
    FlattenPrefixStep(s.lines, li - 1);
  }

  /** Dropping the last element (if any) of the middle part of a text keeps
      what comes before and after it. */
  lemma PopBetween<T>(head: seq<T>, previous: seq<T>, tail: seq<T>)
    ensures var popped := if previous == [] then [] else previous[..|previous| - 1];
      var whole := head + previous + tail;
      && |popped| <= |previous| <= |popped| + 1
      && (previous != [] ==> |popped| + 1 == |previous|)
      && whole[..|head| + |popped|] + whole[|head| + |previous|..] == head + popped + tail
  {
    var popped := if previous == [] then [] else previous[..|previous| - 1];
    var whole := head + previous + tail;
    if previous != [] {
      assert previous == popped + [previous[|previous| - 1]];
    }
    assert whole[..|head| + |popped|] == head + popped;
    assert whole[|head| + |previous|..] == tail;
  }

  /** Backspace deletes at most the one element just before the cursor from
      the flattened text, exactly that one unless the cursor is on an empty
      line below an empty line or on the empty only line, and the cursor ends
      where the deletion began. */
  lemma FlattenDeleteBack<T>(s: Snapshot<T>)
    requires WellFormed(s) && CanDeleteBack(s)
    ensures var r := DeleteBack(s); var li := s.cursor.0 - 1;
      && Offset(r) <= Offset(s) <= Offset(r) + 1
      && (CurrentLine(s) != [] || (|s.lines| > 1 && s.lines[li - 1] != []) ==> Offset(r) + 1 == Offset(s))
      && Flatten(r.lines) == Flatten(s.lines)[..Offset(r)] + Flatten(s.lines)[Offset(s)..]
  {
    var whole := Flatten(s.lines);
    if CurrentLine(s) == [] && |s.lines| > 1 {
      FlattenJoinEmptyLine(s);
    } else if CurrentLine(s) != [] {
      FlattenRemoveBeforeCursor(s);
    } else {
      assert whole == whole[..Offset(s)] + whole[Offset(s)..];
    }
  }
}

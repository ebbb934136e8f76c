/**
 * The text handed to the renderer (src/editor/graphics.rs): a copy of the
 * active buffer, and the styled runs its entries are cut into at each font
 * marker. The theme is a map from each font to an opaque style.
 */
module Graphics {
  import opened TextLines
  import opened EditorBuffer
  import Fonts

  /** A piece of text drawn in one style. */
  datatype Run<S> = Run(style: S, text: string)

  /** The theme has a style for `Normal` and for every font marker among
      `entries`; `get_section_text` unwraps each lookup. */
  predicate ThemeCovers<S>(theme: map<Fonts.Font, S>, entries: seq<BufferEntry>)
  {
    && Fonts.Normal in theme
    && forall k :: 0 <= k < |entries| && entries[k].Font? ==> entries[k].font in theme
  }

  /** The runs after walking `entries`: one run in the `Normal` style to
      begin with, a new empty run for each font marker, and each character
      appended to the latest run. */
  function Runs<S>(theme: map<Fonts.Font, S>, entries: seq<BufferEntry>): (v: seq<Run<S>>)
    requires ThemeCovers(theme, entries)
    ensures |v| >= 1
    decreases |entries|
  {
    if entries == [] then [Run(theme[Fonts.Normal], [])]
    else
      var v := Runs(theme, entries[..|entries| - 1]);
      match entries[|entries| - 1]
      case Font(f) => v + [Run(theme[f], [])]
      case Text(c) => v[|v| - 1 := Run(v[|v| - 1].style, v[|v| - 1].text + [c])]
  }

  /** The characters among `entries`, in order. */
  function TextOf(entries: seq<BufferEntry>): string
    decreases |entries|
  {
    if entries == [] then []
    else
      var last := entries[|entries| - 1];
      TextOf(entries[..|entries| - 1]) + (if last.Text? then [last.ch] else [])
  }

  /** The font markers among `entries`, in order. */
  function FontsOf(entries: seq<BufferEntry>): seq<Fonts.Font>
    decreases |entries|
  {
    if entries == [] then []
    else
      var last := entries[|entries| - 1];
      FontsOf(entries[..|entries| - 1]) + (if last.Font? then [last.font] else [])
  }

  /** The texts of `runs`, joined with nothing between them. */
  function Concat<S>(runs: seq<Run<S>>): string
    decreases |runs|
  {
    if runs == [] then [] else Concat(runs[..|runs| - 1]) + runs[|runs| - 1].text
  }

  lemma ThemeCoversPrefix<S>(theme: map<Fonts.Font, S>, entries: seq<BufferEntry>, i: nat)
    requires ThemeCovers(theme, entries) && i <= |entries|
    ensures ThemeCovers(theme, entries[..i])
  {
  }

  /** There is one run more than there are font markers, and every run but
      the first is styled by its marker, in order; the first is `Normal`. */
  lemma {:induction false} RunStyles<S>(theme: map<Fonts.Font, S>, entries: seq<BufferEntry>)
    requires ThemeCovers(theme, entries)
    ensures var v := Runs(theme, entries); var fonts := FontsOf(entries);
      && |v| == 1 + |fonts|
      && v[0].style == theme[Fonts.Normal]
      && forall i :: 0 <= i < |fonts| ==> fonts[i] in theme && v[i + 1].style == theme[fonts[i]]
    decreases |entries|
  {
    if entries != [] {
      var init := entries[..|entries| - 1];
      ThemeCoversPrefix(theme, entries, |entries| - 1);
      RunStyles(theme, init);
    }
  }

  /** Joining the run texts gives back the characters of the entries in
      order: nothing is lost, reordered or added. */
  lemma {:induction false} RunTexts<S>(theme: map<Fonts.Font, S>, entries: seq<BufferEntry>)
    requires ThemeCovers(theme, entries)
    ensures Concat(Runs(theme, entries)) == TextOf(entries)
    decreases |entries|
  {
    if entries == [] {
      assert Concat(Runs(theme, entries)) == Concat([Run(theme[Fonts.Normal], [])]);
    } else {
      var init := entries[..|entries| - 1];
      ThemeCoversPrefix(theme, entries, |entries| - 1);
      RunTexts(theme, init);
      var v := Runs(theme, init);
      var w := Runs(theme, entries);
      match entries[|entries| - 1]
      case Font(f) =>
        assert w[..|w| - 1] == v;
      case Text(c) =>
        assert w[..|w| - 1] == v[..|v| - 1];
        assert Concat(v) == Concat(v[..|v| - 1]) + v[|v| - 1].text;
    }
  }

  /** Characters after the latest font marker all go to the latest run: entries
      with no marker extend the text of the last run and leave every other run,
      and the number of runs, as they were. */
  lemma {:induction false} RunsExtendLast<S>(theme: map<Fonts.Font, S>, a: seq<BufferEntry>, b: seq<BufferEntry>)
    requires ThemeCovers(theme, a + b) && FontsOf(b) == []
    ensures ThemeCovers(theme, a)
    ensures var v := Runs(theme, a);
      Runs(theme, a + b) == v[|v| - 1 := Run(v[|v| - 1].style, v[|v| - 1].text + TextOf(b))]
    decreases |b|
  {
    ThemeCoversPrefix(theme, a + b, |a|);
    assert (a + b)[..|a|] == a;
    var v := Runs(theme, a);
    if b == [] {
      assert a + b == a;
      assert v[|v| - 1].text + TextOf(b) == v[|v| - 1].text;
      assert v[|v| - 1 := Run(v[|v| - 1].style, v[|v| - 1].text)] == v;
    } else {
      var init := b[..|b| - 1];
      var last := b[|b| - 1];
      assert b[..|b| - 1] == init && last.Text? && FontsOf(init) == [];
      assert a + b == (a + init) + [last];
      ThemeCoversPrefix(theme, a + b, |a + init|);
      assert (a + b)[..|a + init|] == a + init;
      RunsExtendLast(theme, a, init);
      assert (a + b)[..|a + b| - 1] == a + init;
      assert TextOf(b) == TextOf(init) + [last.ch];
      var w := Runs(theme, a + init);
      assert Runs(theme, a + b) == w[|w| - 1 := Run(w[|w| - 1].style, w[|w| - 1].text + [last.ch])];
      var lastRun := v[|v| - 1];
      assert |w| == |v| && w[|w| - 1] == Run(lastRun.style, lastRun.text + TextOf(init));
      assert lastRun.text + TextOf(init) + [last.ch] == lastRun.text + TextOf(b);
    }
  }

  /** Without any font marker everything is one `Normal` run holding all the text. */
  lemma NoMarkersOneRun<S>(theme: map<Fonts.Font, S>, entries: seq<BufferEntry>)
    requires ThemeCovers(theme, entries) && FontsOf(entries) == []
    ensures Runs(theme, entries) == [Run(theme[Fonts.Normal], TextOf(entries))]
  {
    var v := Runs(theme, entries);
    RunStyles(theme, entries);
    RunTexts(theme, entries);
    assert v == [v[0]];
    assert Concat(v) == Concat(v[..0]) + v[0].text;
  }

  /** `get_section_text`: walks the flattened entries of the buffer and builds
      the runs. */
  method GetSectionText<S>(theme: map<Fonts.Font, S>, displayBuffer: Buffer) returns (v: seq<Run<S>>)
    requires ThemeCovers(theme, Flatten(displayBuffer.lines))
    ensures v == Runs(theme, Flatten(displayBuffer.lines))
  {
    var entries := Flatten(displayBuffer.GetLines());
    v := [Run(theme[Fonts.Normal], [])];
    for i := 0 to |entries|
      invariant ThemeCovers(theme, entries[..i])
      invariant v == Runs(theme, entries[..i])
    {
      ThemeCoversPrefix(theme, entries, i + 1);
      assert entries[..i + 1][..i] == entries[..i];
      match entries[i]
      case Font(f) =>
        v := v + [Run(theme[f], [])];
      case Text(c) =>
        var last := v[|v| - 1];
        v := v[|v| - 1 := Run(last.style, last.text + [c])];
    }
    assert entries[..|entries|] == entries;
  }

  /** `get_display_buffer`: a copy of the active buffer; nothing else changes. */
  method GetDisplayBuffer(activeBuffer: Buffer) returns (displayBuffer: Buffer)
    ensures fresh(displayBuffer) && displayBuffer.State() == activeBuffer.State()
  {
    displayBuffer := activeBuffer.Clone();
  }
}

/**
 * The comment node's text formatter: which source it shows, the column it
 * wraps at, and how the wrapped pieces of each line are put together into
 * the list of lines the node draws.
 *
 * The word wrapping itself belongs to Python's `textwrap` library and is
 * not modelled: it is the parameter `wrap`, and every property below holds
 * for whatever wrapper is passed in.
 */
module Formatting {
  import opened TextLines

  datatype Option<T> = None | Some(value: T)

  /**
   * A word wrapper: the pieces one logical line is broken into at a given
   * column (`textwrap.TextWrapper.wrap` with its `width` set to that column).
   */
  type Wrapper = (string, int) -> seq<string>

  /** Python's `int()` applied to a float: truncation toward zero. */
  function Truncate(x: real): (n: int)
    ensures 0.0 <= x ==> n as real <= x < n as real + 1.0
    ensures x < 0.0 ==> x <= n as real < x + 1.0 && n <= 0
  {
    if x >= 0.0 then x.Floor else -((-x).Floor)
  }

  /**
   * The wrap column for a node `width` in layout units, `int(width) // 8`:
   * the number of whole 8-unit character cells that fit in the width.
   * Dafny's `/` by a positive divisor floors, as Python's `//` does.
   */
  function WrapColumn(width: real): (cols: int)
    ensures 0.0 <= width ==> 0 <= cols && (8 * cols) as real <= width < (8 * cols + 8) as real
    ensures width >= 8.0 <==> cols >= 1
  {
    Truncate(width) / 8
  }

  /**
   * The displayed lines for the logical `lines`: each line's wrapped pieces
   * in order, each group followed by one empty separator line.
   */
  function Assemble(lines: seq<string>, cols: int, wrap: Wrapper): (out: seq<string>)
    ensures lines == [] <==> out == []
    ensures lines != [] ==> out[|out| - 1] == ""
    ensures |out| >= |lines|
  {
    if lines == [] then []
    else wrap(lines[0], cols) + [""] + Assemble(lines[1..], cols, wrap)
  }

  /** Assembling one more line appends that line's pieces and a separator. */
  lemma {:induction false} AssembleSnoc(lines: seq<string>, line: string, cols: int, wrap: Wrapper)
    ensures Assemble(lines + [line], cols, wrap) == Assemble(lines, cols, wrap) + wrap(line, cols) + [""]
  {
    if lines == [] {
      assert [] + [line] == [line];
      assert [line][1..] == [];
    } else {
      assert (lines + [line])[0] == lines[0];
      assert (lines + [line])[1..] == lines[1..] + [line];
      AssembleSnoc(lines[1..], line, cols, wrap);
    }
  }

  /** Assembling a concatenation is the concatenation of the assemblies. */
  lemma {:induction false} AssembleConcat(a: seq<string>, b: seq<string>, cols: int, wrap: Wrapper)
    ensures Assemble(a + b, cols, wrap) == Assemble(a, cols, wrap) + Assemble(b, cols, wrap)
  {
    if a != [] {
      assert (a + b)[0] == a[0];
      assert (a + b)[1..] == a[1..] + b;
      AssembleConcat(a[1..], b, cols, wrap);
    } else {
      assert [] + b == b;
    }
  }

  /**
   * The displayed lines cut back into groups at the empty separator lines:
   * the inverse of `Assemble` for wrappers that never produce an empty piece.
   * A trailing run without a separator forms a last group of its own.
   */
  function Groups(out: seq<string>): seq<seq<string>>
  {
    if out == [] then []
    else if out[0] == "" then [[]] + Groups(out[1..])
    else
      var rest := Groups(out[1..]);
      if rest == [] then [[out[0]]] else [[out[0]] + rest[0]] + rest[1..]
  }

  /** A group without empty lines, closed by a separator, is peeled off whole. */
  lemma {:induction false} GroupsOfClosedGroup(group: seq<string>, rest: seq<string>)
    requires "" !in group
    ensures Groups(group + [""] + rest) == [group] + Groups(rest)
  {
    var out := group + [""] + rest;
    if group == [] {
      assert out == [""] + rest && out[1..] == rest;
    } else {
      assert group[0] in group;
      assert forall p :: p in group[1..] ==> p in group;
      assert out[0] == group[0];
      assert out[1..] == group[1..] + [""] + rest;
      GroupsOfClosedGroup(group[1..], rest);
      assert [group[0]] + group[1..] == group;
    }
  }

  /** The wrapper yields no empty piece for any of the `lines` at column `cols`. */
  ghost predicate NoEmptyPieces(lines: seq<string>, cols: int, wrap: Wrapper)
  {
    forall i :: 0 <= i < |lines| ==> "" !in wrap(lines[i], cols)
  }

  /**
   * Round trip: when no wrapped piece is empty, the displayed lines can be
   * cut back at the separators into exactly one group per logical line, the
   * i-th group being the wrapped pieces of the i-th line.
   */
  lemma {:induction false} GroupsOfAssemble(lines: seq<string>, cols: int, wrap: Wrapper)
    requires NoEmptyPieces(lines, cols, wrap)
    ensures |Groups(Assemble(lines, cols, wrap))| == |lines|
    ensures forall i :: 0 <= i < |lines| ==> Groups(Assemble(lines, cols, wrap))[i] == wrap(lines[i], cols)
  {
    if lines != [] {
      var rest := Assemble(lines[1..], cols, wrap);
      assert NoEmptyPieces(lines[1..], cols, wrap) by {
        forall i | 0 <= i < |lines| - 1 ensures "" !in wrap(lines[1..][i], cols) {
          assert lines[1..][i] == lines[i + 1];
        }
      }
      GroupsOfAssemble(lines[1..], cols, wrap);
      assert "" !in wrap(lines[0], cols);
      GroupsOfClosedGroup(wrap(lines[0], cols), rest);
      forall i | 1 <= i < |lines|
        ensures Groups(Assemble(lines, cols, wrap))[i] == wrap(lines[i], cols)
      {
        assert lines[1..][i - 1] == lines[i];
      }
    }
  }

  /** Every piece the wrapper yields for the `lines` is at most `cols` long. */
  ghost predicate PiecesFit(lines: seq<string>, cols: int, wrap: Wrapper)
  {
    forall i, j :: 0 <= i < |lines| && 0 <= j < |wrap(lines[i], cols)| ==> |wrap(lines[i], cols)[j]| <= cols
  }

  /**
   * Assembly adds nothing wider than the wrap column: when the wrapper keeps
   * its pieces within `cols`, so does every displayed line.
   */
  lemma {:induction false} AssembleFits(lines: seq<string>, cols: int, wrap: Wrapper)
    requires cols >= 0
    requires PiecesFit(lines, cols, wrap)
    ensures forall k :: 0 <= k < |Assemble(lines, cols, wrap)| ==> |Assemble(lines, cols, wrap)[k]| <= cols
  {
    if lines != [] {
      var out := Assemble(lines, cols, wrap);
      var first := wrap(lines[0], cols);
      var rest := Assemble(lines[1..], cols, wrap);
      assert PiecesFit(lines[1..], cols, wrap) by {
        forall i, j | 0 <= i < |lines| - 1 && 0 <= j < |wrap(lines[1..][i], cols)|
          ensures |wrap(lines[1..][i], cols)[j]| <= cols
        {
          assert lines[1..][i] == lines[i + 1];
        }
      }
      AssembleFits(lines[1..], cols, wrap);
      forall k | 0 <= k < |out| ensures |out[k]| <= cols {
        if k < |first| {
          assert out[k] == first[k];
        } else if k == |first| {
          assert out[k] == "";
        } else {
          assert out[k] == rest[k - |first| - 1];
        }
      }
    }
  }

  /** The node shows its text (rather than the input form) when either source field is set. */
  predicate HasText(text: string, textFile: string) {
    text != "" || textFile != ""
  }

  /**
   * The view test and the display agree except for one case: a note whose
   * only source is a buffer name that does not resolve is drawn as text, yet
   * shows no line at all. Whatever is displayed comes from a note that has text.
   */
  lemma HasTextVersusDisplay(text: string, textFile: string, width: real, texts: map<string, string>, wrap: Wrapper)
    requires CanWrap(text, textFile, width, texts)
    ensures Formatted(text, textFile, width, texts, wrap) != [] ==> HasText(text, textFile)
    ensures HasText(text, textFile) && Formatted(text, textFile, width, texts, wrap) == [] <==>
              text == "" && textFile != "" && textFile !in texts
  {
  }

  /**
   * The logical lines the node shows, or `None` where the source returns an
   * empty list before wrapping anything: non-empty `text` wins and is cut
   * with `splitlines`; otherwise a set `textFile` names a buffer in `texts`,
   * whose lines are used when it exists.
   */
  function SelectLines(text: string, textFile: string, texts: map<string, string>): (lines: Option<seq<string>>)
    ensures lines.Some? <==> text != "" || (textFile != "" && textFile in texts)
    ensures lines.Some? ==> |lines.value| >= 1
  {
    if text != "" then Some(SplitLines(text))
    else if textFile != "" then
      if textFile in texts then Some(Split(texts[textFile])) else None
    else None
  }

  /**
   * The wrapper is only ever asked for a column of at least one. The source
   * does not guard this: with a width below 8 the column is 0, which the
   * wrapping library rejects, so callers must not format such a node.
   */
  predicate CanWrap(text: string, textFile: string, width: real, texts: map<string, string>): (ok: bool)
    ensures width >= 8.0 ==> ok
    ensures text == "" && (textFile == "" || textFile !in texts) ==> ok
  {
    SelectLines(text, textFile, texts).Some? ==> WrapColumn(width) >= 1
  }

  /** The lines the node displays: `format_text` as a function of the note and the buffers. */
  function Formatted(text: string, textFile: string, width: real, texts: map<string, string>, wrap: Wrapper): (out: seq<string>)
    requires CanWrap(text, textFile, width, texts)
    ensures out == [] <==> !(text != "" || (textFile != "" && textFile in texts))
    ensures out != [] ==> out[|out| - 1] == ""
  {
    match SelectLines(text, textFile, texts)
    case None => []
    case Some(lines) => Assemble(lines, WrapColumn(width), wrap)
  }

  /** The default node width of 200 wraps at 25 columns, and any width formats. */
  lemma DefaultWidthColumn(text: string, textFile: string, texts: map<string, string>)
    ensures WrapColumn(200.0) == 25
    ensures CanWrap(text, textFile, 200.0, texts)
  {
  }

  /** A note with neither source set shows nothing, whatever its width. */
  lemma EmptyNoteShowsNothing(text: string, textFile: string, width: real, texts: map<string, string>, wrap: Wrapper)
    requires !HasText(text, textFile)
    ensures CanWrap(text, textFile, width, texts)
    ensures Formatted(text, textFile, width, texts, wrap) == []
  {
  }

  /** Non-empty inline text wins: neither `textFile` nor the buffers are consulted. */
  lemma TextOverridesFile(text: string, width: real, wrap: Wrapper,
                          textFile1: string, texts1: map<string, string>,
                          textFile2: string, texts2: map<string, string>)
    requires text != ""
    requires WrapColumn(width) >= 1
    ensures CanWrap(text, textFile1, width, texts1) && CanWrap(text, textFile2, width, texts2)
    ensures Formatted(text, textFile1, width, texts1, wrap) == Formatted(text, textFile2, width, texts2, wrap)
  {
  }

  /** With no inline text, a buffer name that does not resolve shows nothing. */
  lemma MissingBufferShowsNothing(textFile: string, width: real, texts: map<string, string>, wrap: Wrapper)
    requires textFile !in texts
    ensures CanWrap("", textFile, width, texts)
    ensures Formatted("", textFile, width, texts, wrap) == []
  {
  }

  /**
   * Whenever a source resolves, something is shown: the displayed list is
   * non-empty, ends with a separator, and has a separator per logical line.
   */
  lemma ResolvedSourceShowsSomething(text: string, textFile: string, width: real, texts: map<string, string>, wrap: Wrapper)
    requires text != "" || (textFile != "" && textFile in texts)
    requires WrapColumn(width) >= 1
    ensures CanWrap(text, textFile, width, texts)
    ensures Formatted(text, textFile, width, texts, wrap) != []
    ensures Formatted(text, textFile, width, texts, wrap)[|Formatted(text, textFile, width, texts, wrap)| - 1] == ""
  {
  }

  /**
   * What the node shows is its selected lines, each wrapped and closed by a
   * separator: cut back at the separators it yields each line's pieces in
   * order, as long as the wrapper yields no empty piece.
   */
  lemma FormattedGroups(text: string, textFile: string, width: real, texts: map<string, string>, wrap: Wrapper)
    requires CanWrap(text, textFile, width, texts)
    requires SelectLines(text, textFile, texts).Some?
    requires NoEmptyPieces(SelectLines(text, textFile, texts).value, WrapColumn(width), wrap)
    ensures var lines := SelectLines(text, textFile, texts).value;
      |Groups(Formatted(text, textFile, width, texts, wrap))| == |lines| &&
      forall i :: 0 <= i < |lines| ==> Groups(Formatted(text, textFile, width, texts, wrap))[i] == wrap(lines[i], WrapColumn(width))
  {
    GroupsOfAssemble(SelectLines(text, textFile, texts).value, WrapColumn(width), wrap);
  }

  /**
   * Exporting the text to a buffer and showing that buffer instead gives the
   * same display as the inline text, except that text ending in a newline
   * gains one more, wrapped, empty line: the buffer keeps the empty line
   * after the final newline where `splitlines` drops it.
   */
  lemma {:induction false} ExportedBufferShowsText(text: string, textFile: string, name: string, width: real,
                                                   texts: map<string, string>, wrap: Wrapper)
    requires text != "" && name != ""
    requires WrapColumn(width) >= 1
    ensures CanWrap(text, textFile, width, texts)
    ensures CanWrap("", name, width, texts[name := text])
    ensures Formatted("", name, width, texts[name := text], wrap) ==
      Formatted(text, textFile, width, texts, wrap) +
      (if EndsWithNewline(text) then wrap("", WrapColumn(width)) + [""] else [])
  {
    var cols := WrapColumn(width);
    var exported := texts[name := text];
    assert SelectLines(text, textFile, texts) == Some(SplitLines(text));
    assert SelectLines("", name, exported) == Some(Split(text));
    var direct := Assemble(SplitLines(text), cols, wrap);
    var viaBuffer := Assemble(Split(text), cols, wrap);
    assert Formatted(text, textFile, width, texts, wrap) == direct;
    assert Formatted("", name, width, exported, wrap) == viaBuffer;
    BufferLinesVersusSplitLines(text);
    if EndsWithNewline(text) {
      AssembleSnoc(SplitLines(text), "", cols, wrap);
    } else {
      assert Split(text) == SplitLines(text);
    }
  }
}

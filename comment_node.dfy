/**
 * The comment node and its commands.
 *
 * A `Note` holds inline `text`, the name of a host text buffer
 * (`textFile`) and a display `width`; the host's named text buffers are a
 * `TextStore`. The commands "from clipboard", "clear" and "to text" each
 * either apply in full or change nothing, and say which with a `Status`.
 */
module CommentNode {
  import opened TextLines
  import opened Formatting

  /** The buffer the "to text" command writes to. */
  const GenericNoteText: string := "Generic Note Text"

  /** The width a node is given when it is added to a graph. */
  const DefaultWidth: real := 200.0

  /** The result an operator hands back to the host. */
  datatype Status = Finished | Cancelled

  /**
   * The host's named text buffers, each held as its content. A buffer's
   * lines are the pieces of that content between newlines (`Split`).
   */
  class TextStore {
    var texts: map<string, string>

    constructor (texts: map<string, string>)
      ensures this.texts == texts
    {
      this.texts := texts;
    }

    /** Whether a buffer of that name exists (the host's `texts.get` succeeding). */
    method Get(name: string) returns (found: bool)
      ensures found <==> name in texts
    {
      found := name in texts;
    }

    /** Creates an empty buffer under a name no buffer has yet. */
    method New(name: string)
      requires name !in texts
      modifies this
      ensures texts == old(texts)[name := ""]
    {
      texts := texts[name := ""];
    }

    /** Empties an existing buffer. */
    method ClearBuffer(name: string)
      requires name in texts
      modifies this
      ensures texts == old(texts)[name := ""]
    {
      texts := texts[name := ""];
    }

    /**
     * Writes `s` into an existing buffer at its cursor, taken to be the end
     * of its content (where `ClearBuffer` leaves it).
     */
    method Write(name: string, s: string)
      requires name in texts
      modifies this
      ensures texts == old(texts)[name := old(texts)[name] + s]
    {
      texts := texts[name := texts[name] + s];
    }
  }

  class Note {
    /** Inline text; when set it overrides `textFile`. */
    var text: string
    /** Name of a host text buffer to show. */
    var textFile: string
    /** Display width in layout units. */
    var width: real

    /** A new node: both sources unset, width 200. */
    constructor ()
      ensures text == "" && textFile == "" && width == DefaultWidth
      ensures !HasText(text, textFile)
    {
      text := "";
      textFile := "";
      width := DefaultWidth;
    }

    /**
     * The lines the node draws: the selected source's logical lines, each
     * wrapped at `int(width) // 8` and followed by an empty separator.
     */
    method FormatText(store: TextStore, wrap: Wrapper) returns (out: seq<string>)
      requires CanWrap(text, textFile, width, store.texts)
      ensures out == Formatted(text, textFile, width, store.texts, wrap)
    {
      var lines: seq<string>;
      if text != "" {
        lines := SplitLines(text);
      } else if textFile != "" {
        var found := store.Get(textFile);
        if found {
          lines := Split(store.texts[textFile]);
        } else {
          return [];
        }
      } else {
        return [];
      }
      var cols := WrapColumn(width);
      out := [];
      var i := 0;
      while i < |lines|
        invariant 0 <= i <= |lines|
        invariant out == Assemble(lines[..i], cols, wrap)
      {
        AssembleSnoc(lines[..i], lines[i], cols, wrap);
        assert lines[..i + 1] == lines[..i] + [lines[i]];
        out := out + wrap(lines[i], cols);
        out := out + [""];
        i := i + 1;
      }
      assert lines[..i] == lines;
    }

    /** Unsets both sources; the width stays. Clearing a cleared note changes nothing. */
    method Clear()
      modifies this
      ensures text == "" && textFile == "" && width == old(width)
      ensures old(text) == "" && old(textFile) == "" ==> unchanged(this)
      ensures !HasText(text, textFile)
    {
      text := "";
      textFile := "";
    }

    /**
     * Writes the inline text into buffer "Generic Note Text", creating it if
     * it is missing and replacing its content otherwise. No other buffer
     * changes, and neither does the note.
     */
    method ToText(store: TextStore)
      modifies store
      ensures store.texts == old(store.texts)[GenericNoteText := text]
      ensures GenericNoteText in store.texts && store.texts[GenericNoteText] == text
      ensures unchanged(this)
    {
      var found := store.Get(GenericNoteText);
      if !found {
        store.New(GenericNoteText);
      }
      store.ClearBuffer(GenericNoteText);
      store.Write(GenericNoteText, text);
      assert "" + text == text;
    }
  }

  /**
   * "From clipboard": an empty clipboard is reported and cancels, leaving
   * the note as it was; otherwise the clipboard replaces the inline text.
   */
  method FromClipboard(node: Note, clipboard: string) returns (status: Status, report: Option<string>)
    modifies node
    ensures clipboard == "" ==> status == Cancelled && report == Some("No text selected") && unchanged(node)
    ensures clipboard != "" ==> status == Finished && report == None && node.text == clipboard
    ensures node.textFile == old(node.textFile) && node.width == old(node.width)
  {
    if clipboard == "" {
      return Cancelled, Some("No text selected");
    }
    node.text := clipboard;
    return Finished, None;
  }

  /** "Clear": always finishes, with both sources unset and the width kept. */
  method ClearNote(node: Note) returns (status: Status)
    modifies node
    ensures status == Finished
    ensures node.text == "" && node.textFile == "" && node.width == old(node.width)
    ensures old(node.text) == "" && old(node.textFile) == "" ==> unchanged(node)
  {
    node.Clear();
    return Finished;
  }

  /**
   * "To text": a note without inline text is reported and cancels, leaving
   * the buffers as they were; otherwise the text goes to buffer
   * "Generic Note Text" and the report points the user there.
   */
  method ToTextEditor(node: Note, store: TextStore) returns (status: Status, report: Option<string>)
    modifies store
    ensures node.text == "" ==> status == Cancelled && report == Some("No text in node") && unchanged(store)
    ensures node.text != "" ==>
              status == Finished && report == Some("See text editor: Generic Note Text") &&
              store.texts == old(store.texts)[GenericNoteText := node.text]
    ensures unchanged(node)
  {
    if node.text == "" {
      return Cancelled, Some("No text in node");
    }
    node.ToText(store);
    return Finished, Some("See text editor: Generic Note Text");
  }

  /** After "clear", the node shows nothing, whatever its width and the buffers. */
  method ClearThenShow(node: Note, store: TextStore, wrap: Wrapper) returns (out: seq<string>)
    modifies node
    ensures out == []
    ensures node.width == old(node.width)
  {
    var _ := ClearNote(node);
    out := node.FormatText(store, wrap);
  }

  /**
   * Exporting a note's text and then pointing a second, empty note of the
   * same width at the exported buffer shows the same lines as the first
   * note, apart from the extra empty line kept after a final newline.
   */
  method ExportThenShowBuffer(node: Note, reader: Note, store: TextStore, wrap: Wrapper)
    returns (shown: seq<string>, fromBuffer: seq<string>)
    requires node != reader
    requires node.text != "" && WrapColumn(node.width) >= 1
    modifies store, reader
    ensures shown == Formatted(node.text, node.textFile, node.width, old(store.texts), wrap)
    ensures fromBuffer == shown + (if EndsWithNewline(node.text) then wrap("", WrapColumn(node.width)) + [""] else [])
  {
    shown := node.FormatText(store, wrap);
    var status, _ := ToTextEditor(node, store);
    assert status == Finished;
    reader.text := "";
    reader.textFile := GenericNoteText;
    reader.width := node.width;
    ExportedBufferShowsText(node.text, node.textFile, GenericNoteText, node.width, old(store.texts), wrap);
    fromBuffer := reader.FormatText(store, wrap);
  }
}

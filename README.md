# Comment node: a Dafny model

This project models the comment ("Generic Note") node of the Blender add-on
in `comment_node.py`. A note holds three things:

- inline `text`;
- `text_file`, the name of one of the host's named text buffers;
- a display `width`.

When the node is drawn, `format_text` picks a source. Non-empty inline text
wins. Otherwise the named buffer is used, if it exists. The chosen text is
cut into logical lines and each line is word-wrapped at column
`int(width) // 8`. Each line's wrapped pieces are followed by one empty
separator line. Three operators change the note or the buffers:

- "from clipboard" copies the clipboard into `text`;
- "clear" unsets both sources;
- "to text" writes `text` into the buffer "Generic Note Text".

Each operator either applies in full or cancels without changing anything.

Files:

- `text_lines.dfy` (module `TextLines`): how a string is cut into lines.
  `Split` cuts at every newline and keeps every piece. This is how a host
  buffer holds its lines. `SplitLines` is `str.splitlines` restricted to
  newlines. `Join` is the partner of both.
- `formatting.dfy` (module `Formatting`): the wrap column and assembly of the
  displayed lines. It also holds source selection and `Formatted`, which
  states `format_text` as a function, plus the lemmas about them.
- `comment_node.dfy` (module `CommentNode`): the `Note` class, the
  `TextStore` class (the host's buffers as a map from name to content), and
  the three operators as methods.

The word wrapper (`textwrap.TextWrapper.wrap`) lives in a library outside
the repository. It is the parameter `wrap: Wrapper`, and every property is
proved for any wrapper. Three of them assume the wrapper never yields an
empty piece (`GroupsOfAssemble`, `FormattedGroups`) or keeps its pieces
within the column (`AssembleFits`), which `textwrap` does with its default
settings. The source keeps one global `TextWrapper` and sets
its `width` on each call. Here the column is passed with each call instead.
The clipboard is an input string. Operator reports are returned as
`Option<string>` next to the `Status`.

Two behaviours of the code that a reader might not expect are kept as
written:

- The code does not clamp the wrap column. A width below 8 gives a column of 0
  or less, which the wrapping library rejects. So `CanWrap` is a precondition of
  formatting whenever a source resolves. When no source resolves, the code
  returns before it computes the column, so any width is allowed there.
- Exporting text to a buffer and showing that buffer gives the same display
  as the inline text only when the text does not end in a newline (with
  `splitlines` cut at '\n' only, see Left out). A buffer
  keeps an empty line after a final newline, and `splitlines` drops it.
  `Formatting.ExportedBufferShowsText` states the exact difference.

## Model

| member | source | states |
|---|---|---|
| `TextLines.Split` | comment_node.py:40-42 | a buffer's lines: at least one line, and no line contains a newline |
| `TextLines.JoinSplit` | comment_node.py:40-42 | joining a buffer's lines with newlines gives its content back |
| `TextLines.SplitJoin` | comment_node.py:40-42 | cutting joined newline-free lines gives those lines back, so buffer content and line list determine each other |
| `TextLines.LastPieceEmpty` | comment_node.py:40-42 | a buffer's last line is empty exactly when its content is empty or ends in a newline |
| `TextLines.SplitLinesRoundTrip` | comment_node.py:64-65 | `splitlines` of non-empty text gives at least one newline-free line, and joining them (plus a final newline if the text had one) gives the text back |
| `TextLines.SplitLines` | comment_node.py:65 | `splitlines` gives no lines exactly for the empty text, and no line it gives contains a newline |
| `TextLines.JoinDropEmptyLast` | comment_node.py:65 | dropping an empty last line removes exactly the final newline from the joined text |
| `TextLines.BufferLinesVersusSplitLines` | comment_node.py:64-69 | for non-empty content, the buffer's lines are the `splitlines` lines, plus one empty line when the content ends in a newline |
| `Formatting.Truncate` | comment_node.py:76 | `int()` of a float truncates toward zero: within 1 of the input, on the zero side |
| `Formatting.WrapColumn` | comment_node.py:75-76 | the column is `int(width) // 8`: for non-negative width, 8 times the column is at most the width and within 8 of it; the column is at least 1 exactly when the width is at least 8 |
| `Formatting.Assemble` | comment_node.py:77-80 | the displayed list is empty exactly when there are no lines; otherwise it ends with a separator; it is at least as long as the line list |
| `Formatting.AssembleSnoc` | comment_node.py:77-80 | handling one more line appends that line's wrapped pieces and one empty separator, as the loop does |
| `Formatting.AssembleConcat` | comment_node.py:77-80 | the display of concatenated line lists is the concatenation of their displays, in input order |
| `Formatting.GroupsOfClosedGroup` | comment_node.py:78-79 | a group of non-empty pieces closed by a separator is recovered whole when the display is cut at separators |
| `Formatting.GroupsOfAssemble` | comment_node.py:77-80 | if the wrapper never yields an empty piece, cutting the display at the separators gives one group per logical line, the i-th being the wrapped pieces of the i-th line |
| `Formatting.AssembleFits` | comment_node.py:76-79 | if the wrapper keeps pieces within the column, every displayed line is within the column |
| `Formatting.SelectLines` | comment_node.py:64-73 | a source resolves exactly when `text` is non-empty or `text_file` is set and names an existing buffer; a resolved source has at least one logical line |
| `Formatting.CanWrap` | comment_node.py:75-78 | the wrapper only needs a column of at least 1 when a source resolves: any width of at least 8 is fine, and so is any width when no source resolves |
| `Formatting.Formatted` | comment_node.py:61-80 | `format_text` returns the empty list exactly when no source resolves; otherwise its last line is the empty separator |
| `Formatting.HasTextVersusDisplay` | comment_node.py:88-95 | anything displayed comes from a note that passes the `has_text` test; a note passes it yet displays nothing exactly when `text` is empty and `text_file` names no existing buffer |
| `Formatting.DefaultWidthColumn` | comment_node.py:75-83 | the default width 200 wraps at 25 columns and can always be formatted |
| `Formatting.EmptyNoteShowsNothing` | comment_node.py:64-73 | with neither `text` nor `text_file` set, the display is empty for every width |
| `Formatting.TextOverridesFile` | comment_node.py:64-65 | with non-empty `text`, the display does not depend on `text_file` or on the buffers |
| `Formatting.MissingBufferShowsNothing` | comment_node.py:66-71 | with empty `text` and a `text_file` naming no buffer, the display is empty |
| `Formatting.ResolvedSourceShowsSomething` | comment_node.py:64-80 | when inline text is set or the named buffer exists, the display is non-empty and ends with a separator |
| `Formatting.FormattedGroups` | comment_node.py:61-80 | when the wrapper yields no empty piece, the display is the selected source's lines, each wrapped at `int(width) // 8`, in order, each closed by a separator |
| `Formatting.ExportedBufferShowsText` | comment_node.py:113-119 | after writing `text` to a buffer, showing that buffer gives the inline text's display, plus one wrapped empty line when the text ends in a newline |
| `CommentNode.TextStore.Get` | comment_node.py:115 | the lookup succeeds exactly when a buffer of that name exists |
| `CommentNode.TextStore.New` | comment_node.py:116-117 | creates an empty buffer under a new name; other buffers unchanged |
| `CommentNode.TextStore.ClearBuffer` | comment_node.py:118 | empties one existing buffer; other buffers unchanged |
| `CommentNode.TextStore.Write` | comment_node.py:119 | appends to one existing buffer; other buffers unchanged |
| `CommentNode.Note.constructor` | comment_node.py:82-83 | a new note has no text, no buffer name and width 200 |
| `CommentNode.Note.FormatText` | comment_node.py:61-80 | the loop's result is `Formatted` of the note's fields and the buffers |
| `CommentNode.Note.Clear` | comment_node.py:109-111 | both sources become empty and the width is unchanged; clearing a cleared note changes nothing |
| `CommentNode.Note.ToText` | comment_node.py:113-119 | buffer "Generic Note Text" exists afterwards with content `text`, created if missing; every other buffer and the note are unchanged |
| `CommentNode.FromClipboard` | comment_node.py:143-150 | an empty clipboard cancels with "No text selected" and leaves the note unchanged; otherwise `text` becomes the clipboard and the command finishes; `text_file` and width never change |
| `CommentNode.ClearNote` | comment_node.py:161-164 | always finishes, with both sources empty and the width kept |
| `CommentNode.ToTextEditor` | comment_node.py:175-183 | empty `text` cancels with "No text in node" and leaves the buffers unchanged; otherwise it finishes, the report names the buffer, and only "Generic Note Text" changes, to the note's text; the note never changes |
| `CommentNode.ClearThenShow` | comment_node.py:161-164 | after "clear" the node shows nothing, whatever its width and the buffers |
| `CommentNode.ExportThenShowBuffer` | comment_node.py:175-183 | a note pointed at the exported buffer shows what the exporting note showed, plus one wrapped empty line when its text ends in a newline |

## Left out

- The word-wrapping algorithm of `textwrap.TextWrapper.wrap` belongs to a library outside the repository. It is the parameter `wrap`. So the exact wrapped lines of a given input (for example, hard-breaking an over-long word) are not modelled.
- `TextLines.SplitLines`: splits on `'\n'` only. Python's `str.splitlines` also splits on `\r`, `\r\n`, `\v`, `\f`, `\x1c`-`\x1e`, `\x85`, `\u2028` and `\u2029`. This approximation is deliberate.
- The host buffer's line structure is taken to be its content cut at every newline, keeping a trailing empty line. The host's text datablock is not part of this model.
- `CommentNode.TextStore.Write`: writes at the end of the content. The host writes at the cursor, which is at the end after a clear, the only way the source uses it.
- `CommentNode.Note.constructor`: only the width of 200 from `init` is modelled. Reading the add-on preferences and setting the node colour is host state.
- `draw_buttons` and `draw_buttons_ext` are UI layout calls. Only their `has_text` test is modelled, as `Formatting.HasText`.
- `register`, `unregister`, the `classes` tuple, `add_node_menu_func` and `AddGenericNoteNode` are host registry and menu glue, so they are not modelled.
- Clipboard access, `context.node` resolution and the operators' undo flags are host services. The clipboard is an input and the node is a parameter.
- The node width is a real number with no host-imposed range. The host's own clamping of node widths is not modelled.

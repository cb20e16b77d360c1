# comint-mode: input history ring and insertion-point tracker

A Dafny model of the two stateful pieces of the comint shell buffer for the
Atom editor:

- **The input history ring** (`ComintInputRing`). It is a circular buffer of
  capacity 50 that holds the submitted command lines, newest first, behind
  an empty "staging" entry at index 0. A recall cursor (`offset`) moves
  around the ring with wrap-around. While the user recalls old lines with
  `getPrevious` / `getNext`, the contents do not change. `popAndReset`
  removes the recalled entry by rotating it to the front, shifting it off
  and rotating back.
- **The insertion-point tracker** (`ComintBuffer`). Process output is
  stripped of ANSI codes and inserted at the *process insertion point*. The
  point then moves to the end of the inserted text. The output range is
  recorded one column short of that end. `sendCommand` reads the command
  after that boundary, or the whole line when the cursor is before it. It
  renders a line break and returns the message for the process.
  `clearBuffer` deletes every row above the cursor.

Files:

- `wrappers.dfy`: the `Option` type.
- `cbuffer.dfy`: the `CBuffer` dependency as sequence operations.
- `input_ring.dfy`: the ring as a class over a `seq<string>` and an `int`
  offset. Each method is proved against a function on `RingState`, and the
  lemmas are about those functions.
- `text_buffer.dfy`: the editor buffer as a sequence of lines. It includes
  `insert`, `delete`, `getTextInRange` and `markRange`, with the editor's
  clipping and range normalization. Their meaning is proved on the buffer's
  text (`Join`).
- `comint_buffer.dfy`: the `ComintBuffer` class. Its methods are proved
  against the functions `Rendered` and `CommandText` on a `View` (lines,
  insertion point, recorded range).

Modelling decisions:

- The buffer's text is its lines joined by `"\n"`. A position is
  `(row, column)`, ordered row-major. Positions are clipped as the editor
  clips them: a row past the end goes to the end of the buffer, and a column
  is clamped to its line. A range built from two positions starts at the
  earlier one. So the marker end `column - 1` (lib/comint-buffer.js:42) becomes column 0
  when the inserted text ends at the start of a line. For empty text the
  range is normalized, and the recorded end equals the insertion point.
- `AnsiUp.ansi_to_text` is the class constant `ansiToText: string -> string`,
  given to the constructor and otherwise left abstract.
- The editor's cursor is a parameter of `SendCommand` and `ClearBuffer`. It
  must be a position in the buffer, as the editor guarantees. The message
  sent to the process is `SendCommand`'s result.
- The ring offset is an `int`. Recall on a ring with no entries moves the
  offset to 1 (or -1) and reads `undefined` (`None`)
  (`EmptyRingRecall`). The cursor is a valid index only once the ring has
  entries. Submitting a line through `popAndReset` and `push` from a
  non-negative offset settles the ring at offset 0, and every operation
  keeps it settled (`SubmitSettles`, `OperationsKeepSettled`). A `getNext`
  on a fresh ring leaves the offset at -1. `popAndReset` and `push` do not
  touch a negative offset, so such a ring is not settled; only
  `getPrevious` brings the offset back up
  (`NextOnFreshRingStaysUnsettled`). The ring keeps 49 lines besides the
  staging entry.
- A chunk that is empty after stripping is still inserted, and a new range
  is recorded. After empty output the boundary is the insertion point
  itself (`CommandSkipsColumnAfterBoundary`).
- The class invariant of `ComintBuffer` is that the buffer is well formed
  and the output boundary (`processInsertionEnd`) never lies past the
  insertion point.

## Model

| member | source | states |
|---|---|---|
| `CBuffer.Shift` | lib/input-ring.js:16 | `shift` drops the front element; an empty buffer is unchanged |
| `CBuffer.Unshift` | lib/input-ring.js:17-18 | `unshift` puts the element in front and keeps the others behind it; a full buffer loses its last element and stays at capacity |
| `CBuffer.RotateLeft` | lib/input-ring.js:55 | rotation keeps the length |
| `CBuffer.RotateRight` | lib/input-ring.js:57 | rotation keeps the length |
| `CBuffer.Get` | lib/input-ring.js:24 | `get(i)` yields the entry at `i` exactly when `i` is a live index, and no entry otherwise |
| `CBuffer.RotateShiftRotateRemoves` | lib/input-ring.js:55-57 | rotating left by `k`, shifting and rotating right by `k` gives `s[..k] + s[k+1..]` for `k` strictly between 0 and the length |
| `InputRing.ComintInputRing.constructor` | lib/input-ring.js:9-12 | a new ring has no entries and offset 0 |
| `InputRing.ComintInputRing.Push` | lib/input-ring.js:14-20 | the ring becomes `Pushed(old ring, input)`; the offset is untouched; capacity holds |
| `InputRing.PushByBufferOperations` | lib/input-ring.js:16-18 | shift, unshift(input), unshift("") computes `Take(["", input] + Shift(s), 50)` |
| `InputRing.PushShape` | lib/input-ring.js:14-18 | after a push: index 0 is `""`, index 1 the pushed line, the older entries follow in order, the length is at most 50; a full ring loses exactly its oldest entry |
| `InputRing.History` | lib/input-ring.js:14-18 | pushing `xs` onto a new ring gives `""` followed by the newest 49 lines of `xs`, newest first |
| `InputRing.ComintInputRing.IncOffset` | lib/input-ring.js:38-43 | the offset is incremented and wraps from `len - 1` to 0; it stays in `[0, len)` |
| `InputRing.ComintInputRing.DecOffset` | lib/input-ring.js:45-50 | the offset is decremented and wraps from 0 to `len - 1`; it stays in `[0, len)` |
| `InputRing.CursorWraps` | lib/input-ring.js:38-50 | both cursor moves keep an in-range offset in range and wrap at both ends |
| `InputRing.EmptyRingRecall` | lib/input-ring.js:22-50 | on an empty ring `getPrevious` moves the offset to 1 and `getNext` to -1, and neither finds an entry |
| `InputRing.ComintInputRing.GetPrevious` | lib/input-ring.js:22-28 | moves the cursor back, returns the entry under it and leaves the ring's contents unchanged |
| `InputRing.ComintInputRing.GetNext` | lib/input-ring.js:30-36 | moves the cursor forward, returns the entry under it and leaves the ring's contents unchanged |
| `InputRing.NextUndoesPrevious` | lib/input-ring.js:22-36 | neither move changes the contents; `getNext` after `getPrevious` (and the reverse) restores the offset |
| `InputRing.RecallWalksBack` | lib/input-ring.js:22-43 | `n` calls of `getPrevious` from the staging entry put the cursor on entry `n` |
| `InputRing.RecallCycles` | lib/input-ring.js:22-43 | as many calls as the ring has entries of `getPrevious` return to the staging entry |
| `InputRing.PreviousesStayInRange` | lib/input-ring.js:22-43 | repeated `getPrevious` keeps the contents and an in-range offset |
| `InputRing.NextsUndoPreviouses` | lib/input-ring.js:22-50 | `n` calls of `getNext` undo `n` calls of `getPrevious` |
| `InputRing.RecallReturnsHistory` | lib/input-ring.js:14-36 | after pushing any lines, the i-th `getPrevious` returns the i-th newest line for each of the newest 49, and as many `getNext` calls return to the staging entry |
| `InputRing.ComintInputRing.PopAndReset` | lib/input-ring.js:52-60 | with offset `k` in `(0, len)` the ring becomes `ring[..k] + ring[k+1..]` and the offset 0; with offset `<= 0` nothing changes |
| `InputRing.PopAndResetRemovesEntry` | lib/input-ring.js:54-58 | popAndReset removes exactly the entry under the cursor, keeps the others in order and resets the offset |
| `InputRing.PopAndResetIdempotent` | lib/input-ring.js:54 | popAndReset twice equals popAndReset once |
| `InputRing.OperationsKeepSettled` | lib/input-ring.js:14-59 | push, getPrevious, getNext and popAndReset keep a settled ring settled: staging entry in front, offset on a live entry, length at most 50 |
| `InputRing.SubmitSettles` | lib/input-ring.js:14-59 | popAndReset followed by push leaves a settled ring with offset 0, from any ring with a non-negative offset |
| `InputRing.NextOnFreshRingStaysUnsettled` | lib/input-ring.js:45-60 | after `getNext` on a fresh ring the offset is -1; `popAndReset` and `push` leave it there, so the ring `["", x]` is not settled |
| `TextBuffer.EndOf` | lib/comint-buffer.js:37 | the end of the buffer is a position in it |
| `TextBuffer.Clip` | lib/comint-buffer.js:37 | the clipped position is in the buffer, and a position already in it is unchanged |
| `TextBuffer.Normalized` | lib/comint-buffer.js:40-44 | a range starts at the earlier of its two positions |
| `TextBuffer.ClipRange` | lib/comint-buffer.js:44 | a clipped range lies in the buffer in order, and a range already in order in the buffer is unchanged |
| `TextBuffer.Split` | lib/comint-buffer.js:37 | the lines of a text hold no line breaks and join back to the text |
| `TextBuffer.Glue` | lib/comint-buffer.js:37 | gluing joins the last line of one line sequence to the first line of the next |
| `TextBuffer.JoinGlue` | lib/comint-buffer.js:37 | the text of glued line sequences is the concatenation of their texts |
| `TextBuffer.CutAt` | lib/comint-buffer.js:37 | cutting at a position and gluing back gives the lines again; the text before the cut has the position's offset as its length |
| `TextBuffer.OffsetBounds` | lib/comint-buffer.js:67 | offsets follow the row-major order of positions and stay within the text |
| `TextBuffer.ExtentOfText` | lib/comint-buffer.js:37-42 | a text's extent is zero for `""`, ends at a non-zero column when the text ends in another character, and at column 0 of a later row when it ends in a line break |
| `TextBuffer.LessIsOffsetOrder` | lib/comint-buffer.js:62 | `Less` (`Point.isLessThan`) holds exactly when the first position comes earlier in the buffer's text, in both directions |
| `TextBuffer.Insert` | lib/comint-buffer.js:37 | `insert` leaves a well-formed buffer, its range starts at the clipped position, the buffer gains as many rows as the range spans, and the rows before it are kept |
| `TextBuffer.Delete` | lib/comint-buffer.js:76 | `delete` leaves a well-formed buffer; the rows before and after the clipped range are kept and the rows it spans become one |
| `TextBuffer.TextInRange` | lib/comint-buffer.js:67 | `getTextInRange` reads as many characters as lie between the clipped range's offsets; within one row it reads that row between the two columns |
| `TextBuffer.MarkRange` | lib/comint-buffer.js:44 | `markRange` covers a range of the buffer in order, and a range already in order in the buffer as given |
| `TextBuffer.LineInText` | lib/comint-buffer.js:63 | each line is the buffer's text from its row's start, as long as the line |
| `TextBuffer.InsertSpec` | lib/comint-buffer.js:37 | insert splices the text into the buffer's text at the clipped position's offset; the range starts there, ends as many characters on as the text is long, and reads back as the text |
| `TextBuffer.DeleteSpec` | lib/comint-buffer.js:76 | delete removes exactly the text of the clipped range |
| `TextBuffer.DeleteLeadingRows` | lib/comint-buffer.js:76 | deleting from `(0,0)` to `(row,0)` leaves exactly the lines from `row` on |
| `Comint.InsertionEnd` | lib/comint-buffer.js:51-58 | the boundary is the recorded range's end, and the origin before any output |
| `Comint.ComintBuffer.ProcessInsertionEnd` | lib/comint-buffer.js:51-58 | the getter returns the marker's end, or `(0,0)` before any output, and never a position past the insertion point |
| `Comint.RenderedAll` | lib/comint-buffer.js:36-45 | successive renders keep the buffer well formed |
| `Comint.ComintBuffer.constructor` | lib/comint-buffer.js:14-20 | an empty buffer, the insertion point at `(0,0)` and no recorded output |
| `Comint.ComintBuffer.RenderOutput` | lib/comint-buffer.js:36-49 | the stripped output is spliced into the text at the insertion point; the point moves past it and never backwards |
| `Comint.RenderSpec` | lib/comint-buffer.js:37-45 | rendering inserts the text at the clipped insertion point; the new point is the inserted range's end, as many characters on as the text is long, never earlier; the range reads back as the text |
| `Comint.RecordedOutputRange` | lib/comint-buffer.js:40-58 | `processInsertionEnd` is the recorded range's end: one column before the new insertion point, or column 0; the range starts at the insertion start; for empty text the end is the insertion point |
| `Comint.CommandStartsAtInsertionPoint` | lib/comint-buffer.js:40-65 | after output that ends in a character other than a line break, one column past the boundary is exactly the new insertion point |
| `Comint.CommandSkipsColumnAfterBoundary` | lib/comint-buffer.js:40-65 | after empty output, or output ending in a line break, the boundary is the insertion point itself, so the command starts one column after it |
| `Comint.RenderedAllSpec` | lib/comint-buffer.js:36-45 | a sequence of renders inserts the concatenated chunks at the insertion point; the point only moves forward and ends past all of them |
| `Comint.ComintBuffer.SendCommand` | lib/comint-buffer.js:60-73 | before the boundary: the command is the cursor's line and the point stays. Otherwise: the command is the text from one column past the boundary to the cursor, and the point becomes the cursor. Then a line break is rendered, and the message is exactly the command plus `"\n"` |
| `Comint.SubmittedCommandPrecedesNewline` | lib/comint-buffer.js:64-70 | a command taken from after the boundary is the text just before the cursor; the rendered line break follows it, and the insertion point moves past that line break |
| `Comint.CommandAtBoundary` | lib/comint-buffer.js:65-67 | with the cursor exactly on the boundary the normalized range makes the command the single character under the cursor |
| `Comint.ComintBuffer.ClearBuffer` | lib/comint-buffer.js:75-77 | the remaining lines are exactly the old lines from the cursor's row on, and the text is the old text from that row's start |

## Left out

- lib/comint-mode.js, lib/shell-buffer.js, lib/terminal-process.js and
  lib/bash-autocomplete-plus-provider.js are not part of this model. They
  hold editor command wiring, configuration reading, pty spawning and IPC
  forwarding, and an adapter to a completion routine whose source is not
  available.
- The `ComintBuffer` constructor's process and editor set-up (opening the
  editor, `fork`, message handlers), `dispose`, scrolling
  (`scrollToBufferPosition`) and console logging are I/O.
- The constructor is modelled only as the state it leaves behind.
- `CBuffer` internals: only its sequence behaviour is modelled, and the
  `CBuffer` source is not part of this model. Rotating an empty sequence is
  a no-op here, whereas the library's rotation on an empty buffer may move
  an `undefined` element into it. The one place this shows is
  `getPrevious` followed by `popAndReset` on a fresh ring: the model leaves
  the ring empty, the library may leave an `undefined` entry in it. A `get`
  outside the live contents yields `None`; the real buffer may return a
  stale slot there, or on a full buffer a live entry by wrap-around (for
  example `get(-2)` reads the entry at index 48).
- Marker movement: the recorded output range is stored as computed when it
  was rendered. Editor markers with `invalidate: 'never'` move with later
  edits, including the rows `clearBuffer` deletes. The model does not.
  The marker is not exclusive, so text typed at its end extends it. After
  output that is empty or ends in a line break, the boundary is the
  insertion point itself, and text typed there moves the boundary to the
  end of that text: the program then sends an empty command, whereas the
  model's fixed range drops only the first typed character.
- `ClearBuffer` leaves `processInsertionPoint` as it was: it is a plain
  point, not a marker, so after a clear it can lie outside the buffer. The
  next render clips it. The monotonicity in `RenderOutput` and
  `RenderedAllSpec` is stated for an insertion point inside the buffer.
- Line endings other than `"\n"` (`"\r\n"`, `"\r"`) are not treated as line
  breaks.
- `AnsiUp.ansi_to_text` is abstract: the model does not say which
  characters it strips.
- Edits the user makes between calls are not modelled. They are whatever
  buffer state the next call starts from.

# kilo-rs editor core in Dafny

This project models `src/editor.rs` of kilo-rs, a small terminal editor in the
style of kilo, and proves properties of the model. The editor has three parts
that share its state (screen size and cursor):

- the **key decoder** (`get_key`, `handle_esc_key`) turns the bytes typed at
  the terminal into keys: arrows, Home, End, PageUp, PageDown, Delete, or a
  plain byte;
- the **cursor state machine** (`handle_keypress`, `move_cursor`) updates the
  cursor in place: arrows and PageUp/PageDown move it by clamped single steps,
  Home and End set its column;
- the **renderer** (`draw_rows`, `refresh_screen`) writes one frame: `~` rows,
  the centred banner "kilo-rs -- version 0.0.1" on row rows/3, the Erase in
  Line control `ESC [ K` (section 8.3.41 of ECMA-48) after every row, and
  CR LF between rows.

Files and modules:

- `terminal.dfy` (`Terminal`): bytes, the single I/O failure, a
  failure-compatible `Result`, the output calls as tokens (`Output`), and the
  bytes a trace of them writes (`Written`, `Text`).
- `keys.dfy` (`Keys`): the decoder as a pure function `Decode` returning the
  key and the number of bytes consumed. It comes with a table of the
  recognised escape sequences and an encoder that the decoder inverts.
- `cursor.dfy` (`Cursor`): what a key does to the cursor, as functions
  (`Step`, `Steps`, `Transition`).
- `render.dfy` (`Render`): the bytes of the screen (`Screen`), the shape of a
  frame (`Frame`), and what they contain.
- `editor.dfy` (`Kilo`): `class Editor` with the source's fields. Its inputs
  are the bytes the terminal will deliver and a read position; its output is
  the trace of calls made on the terminal. Its methods are the source's
  methods, proved against the functions of the other modules.

A read from the terminal takes the next input byte, or fails once the input is
exhausted. The model follows the code where it differs from a description of
the editor as an idealised decoder:

- after ESC the code always reads two bytes before looking at either, so ESC
  followed by any byte other than `[` still consumes three bytes;
- a failed read after ESC yields the key ESC. Reads fail only at the end of
  the input, so the whole input has then been consumed;
- the second prefix is the digit `0` (0x30), not the letter `O` sent by SS3
  sequences.

## Model

| member | source | states |
|---|---|---|
| Keys.Decode | src/editor.rs:88-93 | decoding fails exactly on empty input (the failed first read is returned); otherwise it consumes at least one byte and never more than there are |
| Keys.DecodeFirstByte | src/editor.rs:88-93 | a first byte other than ESC is the key `Simple(b)` after one read; empty input is an error |
| Keys.DecodeConsumed | src/editor.rs:47-60 | bytes consumed: 1 without ESC; after ESC, 4 for ESC `[` digit and 3 otherwise, or all of a shorter input; nothing is given back |
| Keys.DecodeKnownEscape | src/editor.rs:51-82 | each of the 15 recognised sequences (arrows, ESC[H/F, ESC0H/F, ESC[d~ for d in 1,3,4,5,6,7,8) decodes to its key and consumes exactly its bytes, whatever follows |
| Keys.DecodeEscapeRecognised | src/editor.rs:51-85 | conversely, an ESC input decodes to a key other than ESC only if the consumed bytes are a recognised sequence for that key |
| Keys.DecodeUnknownEscape | src/editor.rs:69-85 | an ESC input with no recognised sequence as a prefix decodes to ESC, consuming the whole probe or all of a shorter input |
| Keys.DecodeTruncatedEscape | src/editor.rs:91 | an escape sequence cut short by the end of input is the key ESC, not an error, and consumes the whole input |
| Keys.DecodeIgnoresLaterBytes | src/editor.rs:47-60 | once all of its reads succeed, the decoder's result does not depend on later bytes |
| Keys.DecodeEncode | src/editor.rs:47-93 | decoding the canonical encoding of any key gives the key back and consumes exactly that encoding |
| Keys.DecodeAllEncodeAll | src/editor.rs:88-94 | a stream of encoded keys decodes, one `get_key` after another, to exactly those keys in order |
| Cursor.StepClamps | src/editor.rs:121-129 | a step keeps the cursor on the screen and is the clamped move: column max(col-1,0) or min(col+1,cols-1), row max(row-1,0) or min(row+1,rows-1) |
| Cursor.StepDistance | src/editor.rs:121-129 | a step changes at most one coordinate, by exactly one, and changes nothing exactly when the cursor is at the edge it moves towards |
| Cursor.StepsClamp | src/editor.rs:99-108 | n steps in one direction move the cursor n cells, stopped at the edge, and leave the other coordinate alone |
| Cursor.TransitionInBounds | src/editor.rs:95-129 | every key leaves a cursor that was on the screen on the screen |
| Cursor.TransitionKeys | src/editor.rs:97-117 | Home goes to column 0 and End to column cols-1 on the same row; PageUp ends at max(row-rows,0) and PageDown at min(row+rows,rows-1) in the same column, that is at row 0 and row rows-1 from anywhere on the screen; Delete and plain bytes change nothing |
| Render.Welcome | src/editor.rs:143-146 | the banner drawn is a prefix of the banner, its full length when it fits and `cols` bytes otherwise |
| Render.BannerPrintable | src/editor.rs:7-8 | the banner is 24 bytes, all printable |
| Render.BannerRowFits | src/editor.rs:143-153 | the banner row fits in `cols`, is printable, is the padding followed by the banner, padding = (cols - len)/2 leaves at most one more cell on the right than on the left, and padding is `~` then spaces |
| Render.BannerRowPlain | src/editor.rs:143-153 | the banner row holds no ESC, CR or LF |
| Render.ScreenIsJoin | src/editor.rs:140-164 | the screen is its rows joined by CR LF, nothing after the last; every row is its text and `ESC [ K`; the banner row is row rows/3 and every other row is `~` |
| Render.ScreenCounts | src/editor.rs:158-161 | the screen holds exactly `rows` ESC bytes, one per erase code, `rows - 1` CRs and `rows - 1` LFs, and ends with the erase code |
| Render.FrameWritten | src/editor.rs:131-138 | a frame writes exactly the bytes of its rows |
| Render.FrameFlushedOnce | src/editor.rs:131-138 | a frame starts with hide and home, has exactly one flush, as its last call; its writes are exactly the calls between homing and moving the cursor; after them the move goes to (row+1, col+1), a screen cell counted from 1, then the cursor is shown |
| Kilo.Editor.constructor | src/editor.rs:38-43 | the editor starts with the cursor at (0, 0), nothing read and nothing written |
| Kilo.Editor.ReadByte | src/editor.rs:48-49 | a read takes the next input byte, or fails and takes nothing once the input is exhausted |
| Kilo.Editor.HandleEscKey | src/editor.rs:47-86 | the key and the bytes read are those of `EscapeSequence` on the remaining input; a failed read is returned with the input exhausted |
| Kilo.Editor.GetKey | src/editor.rs:88-94 | the key and the read position advance exactly as `Decode` of the remaining input says; a failure of the first read is returned and reads nothing |
| Kilo.Editor.MoveCursor | src/editor.rs:121-129 | the cursor becomes `Step` of the old cursor and stays on the screen |
| Kilo.Editor.HandleKeypress | src/editor.rs:95-119 | on a failed first read: an error and nothing changes; otherwise the input advances by the key's bytes, the cursor becomes `Transition` of the old cursor and stays on the screen, and the result requests exit exactly for the quit key |
| Kilo.Editor.DrawPadding | src/editor.rs:148-153 | the padding is sent as writes whose bytes are `~` and padding-1 spaces, or nothing without padding |
| Kilo.Editor.DrawWelcome | src/editor.rs:142-154 | the banner row is sent as writes only, whose bytes are `BannerRow(cols)` |
| Kilo.Editor.DrawRowText | src/editor.rs:142-157 | row r's text is sent as writes only: the banner row on row rows/3, `~` elsewhere |
| Kilo.Editor.DrawRow | src/editor.rs:141-161 | one pass of the row loop sends writes only, whose bytes are the row's line: text, erase code, CR LF unless last |
| Kilo.Editor.DrawRows | src/editor.rs:140-164 | `draw_rows` appends only writes to the output, and they write exactly `Screen(rows, cols)` |
| Kilo.Editor.RefreshScreen | src/editor.rs:131-138 | `refresh_screen` appends exactly one `Frame` around the rows' writes, with the cursor moved to (c_row+1, c_col+1), and the rows write `Screen(rows, cols)` |

## Left out

- `src/terminal.rs` is not part of this model: raw mode, `screen_size`, the
  escape strings behind hide, show, home and move-to, `clean_exit` and `ctrl`.
  The cursor calls are abstract `Output` tokens.
- Kilo.Editor.ReadByte: `read_key` and `read_byte` are one read that takes a
  byte or fails at the end of the input. Retries and read timeouts are not
  modelled.
- Kilo.Editor.HandleKeypress: the quit key is the byte 0x11, Ctrl-Q under the
  usual 0x1f mask of `ctrl(b'q')`. Instead of calling `clean_exit`, the method
  returns whether the key requests exit.
- Kilo.Editor.constructor: `Editor::new` gets the screen size from the terminal
  and ignores the result of `enable_raw_mode`. The constructor takes the size as
  parameters and requires it to be positive, as the `cols - 1` and `rows - 1` on
  `usize` in `handle_keypress` and `move_cursor` (src/editor.rs:110, 124, 126)
  need. `draw_rows` works for every size, and the drawing methods require
  nothing.
- `Drop for Editor`, `src/main.rs` (the driver loop, process entry and `die`)
  and `src/error.rs` (the error enum and its conversions) are not modelled.
  I/O failure is the single case `IoError`.
- Writes and flushes do not fail in the model. Their `?` paths in
  `draw_rows` and `refresh_screen` cannot be taken.
- The output is a trace of calls in the order they are made. What reaches the
  screen before a flush is not modelled.
- `DrawPadding`, `DrawWelcome`, `DrawRowText` and `DrawRow` are pieces of
  `draw_rows` split out as methods. The statements they run, and the order they
  run them in, are those of the loop body.

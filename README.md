# A verified model of a streaming Brainfuck lexer

The lexer of `src/main.rs` reads a Brainfuck source one byte at a time. It keeps
the eight significant symbols `> < + - . , [ ]` and skips every other byte
(comments, whitespace, NUL, non-ASCII). For each byte it reads, it updates a
line/column `Location`. Each token it emits is a symbol plus a copy of the
location. A one-token lookahead slot (`peeked_token`) supports `peek`.

The model has five parts:

- `Tokens` (tokens.dfy): `byte`, `Location` with `Location::default`, `Token`,
  the membership test `InLanguage`, and `Advance`, the per-byte position rule
  that `next` applies.
- `Scanning` (scanning.dfy): the lexer as functions on its state
  (`LexState`: reader cursor, location, lookahead slot). `Scan` is the
  `while` loop of `next`, taken at the loop head, with the one-byte buffer as
  a parameter. `Next` and `Peek` are the two public operations. `Drain` is the
  stream of tokens that repeated `next` calls return.
- `Lexer` (lexer.dfy): the imperative object. `Source` is an in-memory reader
  with a read cursor; its `Read` fills a one-byte `array`. `Lexer` has the
  fields `source`, `location` and `peeked`. Its `Next` runs the source's loop
  over a fresh one-byte buffer, and both `Next` and `Peek` are proved to
  produce the result and new state that `Scanning.Next` and `Scanning.Peek`
  give for the old state.
- `Positions` (positions.dfy), `Filtering` (filtering.dfy) and `Lookahead`
  (lookahead.dfy): what the lexer guarantees, proved about the functions in
  `Scanning`.
- `Examples` (examples.dfy): concrete sources and their tokens.

The reader is a script of read outcomes. Each outcome is either `Byte(b)` or
`Fault`, an abstract I/O failure. A read at the end of the script delivers
zero bytes and leaves the buffer as it was. A failed read consumes its script
entry, leaves the buffer alone and aborts the `next` or `peek` call. The
failing read's own column and newline update is not applied, but the updates
of bytes skipped earlier in the same call remain
(`Examples.FailureAfterSkippedByte`). `peek` then leaves the slot empty.

Conventions followed exactly as the code has them:

- The column is incremented before the token is stamped. The first byte of a
  file is therefore at column 2, and so is the first byte after a newline.
- At end of input the stale byte in the buffer is tested for a newline again.
  A `next` call that reads a newline and then meets the end advances `line`
  twice (`Lookahead.TrailingNewlineCountsTwice`).
- After end of input, each further `next` resets the buffer to 0 and reads
  zero bytes. It returns `None` and still advances the column.

Stamping before the increment would put the first `+` of `+[>,.]` newline `-`
at (1,1) and the `+` of `hello+world` at column 6. The code stamps after the
increment, at (1,2) and column 7 (`Examples.SmallProgram`,
`Examples.CommentAround`).

## Model

| member | source | states |
|---|---|---|
| `Tokens.Location.Default` | src/main.rs:19-26 | the initial location is line 1, column 1 |
| `Tokens.InLanguage` | src/main.rs:55-60 | a byte is in the language exactly when it is one of `> < + - . , [ ]`; NUL, newline and non-ASCII bytes never are |
| `Tokens.Advance` | src/main.rs:75-80 | each byte read adds 1 to the column; a newline then adds 1 to the line and sets the column to 1; any other byte leaves the line alone |
| `Positions.AdvanceMovesForward` | src/main.rs:75-80 | every read step moves the location strictly forward in (line, column) order |
| `Positions.WalkClosedForm` | src/main.rs:75-80 | after the first n bytes of a file, the line is 1 + the number of newlines read and the column is 1 + the number of bytes since the last newline |
| `Positions.WalkMovesForward` | src/main.rs:75-80 | reading any non-empty run of bytes moves the location strictly forward in (line, column) order |
| `Scanning.Fresh` | src/main.rs:48-53 | a new lexer is at (1,1) with an empty slot and the reader's cursor untouched |
| `Scanning.Scan` | src/main.rs:70-92 | the loop stops at the first in-language byte and returns it, stamped with the location after that byte's update; every byte it passes over is a skipped one; end of input is reported only with the reader at the end; a failure is reported only after a failing read |
| `Scanning.Next` | src/main.rs:62-95 | a token in the slot is returned and the slot emptied, with nothing read and the location unchanged; otherwise a returned token is the byte just read, and end of input means the reader is exhausted |
| `Scanning.Peek` | src/main.rs:98-105 | a token in the slot is returned with nothing changed; otherwise the slot afterwards holds exactly what was returned, and stays empty on failure |
| `Lexer.Source.Read` | src/main.rs:73 | a one-byte read delivers the next byte (1), nothing at the end (0, buffer untouched) or a failure (buffer untouched) |
| `Lexer.Lexer.constructor` | src/main.rs:48-53 | the lexer starts at (1,1) with an empty slot and leaves the reader untouched |
| `Lexer.Lexer.Next` | src/main.rs:62-95 | the method's result and new state are those `Scanning.Next` gives for the old state |
| `Lexer.Lexer.Peek` | src/main.rs:98-105 | the method's result and new state are those `Scanning.Peek` gives for the old state |
| `Filtering.Lexes` | src/main.rs:70-92 | the `next` calls of a fresh lexer over a source with no failures return exactly the intended token stream |
| `Filtering.ExpectedSymbols` | src/main.rs:71-92 | the stream's symbols are exactly the in-language bytes of the source, in source order |
| `Filtering.ExpectedMembers` | src/main.rs:89-92 | every token comes from an in-language byte, stamped with the location after reading that byte, and every in-language byte yields such a token |
| `Filtering.ExpectedOrdered` | src/main.rs:75-92 | token locations strictly increase along the stream and never pass the location after the last byte |
| `Filtering.NoSymbolsNoTokens` | src/main.rs:70-86 | a source with no in-language byte gives end of input on the first `next` |
| `Filtering.ScanStamp` | src/main.rs:70-92 | one run of the loop over a source with no failures returns the first token of what is left, and never fails |
| `Filtering.DrainStamp` | src/main.rs:62-92 | from any point of such a source, repeated `next` calls produce the tokens of the remaining bytes |
| `Lookahead.NextAtEnd` | src/main.rs:70-84 | `next` at the end of the source returns `None` and advances only the column, by 1 |
| `Lookahead.EndOfInputIsFinal` | src/main.rs:70-84 | after `next` has returned `None`, every later `next` returns `None` again, and n more calls advance the column by n |
| `Lookahead.ScanStaleByte` | src/main.rs:70-84 | a loop meeting the end after only skipped bytes returns `None`; the last skipped byte gets the position update twice |
| `Lookahead.EndOfInputReappliesLastByte` | src/main.rs:77-84 | `next` over a tail of skipped bytes returns `None` at the location after them plus one more update for the last byte |
| `Lookahead.TrailingNewlineCountsTwice` | src/main.rs:77-84 | a newline read just before the end advances the line twice and leaves the column at 1 |
| `Lookahead.NextTakesPeeked` | src/main.rs:64-67 | with a token in the slot, `next` returns it, empties the slot and changes neither the cursor nor the location |
| `Lookahead.PeekTwice` | src/main.rs:98-101 | two `peek`s in a row return the same result; when it is a token, the second changes nothing |
| `Lookahead.PeekThenNext` | src/main.rs:98-105 | `next` after `peek` returns what `peek` returned; after a token, the two calls leave the same state as a single `next` |
| `Lookahead.PeekAtEnd` | src/main.rs:103-104 | `peek` at the end of the source returns `None` and leaves the slot empty |
| `Lookahead.FailurePropagates` | src/main.rs:103 | a failing read inside `peek` propagates the failure, the slot stays empty, and the failure came from a failing read |
| `Examples.FirstByteIsColumnTwo` | src/main.rs:75 | a `+` at the start of a file is stamped (1,2) |
| `Examples.SmallProgram` | src/main.rs:70-92 | `+[>,.]` newline `-` gives seven tokens, from (1,2) to (1,7) and `-` at (2,2) |
| `Examples.CommentAround` | src/main.rs:70-92 | `hello+world` yields one token, `+` at (1,7) |
| `Examples.FailureAfterSkippedByte` | src/main.rs:73-80 | a read failing after a skipped byte returns the failure; the skipped byte's update stays and the failing read adds none |
| `Examples.EmptySource` | src/main.rs:70-105 | on an empty source `next` returns `None`, and so do two `peek`s in a row |

## Left out

- `main` (command-line arguments, opening the file, `BufReader`, printing) is I/O glue around the lexer.
- The `Operation` enum is declared but never used.
- The generic reader `R: Read` is an in-memory script of read outcomes. A real reader's blocking and partial reads are not modelled. The program never retries a failed read: every error goes straight to the caller.
- The `anyhow` context strings are not modelled. A failure is the single value `ReadError`.
- The `u8`-to-`char` conversion is not modelled. Tokens carry the byte itself, and no byte of 128 or more is ever in the language.
- `Lexer.Lexer.Next`: does not model `usize` overflow of `line` and `column`. The counters are unbounded. On a 32-bit target a single-line file of more than 4 GiB, streamed through `BufReader`, would overflow `column`, and so would about 2^32 `next` calls after end of input, each of which adds 1 to `column` without reading a byte.

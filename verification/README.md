# libmacro streaming search engine, in Dafny

libmacro is a small C library for stream-based text macros. A caller opens a
source file and a target file, then loops over `lm_find*` calls until
`lm_isEOF` reports end-of-file. Each call scans forward for a literal needle,
copies every skipped byte to the target, and then, on a match, either stops at
the match (`lm_find`) or repositions the source and/or writes to the target.
The repositioning options are: replace the match, skip N bytes, skip to the end
of the line, or skip to the end of the file.

The search is a sliding window (`lm_find`, src/libmacro.c:149-189). The window
is `strnlen(needle, 256)` bytes wide. Each pass reads one window and compares it
with `strncmp`. On a mismatch it writes the window's first byte and seeks back
`bytesRead - 1`. On a match it seeks back to the window start. It gives up only
when a read returns zero bytes.

This project models that engine as pure functions over one state value,
`TextHandle(src, pos, out, eof)`:

- `src` is the source file's bytes.
- `pos` is the source file position.
- `out` is everything written to the target so far.
- `eof` is the source stream's end-of-file indicator.

The files are:

- `cstrings.dfy` (module `CStrings`): bytes, C-string contents (no NUL), and
  `strncmp`. It proves that the window test at line 176 is exactly byte-sequence
  equality with the needle's first `w` bytes. A short window, or one that holds
  a NUL, never compares equal.
- `stdio.dfy` (module `Stdio`): the handle and the stdio calls the engine makes:
  `fread`, `fseek(SEEK_CUR)`, `fseek(SEEK_END)`, `rewind`, `fgetc`, `fputc`,
  `fwrite`. The seeks and `rewind` clear the end-of-file indicator as sections
  7.21.9.2 and 7.21.9.5 of ISO/IEC 9899:2011 say. The model's reads ignore an
  indicator that is already set, unlike section 7.21.7.1. `ReadsAgreeWithStickyEof`
  proves they agree with C's reads on every handle satisfying `EofOnlyAtEnd`,
  which is every reachable handle.
- `search.dfy` (module `Search`): the window width, "the needle matches at
  offset i", and the reference search `FirstMatch`. Its contract says the result
  is `Some(i)` exactly when `i` is the first match at or after the start offset.
- `libmacro.dfy` (module `LibMacro`): the operations. `Find` is the functional
  `lm_find`. `ScanPass` is one pass of its loop. `LmFind` is the C loop as a
  method, proved equal to `Find`. The `lm_find*` family comes next.
  `FgetcThroughNewline` is the `fgetc` loop of the line-end operations, and
  `LmFindDeleteLineEnd` runs it after `LmFind`.
- `properties.dfy` (module `Properties`): lemmas across calls. They cover
  idempotence at a match, the 256-byte window limit, the empty needle, the link
  between `lm_isEOF` and the found/not-found result, `lm_rewind`, the invariant
  "eof only at or past the end", and one worked round of the fox/dog loop in
  test.c.
- `macroloop.dfy` (module `MacroLoop`): the caller loop
  `while (!lm_isEOF(h)) lm_findReplace(h, needle, repl);` from macros/lm_fix.c.
  It is proved to write exactly `ReplaceAll`, a reference "replace every
  occurrence" defined byte by byte, and to stop at end-of-file.

A few modelling choices:

- A needle or replacement string is the contents of a C string: its bytes
  before the terminator, so it contains no NUL (`IsCString`). The source bytes
  may contain anything.
- `lm_find`'s integer result 1/0 is the `found` field of `Outcome`.
- The position may lie past the end of the source, for example after
  `lm_findDeleteNum` skips beyond the last byte. A read there returns nothing.
  So the next search emits nothing and reports not-found at that position.
- `lm_findDeleteNum` with a target before offset 0 makes `fseek` fail. POSIX
  (`fseek`, EINVAL) says the offset is then left unchanged, so the model leaves
  the position at the match start. The C code ignores the failure and still
  returns 1.
- `strnlen` cuts needles longer than 256 bytes to 256, and nothing rejects them.
- An empty needle finds nothing and changes nothing, because a request to
  `fread` zero bytes leaves the stream as it is.
- `lm_findDeleteToFound`, called at macros/test.c:21, is declared and defined
  nowhere.

## Model

| member | source | states |
|---|---|---|
| CStrings.StrNCmpEqualIsPrefixEquality | src/libmacro.c:160-176 | `strncmp` of the window (NUL-terminated at the count read) with a C-string needle over `w` bytes is zero exactly when the window equals the needle's first `w` bytes. A short window, or one containing a NUL, compares unequal. |
| Search.FirstMatch | src/libmacro.c:168-184 | Returns `Some(i)` exactly when `i` is the first offset at or after the start where the needle's window matches in full. Returns `None` exactly when no offset matches. |
| Search.NextNewline | src/libmacro.c:226-230 | The first '\n' at or after an offset, with no '\n' before it. `None` exactly when the rest of the source holds no '\n'. |
| LibMacro.Find | src/libmacro.c:149-189 | Found: the position is the first match at or after the old position, and the target gained exactly the bytes before it. The match is not consumed and eof is clear. Not found: no match exists, every remaining byte (a short tail included) was appended in order, the position is at or past the end, and eof is set. An empty needle returns not-found with the handle unchanged. The source never changes. |
| LibMacro.ScanPass | src/libmacro.c:169-186 | One pass of the loop. It ends in a match exactly when the window at the position matches; the position is then unchanged and eof cleared. It slides exactly when a mismatch leaves bytes to read; it then advances by one and appends exactly `src[pos]`. Otherwise the read was empty: nothing moves and eof is set for a non-empty needle. |
| LibMacro.LmFind | src/libmacro.c:149-189 | The C loop, one `ScanPass` after another until a read is empty or a window matches, returns the same result and handle as `Find`. |
| LibMacro.FindReplace | src/libmacro.c:191-203 | At the first match `i`: the position becomes `i + strlen(needle)` (full length, not the 256-byte window), and the target gains `src[pos..i]` followed by the replacement. Not found: the same result as `Find`. |
| LibMacro.FindDeleteNum | src/libmacro.c:205-216 | At the first match `i`: the position becomes `i + numChars`, or stays at `i` when that seek would go before offset 0. Only the bytes before the match are written and eof is clear. Not found: the same result as `Find`. |
| LibMacro.FindMoveNum | src/libmacro.c:249-260 | Defined as a call to `FindDeleteNum`, since the C body is the same; the same promise. |
| LibMacro.FindDeleteLineEnd | src/libmacro.c:218-234 | At the first match `i`: the position is one past the first '\n' at or after `i`, only the bytes before the match are written, and eof is clear. Not found: the same result as `Find`. Requires a '\n' after the match. |
| LibMacro.FindMoveLineEnd | src/libmacro.c:262-278 | Defined as a call to `FindDeleteLineEnd`, since the C body is the same; the same promise. |
| LibMacro.FindStopsAtFirstMatch | src/libmacro.c:168-188 | When `i` is the first match at or after the position, `lm_find` returns found, stops at `i` with eof clear, and has written exactly `src[pos..i]`. |
| LibMacro.FindRunsToEnd | src/libmacro.c:168-174 | When no match starts at or after the position, a non-empty needle's `lm_find` returns not-found with every remaining byte written, the position at the end (or where it was, if past it), and eof set. |
| LibMacro.FgetcThroughNewline | src/libmacro.c:226-230 | With the indicator clear and a '\n' ahead, the `fgetc` loop stops one past the first '\n' at or after the position, and changes nothing else: no output, eof still clear. |
| LibMacro.LmFindDeleteLineEnd | src/libmacro.c:218-234 | `lm_find` followed by the `fgetc` loop until '\n' gives the same result and handle as `FindDeleteLineEnd`. |
| LibMacro.FindDeleteFileEnd | src/libmacro.c:236-247 | At the first match `i`: the position is the end of the source, eof is clear (the seek clears it), and the target gained exactly `src[pos..i]`. Not found: the same result as `Find`. |
| LibMacro.FindMoveFileEnd | src/libmacro.c:280-291 | Defined as a call to `FindDeleteFileEnd`, since the C body is the same; the same promise. |
| Properties.FindIdempotentAtMatch | src/libmacro.c:176-188 | After a found `lm_find`, the same call again returns found with the same handle: nothing appended, position unchanged. |
| Properties.LongNeedleComparedOnPrefix | src/libmacro.c:160 | A needle longer than 256 bytes searches exactly like its first 256 bytes. |
| Properties.LongNeedleReplaceSkipsWholeNeedle | src/libmacro.c:195-199 | When the first 256 bytes of an over-long needle sit at the position, `lm_findReplace` replaces and skips the needle's full length, whatever bytes follow. |
| Properties.EmptyNeedleIsInert | src/libmacro.c:169-174 | With an empty needle every operation returns not-found and leaves position, output and eof as they were. |
| Properties.EofReportsNotFound | src/libmacro.c:127-130 | States `lm_isEOF` (`LibMacro.IsEof`, the source's end-of-file indicator): for a non-empty needle, it is true after any operation exactly when that operation's search found nothing. |
| Properties.RewindRescansSource | src/libmacro.c:132-135 | States `lm_rewind` (`LibMacro.RewindSource`): afterwards the position is 0, the source and output are kept, and eof is clear. A search then finds the needle exactly when it occurs anywhere in the source. Otherwise, for a non-empty needle, it appends the whole source. |
| Stdio.ReadsAgreeWithStickyEof | src/libmacro.c:169-174 | On a handle whose end-of-file indicator is set only at or past the end, the model's `fread` and `fgetc` return what C's reads return, where a set indicator stops every read. |
| Properties.OperationsKeepEofOnlyAtEnd | src/libmacro.c:168-186 | Every operation and `lm_rewind` preserves "the end-of-file indicator is set only at or past the end of the source". |
| MacroLoop.ReplaceAllUpToFirstMatch | src/libmacro.c:168-186 | Replacing every occurrence from an offset keeps the bytes before the first match unchanged, writes the replacement, and continues right after the needle. |
| MacroLoop.ReplaceAllWithoutMatch | src/libmacro.c:168-183 | When no match starts at or after an offset, replacing every occurrence from there gives the remaining bytes unchanged. |
| MacroLoop.FindReplaceDoesItsShare | src/libmacro.c:191-203 | One `lm_findReplace` writes a prefix of the replace-all: its output followed by the replace-all from its new position equals the replace-all from where it started. A found call moves strictly forward with eof clear; a call that finds nothing leaves nothing and sets eof. |
| MacroLoop.ReplaceUntilEof | macros/lm_fix.c:10-12 | For a non-empty needle, calling `lm_findReplace` until `lm_isEOF` terminates. It ends at end-of-file, and the target gains the rest of the source with every left-to-right, non-overlapping match replaced. |
| Properties.FoxDogLoopRound | test.c:10-13 | On "the quick fox jumps", replacing fox with dog and then dog with fox finds the first and not the second. The target reads "the quick dog jumps" and `lm_isEOF` ends the loop. |

## Left out

- Argument parsing and usage text (`lm_printStdUsage`, `lm_openWithStdArgs`): `argv` handling, `printf` and `exit`, with no search logic.
- Handle lifecycle (`lm_open`, `lm_close`): `fopen`, `malloc`, `sprintf` and error strings are I/O and memory management. The model starts from a handle at offset 0 with eof clear. Known defects there are not modelled: the handle leaks on a failed open, and `pszOutputText` is freed without ever being set.
- `lm_getLastError` and the error-code constants: heap string copying only.
- The line-end operations when no '\n' follows the match: the `fgetc` loop never ends, because `EOF` is not '\n'. `FindDeleteLineEnd`, `FindMoveLineEnd` and `LmFindDeleteLineEnd` require a newline at or after the match instead of modelling the divergence.
- `numChars` is a C `long`. The model uses unbounded integers, so an offset sum that overflows `long` is not modelled.
- Read errors: the C code treats a failed read like end-of-file. The model has no read errors.
- Text-mode newline translation (`"rt"`, `"wt"`), `fflush`/`fclose` effects and the unused `LIBMACRO_READ_BUFFER_SIZE`.
- The driver programs test.c, macros/test.c and macros/lm_fix.c: argument handling and file opening are not modelled. Two things are: the replace loop of macros/lm_fix.c (`ReplaceUntilEof`) and one worked round of test.c's loop (`FoxDogLoopRound`). macros/test.c also calls `lm_findDeleteToFound`, which does not exist.
- Stdio.Fread, Stdio.Fgetc: they ignore an end-of-file indicator that is already set, while C's reads return nothing then (section 7.21.7.1 of ISO/IEC 9899:2011). `ReadsAgreeWithStickyEof` proves they agree on every handle satisfying `EofOnlyAtEnd`, and `OperationsKeepEofOnlyAtEnd` proves every reachable handle does. A handle with the indicator set before the end is not modelled as C would treat it.
- MacroLoop.ReplaceUntilEof: requires a non-empty needle, as at macros/lm_fix.c:11. With an empty needle the C loop `while (!lm_isEOF(h)) lm_findReplace(h, "", r);` never ends: a zero-byte read never sets the indicator (`EmptyNeedleIsInert`).

/**
 * The slice of <stdio.h> the engine drives, over one value that stands for a
 * text handle (src/libmacro.c:23-31): the source file's bytes, its read
 * position and end-of-file indicator, and everything written to the target.
 */
module Stdio {
  import opened CStrings

  /**
   * `src` is the source file, `pos` its file position (it may lie past the end
   * after a forward seek), `out` the bytes written to the target so far, `eof`
   * the source stream's end-of-file indicator that `lm_isEOF` reports.
   */
  datatype TextHandle = TextHandle(src: seq<byte>, pos: nat, out: seq<byte>, eof: bool)

  /** `fgetc`'s end-of-file result. */
  const EOF: int := -1

  /**
   * `fread(buf, 1, n, source)`: the bytes read and the stream afterwards. A read
   * that comes back short has hit end-of-file and sets the indicator; a request
   * for zero bytes leaves the stream as it was (section 7.21.8.1 of ISO/IEC
   * 9899:2011). Unlike C, this read ignores an indicator that is already set;
   * `ReadsAgreeWithStickyEof` shows that this makes no difference on any handle
   * satisfying `EofOnlyAtEnd`.
   */
  function Fread(h: TextHandle, n: nat): (seq<byte>, TextHandle) {
    var avail := Rest(h.src, h.pos);
    var count := if n <= |avail| then n else |avail|;
    (avail[..count], h.(pos := h.pos + count, eof := h.eof || count < n))
  }

  /**
   * `fseek(source, offset, SEEK_CUR)`. A successful seek clears the end-of-file
   * indicator (section 7.21.9.2 of ISO/IEC 9899:2011); a target before offset 0
   * fails and leaves the stream unchanged (EINVAL in POSIX.1-2017 `fseek`).
   */
  function FseekCur(h: TextHandle, offset: int): TextHandle {
    if h.pos + offset < 0 then h else h.(pos := h.pos + offset, eof := false)
  }

  /** `fseek(source, 0L, SEEK_END)`: to the end of the file, indicator cleared. */
  function FseekEnd(h: TextHandle): TextHandle {
    h.(pos := |h.src|, eof := false)
  }

  /** `rewind(source)`: to offset 0, indicator cleared (section 7.21.9.5 of ISO/IEC 9899:2011). */
  function Rewind(h: TextHandle): TextHandle {
    h.(pos := 0, eof := false)
  }

  /**
   * `fgetc(source)`: the next byte and one step on, or EOF with the indicator
   * set. Like `Fread`, it ignores an indicator that is already set.
   */
  function Fgetc(h: TextHandle): (int, TextHandle) {
    if h.pos < |h.src| then (h.src[h.pos] as int, h.(pos := h.pos + 1))
    else (EOF, h.(eof := true))
  }

  /** `fputc(b, target)`. */
  function Fputc(h: TextHandle, b: byte): TextHandle {
    h.(out := h.out + [b])
  }

  /** `fwrite(bytes, 1, |bytes|, target)`. */
  function Fwrite(h: TextHandle, bytes: seq<byte>): TextHandle {
    h.(out := h.out + bytes)
  }

  /**
   * The end-of-file indicator is set only at or past the end of the source.
   * `lm_open` starts at offset 0 with it clear, and no operation sets it
   * anywhere else (`OperationsKeepEofOnlyAtEnd`), so every reachable handle
   * satisfies this.
   */
  ghost predicate EofOnlyAtEnd(h: TextHandle) {
    h.eof ==> h.pos >= |h.src|
  }

  /**
   * `fread` as section 7.21.8.1 of ISO/IEC 9899:2011 defines it, through
   * `fgetc`, which returns EOF whenever the indicator is set (section 7.21.7.1):
   * once set, the indicator stops every read.
   */
  function StickyFread(h: TextHandle, n: nat): (seq<byte>, TextHandle) {
    if h.eof && 0 < n then ([], h) else Fread(h, n)
  }

  /** `fgetc` as section 7.21.7.1 of ISO/IEC 9899:2011 defines it. */
  function StickyFgetc(h: TextHandle): (int, TextHandle) {
    if h.eof then (EOF, h) else Fgetc(h)
  }

  /**
   * On a handle whose indicator is set only at or past the end, the model's
   * reads return what the C library's reads return.
   */
  lemma ReadsAgreeWithStickyEof(h: TextHandle, n: nat)
    requires EofOnlyAtEnd(h)
    ensures Fread(h, n) == StickyFread(h, n)
    ensures Fgetc(h) == StickyFgetc(h)
  {
  }
}

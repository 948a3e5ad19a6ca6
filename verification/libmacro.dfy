/**
 * The streaming search-and-transform engine of libmacro: `lm_find`, the
 * sliding one-window-at-a-time search, and the `lm_find*` operations that
 * call it and then reposition the source or write to the target.
 *
 * Each operation is a pure function from a handle to an `Outcome`; `LmFind`
 * is the C loop itself, one window per pass, proved to compute `Find`.
 */
module LibMacro {
  import opened CStrings
  import opened Stdio
  import opened Search

  /** An operation's int result (nonzero: the needle was found) and the handle afterwards. */
  datatype Outcome = Outcome(found: bool, handle: TextHandle)

  /** What one pass of `lm_find`'s loop ends in. */
  datatype Pass =
    | Exhausted(handle: TextHandle)  // the read returned zero bytes: "not found"
    | Matched(handle: TextHandle)    // the window equals the needle; position back at its start
    | Slid(handle: TextHandle)       // mismatch: one byte emitted, the window one byte further on

  /**
   * `out` is what the target held before, followed by every source byte from
   * the old position up to, not including, offset `i`.
   */
  predicate CopiedUpTo(h: TextHandle, i: nat, out: seq<byte>) {
    h.pos <= i <= |h.src| && out == h.out + h.src[h.pos..i]
  }

  /** Where a search that finds nothing stops: the end of the source, or the position if already past it. */
  function EndOfScan(h: TextHandle): nat {
    if h.pos < |h.src| then |h.src| else h.pos
  }

  /**
   * `lm_find`: copy the source to the target up to the first match of the
   * needle's window at or after the current position, and stop at the match
   * without consuming it. When there is none, copy all that is left, including
   * a tail shorter than the window, and stop at end-of-file with the indicator
   * set. An empty needle finds nothing and touches nothing.
   */
  function Find(h: TextHandle, needle: seq<byte>): (r: Outcome)
    requires IsCString(needle)
    ensures r.handle.src == h.src
    ensures |needle| == 0 ==> r == Outcome(false, h)
    ensures r.found ==> IsFirstMatch(h.src, h.pos, r.handle.pos, needle)
    ensures r.found ==> CopiedUpTo(h, r.handle.pos, r.handle.out) && !r.handle.eof
    ensures 0 < |needle| && !r.found ==> NoMatchFrom(h.src, h.pos, needle)
    ensures 0 < |needle| && !r.found ==> r.handle.pos == EndOfScan(h) && r.handle.eof
    ensures 0 < |needle| && !r.found ==> r.handle.out == h.out + Rest(h.src, h.pos)
  {
    if Width(needle) == 0 then Outcome(false, h)
    else
      match FirstMatch(h.src, h.pos, needle)
      case Some(i) => Outcome(true, h.(pos := i, out := h.out + h.src[h.pos..i], eof := false))
      case None =>
        Outcome(false, h.(pos := EndOfScan(h), out := h.out + Rest(h.src, h.pos), eof := true))
  }

  /**
   * One pass of `lm_find`'s loop: read a window of `Width(needle)` bytes,
   * NUL-terminate it at the count read and `strncmp` it with the needle. A
   * zero-byte read ends the search; an equal window is sought back to its
   * start; otherwise the window's first byte is written and the stream sought
   * back so that the next window starts one byte further on.
   */
  function ScanPass(h: TextHandle, needle: seq<byte>): (r: Pass)
    requires IsCString(needle)
    ensures r.Matched? <==> MatchesAt(h.src, h.pos, needle)
    ensures r.Slid? <==> 0 < |needle| && h.pos < |h.src| && !MatchesAt(h.src, h.pos, needle)
    ensures r.Matched? ==> r.handle == h.(eof := false)
    ensures r.Slid? ==> r.handle == h.(pos := h.pos + 1, out := h.out + [h.src[h.pos]], eof := false)
    ensures r.Exhausted? ==> r.handle == h.(eof := h.eof || 0 < |needle|)
  {
    var w := Width(needle);
    var (window, afterRead) := Fread(h, w);
    StrNCmpEqualIsPrefixEquality(window, needle, w);
    if |window| == 0 then Exhausted(afterRead)
    else if StrNCmpEqual(window + [NUL], needle + [NUL], w) then
      Matched(FseekCur(afterRead, -|window|))
    else
      Slid(FseekCur(Fputc(afterRead, window[0]), -(|window| - 1)))
  }

  /** At the first match `i`, `Find` stops at `i` having copied the bytes before it. */
  lemma FindStopsAtFirstMatch(h: TextHandle, needle: seq<byte>, i: nat)
    requires IsCString(needle) && IsFirstMatch(h.src, h.pos, i, needle)
    ensures Find(h, needle) == Outcome(true, h.(pos := i, out := h.out + h.src[h.pos..i], eof := false))
  {
    assert FirstMatch(h.src, h.pos, needle) == Some(i);
  }

  /** Without a match, `Find` copies the rest and stops at end-of-file. */
  lemma FindRunsToEnd(h: TextHandle, needle: seq<byte>)
    requires IsCString(needle) && 0 < |needle| && NoMatchFrom(h.src, h.pos, needle)
    ensures Find(h, needle) == Outcome(false, h.(pos := EndOfScan(h), out := h.out + Rest(h.src, h.pos), eof := true))
  {
    assert FirstMatch(h.src, h.pos, needle) == None;
  }

  /**
   * What `lm_find`'s loop keeps from a start `h` to the current handle `cur`:
   * the bytes passed over were copied and held no match, and only a pass that
   * slid (and so sought, clearing the indicator) moves the position.
   */
  ghost predicate ScanSoFar(h: TextHandle, needle: seq<byte>, cur: TextHandle) {
    && cur.src == h.src
    && h.pos <= cur.pos
    && (cur.pos == h.pos || (cur.pos <= |h.src| && 0 < |needle| && !cur.eof))
    && (cur.pos <= |h.src| ==> cur.out == h.out + h.src[h.pos .. cur.pos])
    && (cur.pos == h.pos ==> cur == h)
    && forall j: nat :: h.pos <= j < cur.pos ==> !MatchesAt(h.src, j, needle)
  }

  /** A pass that slides keeps `ScanSoFar`, one byte further on. */
  lemma SlidKeepsScan(h: TextHandle, needle: seq<byte>, cur: TextHandle)
    requires IsCString(needle) && ScanSoFar(h, needle, cur) && ScanPass(cur, needle).Slid?
    ensures ScanSoFar(h, needle, ScanPass(cur, needle).handle)
    ensures ScanPass(cur, needle).handle.pos == cur.pos + 1 <= |h.src|
  {
    var next := ScanPass(cur, needle).handle;
    assert h.src[h.pos .. next.pos] == h.src[h.pos .. cur.pos] + [h.src[cur.pos]];
  }

  /** A pass that matches ends the scan with `Find`'s found outcome. */
  lemma MatchedIsFind(h: TextHandle, needle: seq<byte>, cur: TextHandle)
    requires IsCString(needle) && ScanSoFar(h, needle, cur) && ScanPass(cur, needle).Matched?
    ensures Find(h, needle) == Outcome(true, ScanPass(cur, needle).handle)
  {
    FindStopsAtFirstMatch(h, needle, cur.pos);
  }

  /** A pass whose read is empty ends the scan with `Find`'s not-found outcome. */
  lemma ExhaustedIsFind(h: TextHandle, needle: seq<byte>, cur: TextHandle)
    requires IsCString(needle) && ScanSoFar(h, needle, cur) && ScanPass(cur, needle).Exhausted?
    ensures Find(h, needle) == Outcome(false, ScanPass(cur, needle).handle)
  {
    if 0 < |needle| {
      assert NoMatchFrom(h.src, h.pos, needle);
      FindRunsToEnd(h, needle);
      assert cur.pos != h.pos ==> cur.pos == |h.src| == EndOfScan(h);
    }
  }

  /**
   * `lm_find` as the C code runs it: pass after pass until a read returns
   * nothing or a window matches. It computes exactly `Find`.
   */
  method LmFind(h: TextHandle, needle: seq<byte>) returns (found: bool, h': TextHandle)
    requires IsCString(needle)
    ensures Outcome(found, h') == Find(h, needle)
  {
    var cur := h;
    while true
      invariant ScanSoFar(h, needle, cur)
      decreases |h.src| - cur.pos
    {
      match ScanPass(cur, needle)
      case Exhausted(next) =>
        ExhaustedIsFind(h, needle, cur);
        return false, next;
      case Matched(next) =>
        MatchedIsFind(h, needle, cur);
        return true, next;
      case Slid(next) =>
        SlidKeepsScan(h, needle, cur);
        cur := next;
    }
  }

  /** Not found, the operation is `lm_find` and nothing more. */
  ghost predicate FallsBackToFind(h: TextHandle, needle: seq<byte>, r: Outcome)
    requires IsCString(needle)
  {
    && r.found == Find(h, needle).found
    && (!r.found ==> r == Find(h, needle))
  }

  /**
   * `lm_findReplace`: at the first match, write `repl` in place of the needle
   * and resume after it, skipping `strlen(needle)` bytes, the full length even
   * when only the first 256 were compared.
   */
  function FindReplace(h: TextHandle, needle: seq<byte>, repl: seq<byte>): (r: Outcome)
    requires IsCString(needle) && IsCString(repl)
    ensures FallsBackToFind(h, needle, r)
    ensures forall i: nat :: IsFirstMatch(h.src, h.pos, i, needle) ==>
      r == Outcome(true, h.(pos := i + |needle|, out := h.out + h.src[h.pos..i] + repl, eof := false))
  {
    var f := Find(h, needle);
    if f.found then Outcome(true, Fwrite(FseekCur(f.handle, |needle|), repl)) else f
  }

  /**
   * The position `numChars` bytes on from a match at `i`; a target before the
   * start of the file makes the seek fail, and the position stays at `i`.
   */
  ghost predicate SkippedBy(i: nat, numChars: int, pos: nat) {
    pos == if i + numChars < 0 then i else i + numChars
  }

  /** What `lm_findDeleteNum` and `lm_findMoveNum` both promise. */
  ghost predicate SkipsCountAfterMatch(h: TextHandle, needle: seq<byte>, numChars: int, r: Outcome)
    requires IsCString(needle)
  {
    && FallsBackToFind(h, needle, r)
    && forall i: nat :: IsFirstMatch(h.src, h.pos, i, needle) ==>
         && r.found
         && r.handle.src == h.src
         && CopiedUpTo(h, i, r.handle.out)
         && SkippedBy(i, numChars, r.handle.pos)
         && !r.handle.eof
  }

  /** `lm_findDeleteNum`: copy up to the first match, then drop `numChars` bytes from there. */
  function FindDeleteNum(h: TextHandle, needle: seq<byte>, numChars: int): (r: Outcome)
    requires IsCString(needle)
    ensures SkipsCountAfterMatch(h, needle, numChars, r)
  {
    var f := Find(h, needle);
    if f.found then Outcome(true, FseekCur(f.handle, numChars)) else f
  }

  /** `lm_findMoveNum`: the same code as `lm_findDeleteNum` under a second name. */
  function FindMoveNum(h: TextHandle, needle: seq<byte>, numChars: int): (r: Outcome)
    requires IsCString(needle)
    ensures SkipsCountAfterMatch(h, needle, numChars, r)
  {
    FindDeleteNum(h, needle, numChars)
  }

  /**
   * The `fgetc` loop of the line-end operations ends only on a '\n': it needs
   * one at or after the match it starts from.
   */
  ghost predicate NewlineAfterMatch(h: TextHandle, needle: seq<byte>) {
    forall i: nat :: IsFirstMatch(h.src, h.pos, i, needle) ==> NEWLINE in Rest(h.src, i)
  }

  /** `pos` is one past the first '\n' at or after `i`. */
  ghost predicate PastLineEnd(src: seq<byte>, i: nat, pos: nat) {
    && i < pos <= |src|
    && src[pos - 1] == NEWLINE
    && forall j :: i <= j < pos - 1 ==> src[j] != NEWLINE
  }

  /** What `lm_findDeleteLineEnd` and `lm_findMoveLineEnd` both promise. */
  ghost predicate SkipsLineAfterMatch(h: TextHandle, needle: seq<byte>, r: Outcome)
    requires IsCString(needle)
  {
    && FallsBackToFind(h, needle, r)
    && forall i: nat :: IsFirstMatch(h.src, h.pos, i, needle) ==>
         && r.found
         && r.handle.src == h.src
         && CopiedUpTo(h, i, r.handle.out)
         && PastLineEnd(h.src, i, r.handle.pos)
         && !r.handle.eof
  }

  /**
   * `lm_findDeleteLineEnd`: copy up to the first match, then drop everything
   * from the match start through the next '\n'.
   */
  function FindDeleteLineEnd(h: TextHandle, needle: seq<byte>): (r: Outcome)
    requires IsCString(needle)
    requires NewlineAfterMatch(h, needle)
    ensures SkipsLineAfterMatch(h, needle, r)
  {
    var f := Find(h, needle);
    if f.found then
      var nl := NextNewline(h.src, f.handle.pos);
      Outcome(true, f.handle.(pos := nl.value + 1))
    else f
  }

  /** `lm_findMoveLineEnd`: the same code as `lm_findDeleteLineEnd` under a second name. */
  function FindMoveLineEnd(h: TextHandle, needle: seq<byte>): (r: Outcome)
    requires IsCString(needle)
    requires NewlineAfterMatch(h, needle)
    ensures SkipsLineAfterMatch(h, needle, r)
  {
    FindDeleteLineEnd(h, needle)
  }

  /**
   * The `fgetc` loop of the line-end operations: read bytes until a '\n' has
   * been read. With a '\n' ahead it stops one past the first one, and it
   * reads nothing else: the indicator stays clear and the target untouched.
   */
  method FgetcThroughNewline(h: TextHandle) returns (h': TextHandle)
    requires !h.eof && NEWLINE in Rest(h.src, h.pos)
    ensures h' == h.(pos := NextNewline(h.src, h.pos).value + 1)
  {
    ghost var nl := NextNewline(h.src, h.pos).value;
    var got := Fgetc(h);
    var c := got.0;
    h' := got.1;
    while c != NEWLINE as int
      invariant h' == h.(pos := h'.pos)
      invariant h.pos < h'.pos <= nl + 1
      invariant (c == NEWLINE as int) <==> h'.pos == nl + 1
      decreases nl + 1 - h'.pos
    {
      got := Fgetc(h');
      c, h' := got.0, got.1;
    }
  }

  /**
   * `lm_findDeleteLineEnd` as the C code runs it: `lm_find`, then `fgetc`
   * until a '\n' has been read. It computes exactly `FindDeleteLineEnd`.
   */
  method LmFindDeleteLineEnd(h: TextHandle, needle: seq<byte>) returns (found: bool, h': TextHandle)
    requires IsCString(needle)
    requires NewlineAfterMatch(h, needle)
    ensures Outcome(found, h') == FindDeleteLineEnd(h, needle)
  {
    found, h' := LmFind(h, needle);
    if found {
      h' := FgetcThroughNewline(h');
    }
  }

  /** What `lm_findDeleteFileEnd` and `lm_findMoveFileEnd` both promise. */
  ghost predicate SkipsToEndAfterMatch(h: TextHandle, needle: seq<byte>, r: Outcome)
    requires IsCString(needle)
  {
    && FallsBackToFind(h, needle, r)
    && forall i: nat :: IsFirstMatch(h.src, h.pos, i, needle) ==>
         r == Outcome(true, h.(pos := |h.src|, out := h.out + h.src[h.pos..i], eof := false))
  }

  /**
   * `lm_findDeleteFileEnd`: copy up to the first match and drop the rest of the
   * file; the seek to the end clears the end-of-file indicator.
   */
  function FindDeleteFileEnd(h: TextHandle, needle: seq<byte>): (r: Outcome)
    requires IsCString(needle)
    ensures SkipsToEndAfterMatch(h, needle, r)
  {
    var f := Find(h, needle);
    if f.found then Outcome(true, FseekEnd(f.handle)) else f
  }

  /** `lm_findMoveFileEnd`: the same code as `lm_findDeleteFileEnd` under a second name. */
  function FindMoveFileEnd(h: TextHandle, needle: seq<byte>): (r: Outcome)
    requires IsCString(needle)
    ensures SkipsToEndAfterMatch(h, needle, r)
  {
    FindDeleteFileEnd(h, needle)
  }

  /** `lm_isEOF`: the source stream's end-of-file indicator. */
  function IsEof(h: TextHandle): bool {
    h.eof
  }

  /** `lm_rewind`: back to the start of the source; the target keeps what it has. */
  function RewindSource(h: TextHandle): TextHandle {
    Rewind(h)
  }
}

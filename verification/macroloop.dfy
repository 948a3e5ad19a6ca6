/**
 * The loop every libmacro caller writes, `while (!lm_isEOF(h))
 * lm_findReplace(h, needle, repl);` (macros/lm_fix.c), against a reference
 * "replace every occurrence" defined byte by byte.
 */
module MacroLoop {
  import opened CStrings
  import opened Stdio
  import opened Search
  import opened LibMacro

  /**
   * The source from offset `from` on, with each match replaced by `repl`,
   * scanning left to right: at a match, write `repl` and resume after the
   * needle; otherwise keep the byte and move on by one.
   */
  function ReplaceAll(src: seq<byte>, from: nat, needle: seq<byte>, repl: seq<byte>): seq<byte>
    decreases |src| - from
  {
    if |src| <= from then []
    else if MatchesAt(src, from, needle) then repl + ReplaceAll(src, from + |needle|, needle, repl)
    else [src[from]] + ReplaceAll(src, from + 1, needle, repl)
  }

  /**
   * One step before the first match: a byte where no match starts is kept in
   * front of what the rest of the scan up to the match gives.
   */
  lemma ReplaceAllKeepsByte(src: seq<byte>, from: nat, i: nat, needle: seq<byte>, repl: seq<byte>, after: seq<byte>)
    requires from < i <= |src| && !MatchesAt(src, from, needle)
    requires ReplaceAll(src, from + 1, needle, repl) == src[from + 1..i] + repl + after
    ensures ReplaceAll(src, from, needle, repl) == src[from..i] + repl + after
  {
    var skipped := src[from + 1..i];
    assert ReplaceAll(src, from, needle, repl) == [src[from]] + ReplaceAll(src, from + 1, needle, repl);
    assert [src[from]] + (skipped + repl + after) == ([src[from]] + skipped) + repl + after;
    assert src[from..i] == [src[from]] + skipped;
  }

  /** Bytes before the first match are kept as they are. */
  lemma {:induction false} ReplaceAllUpToFirstMatch(src: seq<byte>, from: nat, i: nat, needle: seq<byte>, repl: seq<byte>)
    requires IsFirstMatch(src, from, i, needle)
    ensures ReplaceAll(src, from, needle, repl) == src[from..i] + repl + ReplaceAll(src, i + |needle|, needle, repl)
    decreases i - from
  {
    if from < i {
      assert IsFirstMatch(src, from + 1, i, needle);
      ReplaceAllUpToFirstMatch(src, from + 1, i, needle, repl);
      ReplaceAllKeepsByte(src, from, i, needle, repl, ReplaceAll(src, i + |needle|, needle, repl));
    } else {
      assert src[from..i] == [];
    }
  }

  /** Without a match from `from` on, nothing is replaced. */
  lemma {:induction false} ReplaceAllWithoutMatch(src: seq<byte>, from: nat, needle: seq<byte>, repl: seq<byte>)
    requires NoMatchFrom(src, from, needle)
    ensures ReplaceAll(src, from, needle, repl) == Rest(src, from)
    decreases |src| - from
  {
    if from < |src| {
      ReplaceAllWithoutMatch(src, from + 1, needle, repl);
      assert src[from..] == [src[from]] + src[from + 1..];
    }
  }

  /**
   * The replace-all from `from` is the bytes before the first match, the
   * replacement, and the replace-all after the needle, whatever was written
   * before.
   */
  lemma {:induction false} ReplaceAllAfterOutput(out: seq<byte>, src: seq<byte>, from: nat, i: nat, needle: seq<byte>, repl: seq<byte>)
    requires IsFirstMatch(src, from, i, needle)
    ensures out + src[from..i] + repl + ReplaceAll(src, i + |needle|, needle, repl) == out + ReplaceAll(src, from, needle, repl)
  {
    ReplaceAllUpToFirstMatch(src, from, i, needle, repl);
    var after := ReplaceAll(src, i + |needle|, needle, repl);
    assert out + src[from..i] + repl + after == out + (src[from..i] + repl + after);
  }

  /**
   * One `lm_findReplace` call does its share of the replace-all: what it
   * writes, followed by the replace-all of what it leaves, is the replace-all
   * from where it started. A found call moves strictly forward; a call that
   * finds nothing leaves nothing to replace and sets end-of-file.
   */
  lemma {:induction false} FindReplaceDoesItsShare(h: TextHandle, needle: seq<byte>, repl: seq<byte>)
    requires IsCString(needle) && IsCString(repl) && 0 < |needle|
    ensures FindReplace(h, needle, repl).handle.src == h.src
    ensures FindReplace(h, needle, repl).handle.out + ReplaceAll(h.src, FindReplace(h, needle, repl).handle.pos, needle, repl)
      == h.out + ReplaceAll(h.src, h.pos, needle, repl)
    ensures FindReplace(h, needle, repl).found ==>
      h.pos < FindReplace(h, needle, repl).handle.pos && !FindReplace(h, needle, repl).handle.eof
    ensures !FindReplace(h, needle, repl).found ==>
      FindReplace(h, needle, repl).handle.eof && |h.src| <= FindReplace(h, needle, repl).handle.pos
  {
    var r := FindReplace(h, needle, repl);
    match FirstMatch(h.src, h.pos, needle)
    case Some(i) =>
      assert r.handle == h.(pos := i + |needle|, out := h.out + h.src[h.pos..i] + repl, eof := false);
      ReplaceAllAfterOutput(h.out, h.src, h.pos, i, needle, repl);
    case None =>
      assert !Find(h, needle).found;
      ReplaceAllWithoutMatch(h.src, h.pos, needle, repl);
      assert ReplaceAll(h.src, r.handle.pos, needle, repl) == [];
  }

  /**
   * The caller's loop: call `lm_findReplace` until `lm_isEOF`. For a non-empty
   * needle it ends, at end-of-file, with the rest of the source written to the
   * target with every match replaced.
   */
  method ReplaceUntilEof(h: TextHandle, needle: seq<byte>, repl: seq<byte>) returns (h': TextHandle)
    requires IsCString(needle) && IsCString(repl) && 0 < |needle|
    requires EofOnlyAtEnd(h)
    ensures h'.src == h.src && IsEof(h')
    ensures h'.out == h.out + ReplaceAll(h.src, h.pos, needle, repl)
  {
    h' := h;
    while !IsEof(h')
      invariant h'.src == h.src
      invariant h'.eof ==> h'.pos >= |h.src|
      invariant h'.out + ReplaceAll(h.src, h'.pos, needle, repl) == h.out + ReplaceAll(h.src, h.pos, needle, repl)
      decreases |h.src| + 1 - (if h'.pos <= |h.src| then h'.pos else |h.src| + 1), !h'.eof
    {
      FindReplaceDoesItsShare(h', needle, repl);
      h' := FindReplace(h', needle, repl).handle;
    }
    assert ReplaceAll(h.src, h'.pos, needle, repl) == [];
  }
}

/**
 * Properties that relate several calls of the engine: what a caller's
 * `while (!lm_isEOF(h))` loop can rely on, the window limit of 256 bytes, and
 * a worked round of the fox/dog loop in test.c.
 */
module Properties {
  import opened CStrings
  import opened Stdio
  import opened Search
  import opened LibMacro

  /**
   * Finding again right after a match finds the same match: the search itself
   * consumes nothing, so nothing more is written and the position stays put.
   */
  lemma FindIdempotentAtMatch(h: TextHandle, needle: seq<byte>)
    requires IsCString(needle)
    requires Find(h, needle).found
    ensures Find(Find(h, needle).handle, needle) == Find(h, needle)
  {
  }

  /** Every byte of the search key beyond the 256th is ignored by the search. */
  lemma LongNeedleComparedOnPrefix(h: TextHandle, needle: seq<byte>)
    requires IsCString(needle)
    requires |needle| > MaxSearchLength
    ensures IsCString(needle[..MaxSearchLength])
    ensures Find(h, needle) == Find(h, needle[..MaxSearchLength])
  {
    var prefix := needle[..MaxSearchLength];
    assert prefix[..Width(prefix)] == needle[..Width(needle)];
    assert forall j: nat :: MatchesAt(h.src, j, needle) == MatchesAt(h.src, j, prefix);
    match FirstMatch(h.src, h.pos, needle)
    case Some(i) =>
      FindStopsAtFirstMatch(h, needle, i);
      FindStopsAtFirstMatch(h, prefix, i);
    case None =>
      FindRunsToEnd(h, needle);
      FindRunsToEnd(h, prefix);
  }

  /**
   * A needle longer than 256 bytes is replaced when its first 256 bytes match,
   * and the replace then skips the needle's full length, whatever the source
   * holds after those 256 bytes.
   */
  lemma LongNeedleReplaceSkipsWholeNeedle(h: TextHandle, needle: seq<byte>, repl: seq<byte>)
    requires IsCString(needle) && IsCString(repl)
    requires |needle| > MaxSearchLength
    requires h.pos + MaxSearchLength <= |h.src|
    requires h.src[h.pos .. h.pos + MaxSearchLength] == needle[..MaxSearchLength]
    ensures FindReplace(h, needle, repl).found
    ensures FindReplace(h, needle, repl).handle.pos == h.pos + |needle|
    ensures FindReplace(h, needle, repl).handle.out == h.out + repl
  {
  }

  /** Every operation on an empty needle reports "not found" and leaves the handle alone. */
  lemma EmptyNeedleIsInert(h: TextHandle, repl: seq<byte>, numChars: int)
    requires IsCString(repl)
    ensures Find(h, []) == Outcome(false, h)
    ensures FindReplace(h, [], repl) == Outcome(false, h)
    ensures FindDeleteNum(h, [], numChars) == Outcome(false, h)
    ensures FindMoveNum(h, [], numChars) == Outcome(false, h)
    ensures FindDeleteLineEnd(h, []) == Outcome(false, h)
    ensures FindMoveLineEnd(h, []) == Outcome(false, h)
    ensures FindDeleteFileEnd(h, []) == Outcome(false, h)
    ensures FindMoveFileEnd(h, []) == Outcome(false, h)
  {
  }

  /**
   * `lm_isEOF` after an operation on a non-empty needle reports exactly that
   * its search found nothing: a match always ends with a seek, which clears the
   * indicator, and only the final zero-byte read sets it.
   */
  lemma EofReportsNotFound(h: TextHandle, needle: seq<byte>, repl: seq<byte>, numChars: int)
    requires IsCString(needle) && IsCString(repl)
    requires 0 < |needle|
    ensures IsEof(Find(h, needle).handle) <==> !Find(h, needle).found
    ensures IsEof(FindReplace(h, needle, repl).handle) <==> !FindReplace(h, needle, repl).found
    ensures IsEof(FindDeleteNum(h, needle, numChars).handle) <==> !FindDeleteNum(h, needle, numChars).found
    ensures IsEof(FindMoveNum(h, needle, numChars).handle) <==> !FindMoveNum(h, needle, numChars).found
    ensures IsEof(FindDeleteFileEnd(h, needle).handle) <==> !FindDeleteFileEnd(h, needle).found
    ensures IsEof(FindMoveFileEnd(h, needle).handle) <==> !FindMoveFileEnd(h, needle).found
    ensures NewlineAfterMatch(h, needle) ==>
      && (IsEof(FindDeleteLineEnd(h, needle).handle) <==> !FindDeleteLineEnd(h, needle).found)
      && (IsEof(FindMoveLineEnd(h, needle).handle) <==> !FindMoveLineEnd(h, needle).found)
  {
  }

  /**
   * `lm_rewind` starts the search over from the first byte of the source and
   * keeps the output: a search after it finds the needle exactly when the
   * needle occurs anywhere in the source, and otherwise appends the whole
   * source to what was written before.
   */
  lemma RewindRescansSource(h: TextHandle, needle: seq<byte>)
    requires IsCString(needle)
    ensures RewindSource(h).src == h.src && RewindSource(h).pos == 0
    ensures RewindSource(h).out == h.out && !IsEof(RewindSource(h))
    ensures Find(RewindSource(h), needle).found <==> exists j: nat :: MatchesAt(h.src, j, needle)
    ensures 0 < |needle| && !Find(RewindSource(h), needle).found ==>
      Find(RewindSource(h), needle).handle.out == h.out + h.src
  {
  }

  /** The operations, `lm_rewind` included, keep `EofOnlyAtEnd`. */
  lemma OperationsKeepEofOnlyAtEnd(h: TextHandle, needle: seq<byte>, repl: seq<byte>, numChars: int)
    requires IsCString(needle) && IsCString(repl)
    requires EofOnlyAtEnd(h)
    ensures EofOnlyAtEnd(Find(h, needle).handle)
    ensures EofOnlyAtEnd(FindReplace(h, needle, repl).handle)
    ensures EofOnlyAtEnd(FindDeleteNum(h, needle, numChars).handle)
    ensures EofOnlyAtEnd(FindMoveNum(h, needle, numChars).handle)
    ensures EofOnlyAtEnd(FindDeleteFileEnd(h, needle).handle)
    ensures EofOnlyAtEnd(FindMoveFileEnd(h, needle).handle)
    ensures NewlineAfterMatch(h, needle) ==>
      EofOnlyAtEnd(FindDeleteLineEnd(h, needle).handle) && EofOnlyAtEnd(FindMoveLineEnd(h, needle).handle)
    ensures EofOnlyAtEnd(RewindSource(h))
  {
  }

  /** "the quick ", "fox", "dog" and " jumps" as bytes. */
  const TheQuick: seq<byte> := [116, 104, 101, 32, 113, 117, 105, 99, 107, 32]
  const FoxWord: seq<byte> := [102, 111, 120]
  const DogWord: seq<byte> := [100, 111, 103]
  const Jumps: seq<byte> := [32, 106, 117, 109, 112, 115]

  /** In "the quick fox jumps" the first "fox" starts at offset 10. */
  lemma FoxFirstAtTen()
    ensures IsFirstMatch(TheQuick + FoxWord + Jumps, 0, 10, FoxWord)
  {
    var src := TheQuick + FoxWord + Jumps;
    assert src[10..13] == FoxWord;
    forall j: nat | j < 10 ensures !MatchesAt(src, j, FoxWord) {
      assert src[j] == TheQuick[j];
      assert FoxWord[0] !in TheQuick;
    }
  }

  /** In "the quick fox jumps" no "dog" starts at or after offset 13. */
  lemma NoDogFromThirteen()
    ensures NoMatchFrom(TheQuick + FoxWord + Jumps, 13, DogWord)
  {
    var src := TheQuick + FoxWord + Jumps;
    forall j: nat | 13 <= j ensures !MatchesAt(src, j, DogWord) {
      if j < |src| {
        assert src[j] == Jumps[j - 13];
        assert DogWord[0] !in Jumps;
      }
    }
  }

  /**
   * One round of the loop in test.c on "the quick fox jumps": replacing "fox"
   * by "dog" and then "dog" by "fox" writes "the quick dog jumps", and the
   * second search runs into end-of-file, so `lm_isEOF` ends the loop.
   */
  lemma FoxDogLoopRound(h0: TextHandle)
    requires h0 == TextHandle(TheQuick + FoxWord + Jumps, 0, [], false)
    ensures IsCString(FoxWord) && IsCString(DogWord)
    ensures FindReplace(h0, FoxWord, DogWord).found
    ensures !FindReplace(FindReplace(h0, FoxWord, DogWord).handle, DogWord, FoxWord).found
    ensures IsEof(FindReplace(FindReplace(h0, FoxWord, DogWord).handle, DogWord, FoxWord).handle)
    ensures FindReplace(FindReplace(h0, FoxWord, DogWord).handle, DogWord, FoxWord).handle.out
      == TheQuick + DogWord + Jumps
  {
    var src := h0.src;
    FoxFirstAtTen();
    var r1 := FindReplace(h0, FoxWord, DogWord);
    assert src[..10] == TheQuick;
    assert r1.handle == TextHandle(src, 13, TheQuick + DogWord, false);
    NoDogFromThirteen();
    assert Rest(src, 13) == Jumps;
  }
}

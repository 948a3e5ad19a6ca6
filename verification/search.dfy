/**
 * What the sliding window looks for, stated without any stream: the needle's
 * window width, a match at an offset, and the first match at or after an offset.
 */
module Search {
  import opened CStrings

  datatype Option<T> = None | Some(value: T)

  /** LIBMACRO_MAX_SEARCH_LENGTH: the widest window the search compares. */
  const MaxSearchLength: nat := 256

  /**
   * The window width `strnlen(needle, 256)`: a needle longer than 256 bytes is
   * compared on its first 256 bytes only, not refused.
   */
  function Width(needle: seq<byte>): nat {
    if |needle| < MaxSearchLength then |needle| else MaxSearchLength
  }

  /**
   * A full window at offset `i` holds the needle's first `Width(needle)` bytes.
   * An empty needle matches nowhere: its zero-byte read reports nothing.
   */
  predicate MatchesAt(src: seq<byte>, i: nat, needle: seq<byte>) {
    && 0 < Width(needle)
    && i + Width(needle) <= |src|
    && src[i .. i + Width(needle)] == needle[..Width(needle)]
  }

  /** `i` is the first offset at or after `from` where the needle matches. */
  ghost predicate IsFirstMatch(src: seq<byte>, from: nat, i: nat, needle: seq<byte>) {
    && from <= i
    && MatchesAt(src, i, needle)
    && forall j: nat :: from <= j < i ==> !MatchesAt(src, j, needle)
  }

  /** The needle matches at no offset at or after `from`. */
  ghost predicate NoMatchFrom(src: seq<byte>, from: nat, needle: seq<byte>) {
    forall j: nat :: from <= j ==> !MatchesAt(src, j, needle)
  }

  /** The reference search: the first match at or after `from`, if there is one. */
  function FirstMatch(src: seq<byte>, from: nat, needle: seq<byte>): (r: Option<nat>)
    ensures r.Some? ==> IsFirstMatch(src, from, r.value, needle)
    ensures r.None? ==> NoMatchFrom(src, from, needle)
    ensures forall i: nat :: IsFirstMatch(src, from, i, needle) ==> r == Some(i)
    decreases |src| - from
  {
    if Width(needle) == 0 || |src| < from + Width(needle) then None
    else if MatchesAt(src, from, needle) then Some(from)
    else
      var r := FirstMatch(src, from + 1, needle);
      assert forall i: nat :: IsFirstMatch(src, from, i, needle) ==> IsFirstMatch(src, from + 1, i, needle);
      r
  }

  /** The first '\n' at or after `from`, if there is one. */
  function NextNewline(src: seq<byte>, from: nat): (r: Option<nat>)
    ensures r.Some? ==> from <= r.value < |src| && src[r.value] == NEWLINE
    ensures r.Some? ==> forall j :: from <= j < r.value ==> src[j] != NEWLINE
    ensures r.None? <==> NEWLINE !in Rest(src, from)
    decreases |src| - from
  {
    if |src| <= from then None
    else if src[from] == NEWLINE then Some(from)
    else NextNewline(src, from + 1)
  }
}

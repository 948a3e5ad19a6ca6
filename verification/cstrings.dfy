/**
 * The C vocabulary the macro engine is written in: bytes, the contents of
 * NUL-terminated strings, and the `strncmp` comparison it uses to test a window.
 */
module CStrings {

  /** An unsigned char: the unit `fread`, `fputc` and `strncmp` work on. */
  newtype byte = x: int | 0 <= x < 256

  /** The string terminator. */
  const NUL: byte := 0

  /** The byte '\n' that the line-end operations stop after. */
  const NEWLINE: byte := 10

  /**
   * The contents of a C string: the bytes before its terminator, so it holds no
   * NUL. `strlen` of such a string is its length.
   */
  predicate IsCString(s: seq<byte>) {
    NUL !in s
  }

  /** The bytes of `s` at and after offset `from`; none once `from` is past the end. */
  function Rest(s: seq<byte>, from: nat): seq<byte> {
    if from <= |s| then s[from..] else []
  }

  /** A character array whose last byte is a NUL, as `strncmp` needs its operands to be. */
  predicate Terminated(a: seq<byte>) {
    |a| > 0 && a[|a| - 1] == NUL
  }

  /**
   * `strncmp(a, b, n) == 0`: the arrays agree on at most `n` bytes, and the
   * comparison stops, equal, at a NUL that both hold at the same offset.
   */
  function StrNCmpEqual(a: seq<byte>, b: seq<byte>, n: nat): bool
    requires Terminated(a) && Terminated(b)
    decreases n
  {
    if n == 0 then true
    else if a[0] != b[0] then false
    else if a[0] == NUL then true
    else StrNCmpEqual(a[1..], b[1..], n - 1)
  }

  /**
   * The engine's window test: the bytes read, NUL-terminated at the count read,
   * compared by `strncmp` with a C string over `n` bytes, are equal exactly when
   * the window is the string's first `n` bytes. A short window, or one holding a
   * NUL, therefore never compares equal.
   */
  lemma {:induction false} StrNCmpEqualIsPrefixEquality(window: seq<byte>, s: seq<byte>, n: nat)
    requires IsCString(s)
    requires |window| <= n <= |s|
    ensures StrNCmpEqual(window + [NUL], s + [NUL], n) <==> window == s[..n]
  {
    if n == 0 {
    } else if |window| == 0 {
      assert s[0] in s;
    } else if window[0] != s[0] {
      assert s[..n][0] == s[0];
    } else {
      assert s[0] in s;
      assert (window + [NUL])[1..] == window[1..] + [NUL];
      assert (s + [NUL])[1..] == s[1..] + [NUL];
      assert IsCString(s[1..]) by {
        forall k | 0 <= k < |s[1..]| ensures s[1..][k] != NUL {
          assert s[1..][k] == s[k + 1] && s[k + 1] in s;
        }
      }
      StrNCmpEqualIsPrefixEquality(window[1..], s[1..], n - 1);
      assert s[..n] == [s[0]] + s[1..][..n - 1];
      assert window == [window[0]] + window[1..];
    }
  }
}

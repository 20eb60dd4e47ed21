/** The few primitives of Rust's `str` that the renderer relies on, stated over
    the UTF-8 bytes of the text: `is_char_boundary`, the character starts that
    `char_indices` yields, and `trim().is_empty()`. */
module Str {

  /** One byte of UTF-8 encoded text. */
  type Byte = b: int | 0 <= b < 256

  const Newline: Byte := 10

  /** UTF-8 continuation bytes have the bit pattern 10xx_xxxx. */
  predicate IsContinuation(b: Byte) {
    0x80 <= b < 0xC0
  }

  /** `str::is_char_boundary`: the start and the end of the text are
      boundaries, an index past the end is not, and any other index is one
      exactly when the byte there does not continue a character. */
  predicate IsCharBoundary(s: seq<Byte>, i: nat) {
    i == 0 || i == |s| || (i < |s| && !IsContinuation(s[i]))
  }

  /** The number of characters that start strictly before byte `n`: the
      length of `s.char_indices().take_while(|i| i < n)`. */
  function CharsBefore(s: seq<Byte>, n: nat): nat {
    if n == 0 then 0
    else CharsBefore(s, n - 1) + (if n - 1 < |s| && IsCharBoundary(s, n - 1) then 1 else 0)
  }

  /** The number of characters of `s`. */
  function CharCount(s: seq<Byte>): nat {
    CharsBefore(s, |s|)
  }

  lemma {:induction false} CharsBeforeMonotone(s: seq<Byte>, m: nat, n: nat)
    requires m <= n
    ensures CharsBefore(s, m) <= CharsBefore(s, n)
  {
    if m < n {
      CharsBeforeMonotone(s, m, n - 1);
    }
  }

  /** A character starting at `m` is counted before every later index. */
  lemma {:induction false} CharsBeforeCountsStart(s: seq<Byte>, m: nat, n: nat)
    requires m < n && m < |s| && IsCharBoundary(s, m)
    ensures CharsBefore(s, m) + 1 <= CharsBefore(s, n)
  {
    if m + 1 < n {
      CharsBeforeCountsStart(s, m, n - 1);
    }
  }

  /** Past the end of the text nothing more is counted. */
  lemma {:induction false} CharsBeforeSaturates(s: seq<Byte>, n: nat)
    requires |s| <= n
    ensures CharsBefore(s, n) == CharCount(s)
  {
    if |s| < n {
      CharsBeforeSaturates(s, n - 1);
    }
  }

  /** The length in bytes of the whitespace character that `s` starts with,
      or 0 when `s` does not start with one. The characters are those with
      the Unicode White_Space property, which `char::is_whitespace` (and so
      `str::trim`) tests for: U+0009..U+000D, U+0020, U+0085, U+00A0,
      U+1680, U+2000..U+200A, U+2028, U+2029, U+202F, U+205F and U+3000. */
  function WhitespaceWidth(s: seq<Byte>): (w: nat)
    ensures w <= |s|
  {
    if |s| >= 1 && (0x09 <= s[0] <= 0x0D || s[0] == 0x20) then 1
    else if |s| >= 2 && s[0] == 0xC2 && (s[1] == 0x85 || s[1] == 0xA0) then 2
    else if |s| >= 3 && s[0] == 0xE1 && s[1] == 0x9A && s[2] == 0x80 then 3
    else if |s| >= 3 && s[0] == 0xE2 && s[1] == 0x80
            && (0x80 <= s[2] <= 0x8A || s[2] == 0xA8 || s[2] == 0xA9 || s[2] == 0xAF) then 3
    else if |s| >= 3 && s[0] == 0xE2 && s[1] == 0x81 && s[2] == 0x9F then 3
    else if |s| >= 3 && s[0] == 0xE3 && s[1] == 0x80 && s[2] == 0x80 then 3
    else 0
  }

  /** `s.trim().is_empty()`: every character of `s` is whitespace. */
  predicate IsBlank(s: seq<Byte>)
    decreases |s|
  {
    s == [] || (WhitespaceWidth(s) > 0 && IsBlank(s[WhitespaceWidth(s)..]))
  }
}

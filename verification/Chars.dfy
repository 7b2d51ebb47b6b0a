/** Characters of a std::streambuf: bytes, the wider int_type and its end-of-file value. */
module Chars {

  type byte = b: int | 0 <= b < 256

  /** traits_type::eof(). */
  const EOF: int := -1

  const INT_MAX: int := 0x7fff_ffff

  /** traits_type::to_char_type: keeps the low eight bits. */
  function ToChar(c: int): byte {
    c % 256
  }

  /** traits_type::not_eof: a value that differs from EOF. */
  function NotEof(c: int): int {
    if c == EOF then 0 else c
  }

  /** static_cast<int> of a size: two's complement truncation to 32 bits. */
  function CastToInt(n: nat): int {
    if n <= INT_MAX then n
    else (n + 0x8000_0000) % 0x1_0000_0000 - 0x8000_0000
  }

  function Min(a: int, b: int): int {
    if a <= b then a else b
  }

  function Max(a: int, b: int): int {
    if a <= b then b else a
  }

  /** Only the low eight bits matter. */
  lemma ToCharExact(c: int, b: byte, k: int)
    requires c == b + 256 * k
    ensures ToChar(c) == b
  {
  }

  lemma NotEofExact(c: int)
    ensures NotEof(c) != EOF && (c != EOF ==> NotEof(c) == c)
  {
  }

  /** The int that differs from n by a multiple of 2^32. */
  lemma CastToIntExact(n: nat, i: int, k: int)
    requires -0x8000_0000 <= i <= INT_MAX && n == i + 0x1_0000_0000 * k
    ensures CastToInt(n) == i
  {
  }
}

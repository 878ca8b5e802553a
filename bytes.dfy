/** Bytes as the C sources see them: a `char` or `uint8_t` is a character code below 256. */
module Bytes {

  /** One byte of the request buffer. Character literals double as byte literals. */
  type Byte = c: char | c as int < 256

  const CR: Byte := '\r'
  const LF: Byte := '\n'
  const SP: Byte := ' '
  const NUL: Byte := '\0'

  /** The bytes a method token may be made of: `A`-`Z` and `_`. */
  predicate IsMethodChar(c: Byte) {
    ('A' <= c <= 'Z') || c == '_'
  }

  predicate IsDigit(c: Byte) {
    '0' <= c <= '9'
  }

  /** `ch - '0'` for a decimal digit. */
  function DigitValue(c: Byte): (d: nat)
    requires IsDigit(c)
    ensures d < 10
  {
    c as int - '0' as int
  }

  /** `tolower` in the C locale: only `A`-`Z` change. */
  function Lower(c: Byte): (l: Byte)
    ensures 'A' <= c <= 'Z' ==> 'a' <= l <= 'z' && l as int == c as int + 32
    ensures !('A' <= c <= 'Z') ==> l == c
  {
    if 'A' <= c <= 'Z' then (c as int + 32) as char else c
  }

  /** A byte string holds no NUL byte, so C string functions read all of it. */
  predicate NoNul(s: seq<Byte>) {
    forall j :: 0 <= j < |s| ==> s[j] != NUL
  }

  /** The value of a decimal digit string, accumulated as `v * 10 + digit` from the left. */
  function Decimal(ds: seq<Byte>): (v: nat)
    requires forall j :: 0 <= j < |ds| ==> IsDigit(ds[j])
  {
    if ds == [] then 0 else Decimal(ds[..|ds| - 1]) * 10 + DigitValue(ds[|ds| - 1])
  }

  datatype Option<T> = None | Some(value: T)
}

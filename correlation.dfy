/** Correlation ids: sixteen characters drawn from the ASCII letters and
    digits. The thread random generator of the source is replaced by a draw
    number `n`, which a fixed base-62 encoding turns into an id; only the
    length and the alphabet are promised. */
module Correlation {

  const IdLength: nat := 16

  predicate IsAsciiAlphanumeric(c: char)
  {
    ('A' <= c <= 'Z') || ('a' <= c <= 'z') || ('0' <= c <= '9')
  }

  /** The d-th character of `ABC…Zabc…z0123456789`. */
  function CharsetAt(d: nat): (c: char)
    requires d < 62
    ensures IsAsciiAlphanumeric(c)
  {
    if d < 26 then ('A' as int + d) as char
    else if d < 52 then ('a' as int + (d - 26)) as char
    else ('0' as int + (d - 52)) as char
  }

  /** The k lowest base-62 digits of n, most significant first. */
  function Digits(n: nat, k: nat): (s: string)
    ensures |s| == k
    ensures forall i :: 0 <= i < |s| ==> IsAsciiAlphanumeric(s[i])
    decreases k
  {
    if k == 0 then [] else Digits(n / 62, k - 1) + [CharsetAt(n % 62)]
  }

  /** generate_correlation_id: the id produced by the n-th draw. */
  function CorrelationId(n: nat): (id: string)
    ensures |id| == IdLength
    ensures forall i :: 0 <= i < |id| ==> IsAsciiAlphanumeric(id[i])
  {
    Digits(n, IdLength)
  }
}

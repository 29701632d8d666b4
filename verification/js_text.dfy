/**
  The two pieces of JavaScript string behaviour the ledger's hashing relies on:
  turning an integer Number into its decimal text (what `+` does when one
  operand is a string), and `String.prototype.slice` with a negative start.
*/
module JsText {

  /** The decimal digit character for a value below ten. */
  function DigitChar(d: nat): char
    requires d < 10
  {
    (d + '0' as int) as char
  }

  /** Decimal text of a non-negative integer, most significant digit first, no leading zeros. */
  function NatToString(n: nat): string
    decreases n
  {
    if n < 10 then [DigitChar(n)] else NatToString(n / 10) + [DigitChar(n % 10)]
  }

  /** Decimal text of an integer, as `String(n)` gives it for integers below 10^21. */
  function IntToString(n: int): string {
    if n < 0 then "-" + NatToString(-n) else NatToString(n)
  }

  /**
    `s.slice(-k)`: the last `k` characters, or the whole string when it is shorter
    than `k`. For `k == 0` the start is `-0`, which JavaScript reads as `0`, so the
    whole string comes back.
  */
  function SliceFromEnd(s: string, k: nat): (t: string)
    ensures |t| == if k == 0 || |s| < k then |s| else k
    ensures t == s[|s| - |t|..]
  {
    if k == 0 || |s| < k then s else s[|s| - k..]
  }

}

/** Small helpers shared by every module: an optional value and the
    index normalisation Python applies to slice bounds. */
module Common {

  /** A value that may be absent, standing for Python's `None`. */
  datatype Option<+T> = None | Some(value: T)

  /** The shape of a captured or composed frame (`frame.shape[:2]`); pixel
      contents are produced and consumed by library code. */
  datatype Frame = Frame(height: nat, width: nat)

  function Min(a: int, b: int): int { if a <= b then a else b }

  function Max(a: int, b: int): int { if a >= b then a else b }

  /** Where a Python slice bound `s` lands in a sequence of length `n`:
      a negative bound counts from the end, and the result is clipped to
      `[0, n]`. */
  function PyBound(n: nat, s: int): (k: nat)
    ensures k <= n
    ensures 0 <= s <= n ==> k == s
    ensures s < 0 && n + s >= 0 ==> k == n + s
    ensures n + s < 0 ==> k == 0
    ensures s > n ==> k == n
  {
    if s < 0 then Max(0, n + s) else Min(s, n)
  }

  /** Number of elements `xs[start:stop]` selects when `|xs| == n`. */
  function PySliceLen(n: nat, start: int, stop: int): (len: nat)
    ensures len <= n
  {
    Max(0, PyBound(n, stop) - PyBound(n, start))
  }

  /** `2^k`, used to talk about single bits of an unbounded integer. */
  function Pow2(k: nat): (p: nat)
    ensures p >= 1
    ensures p > k
  {
    if k == 0 then 1 else 2 * Pow2(k - 1)
  }
}

/** Machine integers of the C sources: bytes, 32-bit words and the circular
    comparison that KCP and its scheduler use for clocks and serial numbers. */
module Machine {

  const WORD: int := 0x1_0000_0000
  const HALF_WORD: int := 0x8000_0000

  type Byte = b: int | 0 <= b < 256
  type U32 = w: int | 0 <= w < 0x1_0000_0000

  /** A connection identifier of 256 bits. */
  type Conv = c: seq<Byte> | |c| == 32 witness seq(32, _ => 0)

  /** Truncation of an ideal integer to an unsigned 32-bit word. */
  function Wrap(n: int): U32 {
    n % WORD
  }

  /** Reinterpretation of a 32-bit word as a signed integer. */
  function Signed(w: U32): int {
    if w < HALF_WORD then w else w - WORD
  }

  /** `_itimediff`: the signed 32-bit difference of two words. */
  function TimeDiff(later: U32, earlier: U32): int {
    Signed(Wrap(later - earlier))
  }

  function Min(a: int, b: int): int {
    if a <= b then a else b
  }

  function Max(a: int, b: int): int {
    if a >= b then a else b
  }

  lemma {:induction false} WrapUnique(n: int, k: int)
    requires 0 <= n - k * WORD < WORD
    ensures Wrap(n) == n - k * WORD
  {
    var q := n / WORD;
    assert n == q * WORD + n % WORD;
    assert (q - k) * WORD == q * WORD - k * WORD;
    assert -WORD < (q - k) * WORD < WORD;
    assert q == k;
  }

  lemma {:induction false} WrapCancels(n: int, k: int)
    ensures Wrap(n + k * WORD) == Wrap(n)
  {
    var q := n / WORD;
    assert n == q * WORD + n % WORD;
    assert (q + k) * WORD == q * WORD + k * WORD;
    WrapUnique(n + k * WORD, q + k);
  }

  /** Section 3.2 of RFC 1982 with SERIAL_BITS = 32: on truncated serial numbers
      the circular difference is the true difference exactly when the true values are
      at most 2^31 apart, the far end on one side only; then every `<`, `>=`, `>` test
      on it decides as the same test on the true values would. */
  lemma {:induction false} CircularDifference(a: int, b: int)
    ensures TimeDiff(Wrap(a), Wrap(b)) == a - b <==> -HALF_WORD <= a - b < HALF_WORD
  {
    var qa, qb := a / WORD, b / WORD;
    assert a == qa * WORD + Wrap(a) && b == qb * WORD + Wrap(b);
    assert (qb - qa) * WORD == qb * WORD - qa * WORD;
    assert Wrap(a) - Wrap(b) == (a - b) + (qb - qa) * WORD;
    WrapCancels(a - b, qb - qa);
    if 0 <= a - b < HALF_WORD { WrapUnique(a - b, 0); }
    if -HALF_WORD <= a - b < 0 { WrapUnique(a - b, -1); }
  }

  /** The window is tight: at a distance of exactly 2^31 the two directions agree
      on the sign, so the comparison no longer orders the pair. */
  lemma {:induction false} CircularDifferenceAmbiguous(a: int)
    ensures TimeDiff(Wrap(a), Wrap(a + HALF_WORD)) == TimeDiff(Wrap(a + HALF_WORD), Wrap(a)) == -HALF_WORD
  {
    CircularDifference(a, a + HALF_WORD);
    WrapCancels(a, 1);
    CircularDifference(a + HALF_WORD, a + WORD);
  }
}

/** The per-second countdown applied to the active player's clock. */
module Clock {

  /** The starting allowance of each player, in seconds. */
  const InitialSeconds: int := 3600

  function Max(a: int, b: int): int
  {
    if a < b then b else a
  }

  /** One tick of a clock: down by one second, never below zero. */
  function TickClock(prev: int): (r: int)
    ensures r >= 0
    ensures r < prev || prev <= 0
    ensures prev >= 0 ==> r == Max(0, prev - 1)
  {
    if prev > 0 then prev - 1 else 0
  }

  /** A clock after `n` ticks. */
  function Countdown(t: int, n: nat): int
    decreases n
  {
    if n == 0 then t else Countdown(TickClock(t), n - 1)
  }

  /** From a non-negative reading, `n` ticks subtract `n` seconds, saturating at zero. */
  lemma {:induction false} CountdownFormula(t: int, n: nat)
    requires t >= 0
    ensures Countdown(t, n) == Max(0, t - n)
    ensures Countdown(t, n) >= 0
  {
    if n > 0 {
      CountdownFormula(TickClock(t), n - 1);
    }
  }

}

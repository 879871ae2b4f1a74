/**
 The promotion countdown of `App` in src/App.tsx: a number of seconds that
 starts at 3599 and that a one-second interval ticks down, clamped at zero.
 */
module Countdown {

  /** The initial value of `timeLeft`. */
  const Start: nat := 3599

  function Max(a: int, b: int): int {
    if a >= b then a else b
  }

  /**
   One interval callback: `prev > 0 ? prev - 1 : 0`. Whatever the previous
   value, the result is never negative, and it never exceeds the previous
   value once that is non-negative.
   */
  function Tick(s: int): (r: nat)
    ensures s > 0 ==> r + 1 == s
    ensures s <= 0 ==> r == 0
  {
    if s > 0 then s - 1 else 0
  }

  /** The value after `n` callbacks. */
  function Ticks(s: int, n: nat): int
  {
    if n == 0 then s else Tick(Ticks(s, n - 1))
  }

  /** After `n` ticks from a non-negative value, `n` seconds are gone, but never more than there were. */
  lemma {:induction false} TicksClamp(s: nat, n: nat)
    ensures Ticks(s, n) == Max(0, s - n)
  {
    if n > 0 {
      TicksClamp(s, n - 1);
    }
  }

  /** From the start value the counter reaches zero after exactly 3599 ticks and stays there. */
  lemma ReachesZeroAndStays(n: nat)
    ensures Ticks(Start, n) == 0 <==> n >= Start
    ensures Ticks(Start, n) >= 0
  {
    TicksClamp(Start, n);
  }

  /** Ticks compose: `m` ticks then `n` ticks are `m + n` ticks. */
  lemma {:induction false} TicksCompose(s: int, m: nat, n: nat)
    ensures Ticks(Ticks(s, m), n) == Ticks(s, m + n)
  {
    if n > 0 {
      TicksCompose(s, m, n - 1);
    }
  }

}

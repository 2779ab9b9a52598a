// The reconnect delay. Times are whole nanoseconds, as in the original's durations.
module Backoff {
  import opened Numbers

  function Seconds(n: int): int {
    n * 1_000_000_000
  }

  const BASE_DELAY := Seconds(1)
  const MAX_DELAY := Seconds(30)
  const HEALTHY_AFTER := Seconds(60)

  // A source of jitter: for a positive n, a number below n.
  ghost predicate IsRandom(rnd: int -> int) {
    forall n | n > 0 :: 0 <= rnd(n) < n
  }

  // The delay this wait starts from.
  function Current(cur: int, sessionLasted: int): int {
    if sessionLasted >= HEALTHY_AFTER || cur < BASE_DELAY then BASE_DELAY else cur
  }

  function NextReconnect(cur: int, sessionLasted: int, rnd: int -> int): (r: (int, int))
    requires IsRandom(rnd)
    ensures var (wait, next) := r;
            && Current(cur, sessionLasted) <= wait
            && 2 * wait <= 3 * Current(cur, sessionLasted)
            && (|| next == 2 * Current(cur, sessionLasted) <= MAX_DELAY
                || next == MAX_DELAY <= 2 * Current(cur, sessionLasted))
            && (cur <= MAX_DELAY ==> wait <= Seconds(45))
    // The same in nanoseconds: after a session of a minute, or from a delay below one second, it starts again.
    ensures var (wait, next) := r;
            if sessionLasted >= 60_000_000_000 || cur < 1_000_000_000 then
              1_000_000_000 <= wait <= 1_500_000_000 && next == 2_000_000_000
            else
              && cur <= wait && 2 * wait <= 3 * cur
              && next == if cur <= 15_000_000_000 then 2 * cur else 30_000_000_000
  {
    var now := Current(cur, sessionLasted);
    (now + rnd(now / 2 + 1), Min(now * 2, MAX_DELAY))
  }

  // Every wait in that range is possible, so agents that fail together need not return together.
  lemma WaitsSpread(cur: int, sessionLasted: int, wait: int) returns (rnd: int -> int)
    requires if sessionLasted >= 60_000_000_000 || cur < 1_000_000_000 then 1_000_000_000 <= wait <= 1_500_000_000
             else cur <= wait <= cur + cur / 2
    ensures IsRandom(rnd) && NextReconnect(cur, sessionLasted, rnd).0 == wait
  {
    var jitter := if sessionLasted >= 60_000_000_000 || cur < 1_000_000_000 then wait - 1_000_000_000 else wait - cur;
    rnd := n => if jitter < n then jitter else 0;
  }

  // The only delays the loop ever holds.
  predicate OnLadder(delay: int) {
    delay in {Seconds(1), Seconds(2), Seconds(4), Seconds(8), Seconds(16), Seconds(30)}
  }

  // 1, 2, 4, ... seconds, capped: what the k-th short session in a row waits at least.
  function Climb(k: nat): int {
    if k == 0 then BASE_DELAY else Min(2 * Climb(k - 1), MAX_DELAY)
  }

  function Pow2(k: nat): nat {
    if k == 0 then 1 else 2 * Pow2(k - 1)
  }

  lemma {:induction false} ClimbClosed(k: nat)
    ensures Climb(k) == Min(Seconds(Pow2(k)), MAX_DELAY)
  {
    if k > 0 {
      ClimbClosed(k - 1);
    }
  }

  // How far behind 18 seconds per attempt a loop that holds this delay can be.
  function Debt(delay: int): int {
    if delay <= Seconds(1) then 0
    else if delay <= Seconds(2) then Seconds(17)
    else if delay <= Seconds(4) then Seconds(33)
    else if delay <= Seconds(8) then Seconds(47)
    else if delay <= Seconds(16) then Seconds(57)
    else Seconds(59)
  }

  // Session and wait together pay for one attempt, up to the change in debt.
  lemma AttemptPays(cur: int, sessionLasted: int, rnd: int -> int)
    requires OnLadder(cur) && sessionLasted >= 0 && IsRandom(rnd)
    ensures var (wait, next) := NextReconnect(cur, sessionLasted, rnd);
            OnLadder(next) && sessionLasted + wait + Debt(next) >= Seconds(18) + Debt(cur)
  {
  }
}

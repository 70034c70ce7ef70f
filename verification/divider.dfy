/**
  The reset-at-limit counter used twice per output sample by the AFSK
  processor: the divide-by-10 sub-divider `s` (limit 9) that gates tone ticks,
  and `sample_count` (limit `afsk_samples_per_bit`) that gates bit ticks.
  A counter at or above its limit fires and restarts at 0; below it, it
  counts up by one.
 */
module Divider {

  datatype Count = Count(fires: bool, next: nat)

  function Advance(c: nat, limit: nat): (r: Count)
    ensures r.next <= limit
    ensures r.fires <==> limit <= c
    ensures r.fires ==> r.next == 0
    ensures !r.fires ==> r.next == c + 1
  {
    if c >= limit then Count(true, 0) else Count(false, c + 1)
  }

  /** Number of times a counter starting at `c` fires during `n` consecutive advances. */
  function Firings(c: nat, limit: nat, n: nat): nat
    decreases n
  {
    if n == 0 then 0
    else
      var r := Advance(c, limit);
      (if r.fires then 1 else 0) + Firings(r.next, limit, n - 1)
  }

  /** Counter value after `n` consecutive advances. */
  function After(c: nat, limit: nat, n: nat): nat
    decreases n
  {
    if n == 0 then c else After(Advance(c, limit).next, limit, n - 1)
  }

  /**
    A counter that starts in range fires exactly once in every `limit + 1`
    advances: after `n` advances from `c` it has fired `f` times and stands
    at `a <= limit` with `f * (limit + 1) + a == c + n`, that is, `f` and `a`
    are the quotient and remainder of `c + n` by `limit + 1`.
   */
  lemma {:induction false} FiringsCount(c: nat, limit: nat, n: nat)
    requires c <= limit
    ensures After(c, limit, n) <= limit
    ensures Firings(c, limit, n) * (limit + 1) + After(c, limit, n) == c + n
    decreases n
  {
    if n == 0 {
    } else if c == limit {
      FiringsCount(0, limit, n - 1);
    } else {
      FiringsCount(c + 1, limit, n - 1);
    }
  }

  /** The first advance from the limit itself fires; the next `limit` do not, the one after does. */
  lemma {:induction false} FiringPeriod(c: nat, limit: nat)
    requires c <= limit
    ensures Advance(limit, limit).fires
    ensures Firings(c, limit, limit - c) == 0
    ensures Firings(c, limit, limit - c + 1) == 1
  {
    FiringsCount(c, limit, limit - c);
    FiringsCount(c, limit, limit - c + 1);
  }

  /** One more advance: the counter after `n + 1` advances is one advance past the counter after `n`. */
  lemma {:induction false} AfterSnoc(c: nat, limit: nat, n: nat)
    ensures After(c, limit, n + 1) == Advance(After(c, limit, n), limit).next
    ensures Firings(c, limit, n + 1) == Firings(c, limit, n) + (if Advance(After(c, limit, n), limit).fires then 1 else 0)
    decreases n
  {
    if n > 0 {
      AfterSnoc(Advance(c, limit).next, limit, n - 1);
    }
  }

  /**
    Two counters in cascade, the second advancing only when the first
    fires: one more advance of the first fires it at most once more, and
    advances the second once exactly when it does.
   */
  lemma GatedSnoc(c: nat, limit: nat, d: nat, gateLimit: nat, n: nat)
    ensures var t := Firings(c, limit, n);
            var sub := Advance(After(c, limit, n), limit);
            var gate := Advance(After(d, gateLimit, t), gateLimit);
            && After(c, limit, n + 1) == sub.next
            && Firings(c, limit, n + 1) == t + (if sub.fires then 1 else 0)
            && After(d, gateLimit, Firings(c, limit, n + 1)) == (if sub.fires then gate.next else After(d, gateLimit, t))
            && Firings(d, gateLimit, Firings(c, limit, n + 1))
                 == Firings(d, gateLimit, t) + (if sub.fires && gate.fires then 1 else 0)
  {
    AfterSnoc(c, limit, n);
    AfterSnoc(d, gateLimit, Firings(c, limit, n));
  }
}

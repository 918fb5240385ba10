/**
 * The additive-increase / multiplicative-decrease rule that sets how many
 * downloads may run at once: one step up per monitor tick when the pool is
 * nearly saturated (`monitor_performance`), halving on every failed download
 * (`download_pdf`).
 */
module Aimd {
  import opened Util

  /** `concurrency_limit` when the state is created. */
  const InitialLimit: int := 2

  /** `max_concurrency_cap` when the state is created, before `crawl` overwrites it. */
  const DefaultCap: int := 30

  /** Additive increase on one monitor tick. */
  function TickLimit(active: int, limit: int, cap: int): (r: int)
    ensures r == limit || r == limit + 1
    ensures r == limit + 1 <==> active >= limit - 1 && limit < cap
    ensures r > limit ==> r <= cap
  {
    if active >= limit - 1 && limit < cap then limit + 1 else limit
  }

  /**
   * Multiplicative decrease on one failed download: `max(1, limit // 2)`. Python's `//`
   * floors; for the positive divisor 2 that is Dafny's `/` as well.
   */
  function FailLimit(limit: int): (r: int)
    ensures r >= 1
    ensures limit >= 1 ==> r <= limit
    ensures limit >= 2 ==> 2 * r <= limit < 2 * r + 2
    ensures limit <= 3 ==> r == 1
  {
    Max(1, limit / 2)
  }

  /** The limit stays in `[1, max(2, cap)]`: the initial 2 may exceed a smaller cap. */
  ghost predicate LimitInRange(limit: int, cap: int) {
    1 <= limit <= Max(InitialLimit, cap)
  }

  /**
   * Both adjustments keep the limit in range; with a cap of at least 2 the limit never exceeds it.
   * The initial limit is in range for every cap (that is what the `max` is for), so every limit the
   * crawler reaches is.
   */
  lemma AdjustmentsKeepRange(active: int, limit: int, cap: int)
    requires LimitInRange(limit, cap)
    ensures LimitInRange(TickLimit(active, limit, cap), cap)
    ensures LimitInRange(FailLimit(limit), cap)
    ensures cap >= InitialLimit ==> limit <= cap
  {
  }

  /** The limit after the monitor ticks once for each entry of `actives` (the active count it saw). */
  function AfterTicks(actives: seq<int>, limit: int, cap: int): (r: int)
    ensures limit <= r
    decreases |actives|
  {
    if actives == [] then limit else AfterTicks(actives[1..], TickLimit(actives[0], limit, cap), cap)
  }

  /** Ticks never lower the limit, raise it by at most one each, and never push it past the cap. */
  lemma {:induction false} TicksBounded(actives: seq<int>, limit: int, cap: int)
    ensures limit <= AfterTicks(actives, limit, cap) <= limit + |actives|
    ensures AfterTicks(actives, limit, cap) <= Max(limit, cap)
    decreases |actives|
  {
    if actives != [] {
      TicksBounded(actives[1..], TickLimit(actives[0], limit, cap), cap);
    }
  }

  /**
   * With the pool saturated at every tick (at least `limit - 1` downloads active, for the limit
   * in force at that tick), the limit grows by exactly one per tick until it reaches the cap.
   */
  lemma {:induction false} SaturatedTicksReachCap(actives: seq<int>, limit: int, cap: int)
    requires limit <= cap
    requires forall i :: 0 <= i < |actives| ==> actives[i] >= AfterTicks(actives[..i], limit, cap) - 1
    ensures AfterTicks(actives, limit, cap) == Min(cap, limit + |actives|)
    decreases |actives|
  {
    if actives != [] {
      var next := TickLimit(actives[0], limit, cap);
      assert actives[0] >= AfterTicks(actives[..0], limit, cap) - 1;
      assert actives[..0] == [];
      forall i | 0 <= i < |actives[1..]|
        ensures actives[1..][i] >= AfterTicks(actives[1..][..i], next, cap) - 1
      {
        assert actives[..i + 1][1..] == actives[1..][..i];
        assert actives[i + 1] >= AfterTicks(actives[..i + 1], limit, cap) - 1;
      }
      SaturatedTicksReachCap(actives[1..], next, cap);
    }
  }

  /** The limit after `k` consecutive failed downloads. */
  function AfterFailures(limit: int, k: nat): (r: int)
    ensures k > 0 ==> r >= 1
    ensures limit >= 1 ==> r <= limit
    decreases k
  {
    if k == 0 then limit else AfterFailures(FailLimit(limit), k - 1)
  }

  function Pow2(k: nat): (r: nat)
    ensures r >= 1
  {
    if k == 0 then 1 else 2 * Pow2(k - 1)
  }

  lemma {:induction false} MulNonneg(x: int, y: int)
    requires x >= 0 && y >= 0
    ensures x * y >= 0
    decreases x
  {
    if x > 0 {
      MulNonneg(x - 1, y);
      assert x * y == (x - 1) * y + y;
    }
  }

  lemma MulAtLeast(x: int, d: int)
    requires x >= 1 && d > 0
    ensures x * d >= d
  {
    MulNonneg(x - 1, d);
    assert x * d == (x - 1) * d + d;
  }

  lemma DivUnique(a: int, d: int, q: int, r: int)
    requires d > 0 && a == q * d + r && 0 <= r < d
    ensures a / d == q
  {
    var q0, r0 := a / d, a % d;
    assert a == q0 * d + r0;
    assert (q - q0) * d == r0 - r;
    if q > q0 {
      MulAtLeast(q - q0, d);
      assert false;
    } else if q < q0 {
      MulAtLeast(q0 - q, d);
      assert false;
    }
  }

  lemma Regroup(q: int, q2: int, r2: int, b: int, c: int)
    requires q == q2 * c + r2
    ensures q * b == q2 * (b * c) + r2 * b
  {
    assert q * b == (q2 * c) * b + r2 * b;
    assert (q2 * c) * b == q2 * (b * c);
  }

  lemma RemainderBound(r1: int, r2: int, b: int, c: int)
    requires 0 <= r1 < b && 0 <= r2 < c
    ensures 0 <= r2 * b + r1 < b * c
  {
    MulNonneg(r2, b);
    MulNonneg(c - 1 - r2, b);
    assert (c - 1 - r2) * b == c * b - b - r2 * b;
  }

  lemma DivDiv(a: int, b: int, c: int)
    requires a >= 0 && b > 0 && c > 0
    ensures a / b / c == a / (b * c)
  {
    var q, r1 := a / b, a % b;
    var q2, r2 := q / c, q % c;
    Regroup(q, q2, r2, b, c);
    RemainderBound(r1, r2, b, c);
    DivUnique(a, b * c, q2, r2 * b + r1);
  }

  lemma DivOneBy(d: int)
    requires d >= 1
    ensures 1 / d <= 1
  {
    if d > 1 {
      DivUnique(1, d, 0, 1);
    }
  }

  /** `k` failures in a row from a limit `L >= 1` leave `max(1, L / 2^k)`, floored at each step. */
  lemma {:induction false} FailuresHalve(limit: int, k: nat)
    requires limit >= 1
    ensures AfterFailures(limit, k) == Max(1, limit / Pow2(k))
    decreases k
  {
    if k > 0 {
      var next := FailLimit(limit);
      FailuresHalve(next, k - 1);
      var d := Pow2(k - 1);
      assert Pow2(k) == 2 * d;
      if limit >= 2 {
        assert next == limit / 2;
        DivDiv(limit, 2, d);
      } else {
        assert next == 1;
        DivOneBy(d);
        DivOneBy(2 * d);
      }
    }
  }
}

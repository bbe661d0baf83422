/** The counter of the colour-shift loop (extension.js:178-198): every minute
    `i = i % NUM_SCHEMES`, the scheme at index `i` is injected, then `i++`.
    JavaScript's `%` by zero gives NaN and NaN stays NaN under `++`, so a
    theme whose scheme object is empty keeps asking for `Object.values(schemes)[NaN]`,
    which is undefined. The counter is an `Option<nat>` with None for NaN. */
module ColourShift {
  import opened Wrappers

  /** `i % n` on a counter that is a non-negative integer or NaN. */
  function RemainderOf(i: Option<nat>, n: nat): (r: Option<nat>)
    ensures r.Some? <==> i.Some? && n > 0
    ensures r.Some? ==> r.value < n
  {
    if i.Some? && n > 0 then Some(i.value % n) else None
  }

  /** The increment of the counter (extension.js:195); NaN stays NaN. */
  function Increment(i: Option<nat>): Option<nat>
  {
    if i.Some? then Some(i.value + 1) else None
  }

  /** The counter after `t` ticks of a loop over `n` schemes, starting from `let i = 0`. */
  function CounterAfter(n: nat, t: nat): Option<nat>
    decreases t
  {
    if t == 0 then Some(0) else Increment(RemainderOf(CounterAfter(n, t - 1), n))
  }

  /** The index a tick uses: `i % NUM_SCHEMES` taken on the counter it finds. */
  function IndexAtTick(n: nat, t: nat): Option<nat>
  {
    RemainderOf(CounterAfter(n, t), n)
  }

  /** With at least one scheme the counter runs 0, 1, ..., n, 2, ..., n, ...;
      with none it turns NaN at the first tick and stays so. */
  lemma {:induction false} CounterValue(n: nat, t: nat)
    ensures n > 0 ==> CounterAfter(n, t) == Some(if t == 0 then 0 else (t - 1) % n + 1)
    ensures n == 0 && t > 0 ==> CounterAfter(n, t) == None
  {
    if t > 0 {
      CounterValue(n, t - 1);
      if n > 0 && t > 1 {
        NextRemainder(n, t - 2);
      }
    }
  }

  lemma MulAtLeast(n: nat, d: int)
    requires d >= 1
    ensures d * n >= n
  {
    assert d * n == (d - 1) * n + n;
  }

  /** The remainder is the `r` of any `q * n + r` with `0 <= r < n`. */
  lemma RemainderUnique(n: int, a: int, q: int, r: int)
    requires n > 0 && 0 <= r < n && a == q * n + r
    ensures a % n == r
  {
    var q', r' := a / n, a % n;
    assert a == q' * n + r';
    assert (q - q') * n == r' - r;
    if q > q' { MulAtLeast(n, q - q'); }
    else if q < q' { MulAtLeast(n, q' - q); }
  }

  /** `((t % n) + 1) % n` is `(t + 1) % n`. */
  lemma NextRemainder(n: nat, t: nat)
    requires n > 0
    ensures ((t % n) + 1) % n == (t + 1) % n
  {
    var q, r := t / n, t % n;
    assert t == q * n + r;
    if r + 1 < n {
      RemainderUnique(n, t + 1, q, r + 1);
      RemainderUnique(n, r + 1, 0, r + 1);
    } else {
      assert t + 1 == (q + 1) * n + 0;
      RemainderUnique(n, t + 1, q + 1, 0);
      RemainderUnique(n, n, 1, 0);
    }
  }

  /** Tick `t` (counting from 0) injects scheme `t % n`: the loop walks the
      schemes in order and starts over after the last. With no scheme every
      tick asks for an undefined one. */
  lemma IndexCycles(n: nat, t: nat)
    ensures IndexAtTick(n, t) == if n > 0 then Some(t % n) else None
  {
    CounterValue(n, t);
    if n > 0 && t > 0 {
      NextRemainder(n, t - 1);
    }
  }

  /** The closure state of one running loop: the scheme count fixed when the
      loop starts and the counter `i` it mutates. */
  class ShiftLoop {
    const count: nat
    var i: Option<nat>
    ghost var ticks: nat

    ghost predicate Valid()
      reads this
    {
      i == CounterAfter(count, ticks)
    }

    /** A new loop: the counter starts at 0 and the number of schemes is fixed
        once, when the loop starts (extension.js:179-180). */
    constructor (schemeCount: nat)
      ensures count == schemeCount && ticks == 0 && Valid()
    {
      count := schemeCount;
      i := Some(0);
      ticks := 0;
    }

    /** One run of the interval callback's counter arithmetic; `used` is the
        index it hands to `Object.values(schemes)[i]`. */
    method Tick() returns (used: Option<nat>)
      requires Valid()
      modifies this
      ensures Valid() && ticks == old(ticks) + 1
      ensures used == if count > 0 then Some(old(ticks) % count) else None
    {
      IndexCycles(count, ticks);
      i := RemainderOf(i, count);
      used := i;
      i := Increment(i);
      ticks := ticks + 1;
    }
  }
}

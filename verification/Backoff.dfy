/** The reconnect delay shared by the SSE and the WebSocket client: it starts at a base, doubles up to
    a cap each time a reconnect timer fires, and returns to the base on a successful open. */
module Backoff {
  datatype Signal = Opened | TimerFired

  function Min(a: nat, b: nat): nat {
    if a < b then a else b
  }

  function Doubled(delay: nat, cap: nat): nat {
    Min(delay * 2, cap)
  }

  function Next(delay: nat, base: nat, cap: nat, signal: Signal): nat {
    match signal
    case Opened => base
    case TimerFired => Doubled(delay, cap)
  }

  function Run(base: nat, cap: nat, signals: seq<Signal>): nat {
    if signals == [] then base
    else Next(Run(base, cap, signals[..|signals| - 1]), base, cap, signals[|signals| - 1])
  }

  /** Timer fires since the last open. */
  function Failures(signals: seq<Signal>): nat {
    if signals == [] || signals[|signals| - 1].Opened? then 0
    else 1 + Failures(signals[..|signals| - 1])
  }

  function Pow2(k: nat): (p: nat)
    ensures p >= 1
  {
    if k == 0 then 1 else 2 * Pow2(k - 1)
  }

  /** The delay after `k` failures: the base, doubled `k` times, capped. */
  function After(base: nat, cap: nat, k: nat): nat {
    if k == 0 then base else Min(base * Pow2(k), cap)
  }

  lemma AfterDoubles(base: nat, cap: nat, k: nat)
    ensures Doubled(After(base, cap, k), cap) == After(base, cap, k + 1)
  {
    assert base * Pow2(k + 1) == 2 * (base * Pow2(k));
  }

  /** In every run the delay depends only on the failures since the last open. */
  lemma {:induction false} ClosedForm(base: nat, cap: nat, signals: seq<Signal>)
    ensures Run(base, cap, signals) == After(base, cap, Failures(signals))
    decreases |signals|
  {
    if signals == [] {
    } else {
      var before := signals[..|signals| - 1];
      ClosedForm(base, cap, before);
      AfterDoubles(base, cap, Failures(before));
    }
  }

  /** With a base below the cap the delay stays between them. */
  lemma DelayInRange(base: nat, cap: nat, k: nat)
    requires base <= cap
    ensures base <= After(base, cap, k) <= cap
  {
    assert base * Pow2(k) >= base by {
      assert base * (Pow2(k) - 1) >= 0;
    }
  }
}

/** The rejection sampler that picks an acknowledgement reaction. */
module Sampler {
  import opened Text

  const U64_MAX: nat := 0xFFFF_FFFF_FFFF_FFFF
  type u64 = n: nat | n <= U64_MAX

  function Threshold(len: u64): nat
    requires len > 0
  {
    U64_MAX / len * len
  }

  predicate Accepted(value: u64, len: u64)
    requires len > 0
  {
    value < Threshold(len)
  }

  /** What the loop returns on a list of draws; it is still looping if none is accepted. */
  function Pick(len: u64, draws: seq<nat>): Option<nat>
    requires len > 0
  {
    if draws == [] then None
    else if draws[0] < Threshold(len) then Some(draws[0] % len)
    else Pick(len, draws[1..])
  }

  /** The loop over a random stream, of which `draws` is what has been drawn so far: it returns at the
      first accepted draw, and is still looping if there is none. */
  method PickUniformIndex(len: u64, draws: seq<u64>) returns (index: Option<nat>)
    requires len > 0
    ensures index.Some? <==> exists k :: 0 <= k < |draws| && Accepted(draws[k], len)
    ensures index.Some? ==> index.value < len
    ensures index.Some? ==>
              exists k :: 0 <= k < |draws| && Accepted(draws[k], len) && index.value == draws[k] % len
                          && forall j :: 0 <= j < k ==> !Accepted(draws[j], len)
    ensures index == Pick(len, draws)
  {
    var upper := len;
    var rejectThreshold := U64_MAX / upper * upper;
    for i := 0 to |draws|
      invariant forall j :: 0 <= j < i ==> !Accepted(draws[j], len)
      invariant Pick(len, draws) == Pick(len, draws[i..])
    {
      if draws[i] < rejectThreshold {
        return Some(draws[i] % upper);
      }
    }
    return None;
  }

  /** The accepted draws that pick a given index. */
  ghost function DrawsFor(index: nat, len: nat, threshold: nat): set<nat>
    requires len > 0
  {
    set v: nat | 0 <= v < threshold && v % len == index
  }

  lemma Scale(a: nat, b: nat, d: nat)
    requires a <= b
    ensures a * d <= b * d
  {
  }

  lemma DivisionUnique(n: nat, d: nat, q: nat, r: nat)
    requires r < d && n == q * d + r
    ensures n % d == r && n / d == q
  {
    var q', r' := n / d, n % d;
    assert n == q' * d + r';
    if q' < q {
      Scale(q' + 1, q, d);
    } else if q < q' {
      Scale(q + 1, q', d);
    }
  }

  lemma OneMoreDraw(index: nat, len: nat, q: nat)
    requires index < len && q > 0
    ensures var v := (q - 1) * len + index;
            && v !in DrawsFor(index, len, (q - 1) * len)
            && DrawsFor(index, len, q * len) == DrawsFor(index, len, (q - 1) * len) + {v}
  {
    var base := (q - 1) * len;
    assert q * len == base + len;
    forall w: nat | base <= w < base + len
      ensures w % len == w - base
    {
      DivisionUnique(w, len, q - 1, w - base);
    }
  }

  lemma {:induction false} DrawsForMultiple(index: nat, len: nat, q: nat)
    requires index < len
    ensures |DrawsFor(index, len, q * len)| == q
    decreases q
  {
    if q == 0 {
      assert DrawsFor(index, len, 0) == {};
    } else {
      var v := (q - 1) * len + index;
      DrawsForMultiple(index, len, q - 1);
      OneMoreDraw(index, len, q);
      assert |DrawsFor(index, len, (q - 1) * len) + {v}| == q;
    }
  }

  /** Every index is picked by exactly the same number of accepted draws. */
  lemma ExactlyUniform(index: nat, len: u64)
    requires index < len
    ensures |DrawsFor(index, len, Threshold(len))| == 0xFFFF_FFFF_FFFF_FFFF / len
  {
    DrawsForMultiple(index, len, U64_MAX / len);
  }

  // ---------------------------------------------------------------- the whole loop

  function Upto(n: nat): set<nat> {
    if n == 0 then {} else Upto(n - 1) + {n - 1}
  }

  lemma {:induction false} UptoIs(n: nat, v: nat)
    ensures v in Upto(n) <==> v < n
    decreases n
  {
    if n == 0 {
    } else {
      UptoIs(n - 1, v);
    }
  }

  ghost function Values(): set<nat> {
    Upto(U64_MAX + 1)
  }

  ghost function Rejected(len: u64): set<nat>
    requires len > 0
  {
    set v | v in Values() && v >= Threshold(len)
  }

  /** Every choice of a first draw from one set and of the later draws from another. */
  ghost function Lists(heads: set<nat>, tails: set<seq<nat>>): set<seq<nat>> {
    set v, t | v in heads && t in tails :: [v] + t
  }

  /** All lists of `n` draws. */
  ghost function DrawLists(n: nat): set<seq<nat>> {
    if n == 0 then {[]} else Lists(Values(), DrawLists(n - 1))
  }

  lemma FirstOf(heads: set<nat>, tails: set<seq<nat>>, v: nat, later: seq<nat>)
    ensures [v] + later in Lists(heads, tails) <==> v in heads && later in tails
  {
    if [v] + later in Lists(heads, tails) {
      var w, t :| w in heads && t in tails && [v] + later == [w] + t;
      assert ([v] + later)[0] == w && ([v] + later)[1..] == t && ([w] + t)[1..] == t;
      assert ([v] + later)[1..] == later;
    }
  }

  /** That is, of any `n` 64-bit values. */
  lemma {:induction false} DrawListsAreAll(n: nat, draws: seq<nat>)
    ensures draws in DrawLists(n) <==> |draws| == n && forall i :: 0 <= i < n ==> draws[i] < 0x1_0000_0000_0000_0000
    decreases n
  {
    if n == 0 {
    } else if draws == [] {
      assert draws !in DrawLists(n);
    } else {
      var v, later := draws[0], draws[1..];
      assert draws == [v] + later;
      UptoIs(U64_MAX + 1, v);
      DrawListsAreAll(n - 1, later);
      hide Upto;
      assert draws in DrawLists(n) <==> v in Values() && later in DrawLists(n - 1) by {
        FirstOf(Values(), DrawLists(n - 1), v, later);
      }
      assert forall i :: 1 <= i < |draws| ==> draws[i] == later[i - 1];
    }
  }

  /** The lists of `n` draws on which the loop returns `index`. */
  ghost function Picking(len: u64, n: nat, index: nat): set<seq<nat>>
    requires len > 0
  {
    set draws | draws in DrawLists(n) && Pick(len, draws) == Some(index)
  }

  lemma ListsDisjoint(a: set<nat>, b: set<nat>, t: set<seq<nat>>, u: set<seq<nat>>)
    requires a !! b
    ensures Lists(a, t) !! Lists(b, u)
  {
    forall s | s in Lists(a, t)
      ensures s !in Lists(b, u)
    {
      assert s[0] in a;
    }
  }

  lemma ListsUnion(a: set<nat>, b: set<nat>, tails: set<seq<nat>>)
    ensures Lists(a + b, tails) == Lists(a, tails) + Lists(b, tails)
  {
  }

  lemma {:induction false} ListsOfOne(v: nat, tails: set<seq<nat>>)
    ensures |Lists({v}, tails)| == |tails|
    decreases |tails|
  {
    if tails == {} {
      assert Lists({v}, tails) == {};
    } else {
      var t :| t in tails;
      var rest := tails - {t};
      ListsOfOne(v, rest);
      assert tails == rest + {t};
      forall s | s in Lists({v}, tails)
        ensures s in Lists({v}, rest) + {[v] + t}
      {
        var u :| u in tails && s == [v] + u;
      }
      assert Lists({v}, tails) == Lists({v}, rest) + {[v] + t};
      assert ([v] + t)[1..] == t;
      forall u | u in rest
        ensures [v] + u != [v] + t
      {
        assert ([v] + u)[1..] == u;
      }
    }
  }

  lemma OneMoreTimes(a: nat, b: nat, n: nat)
    requires a == b + 1
    ensures a * n == b * n + n
  {
  }

  lemma {:induction false} ListsCount(heads: set<nat>, tails: set<seq<nat>>)
    ensures |Lists(heads, tails)| == |heads| * |tails|
    decreases |heads|
  {
    if heads == {} {
      assert Lists(heads, tails) == {};
    } else {
      hide Lists;
      var v :| v in heads;
      var rest := heads - {v};
      assert heads == {v} + rest;
      ListsCount(rest, tails);
      ListsOfOne(v, tails);
      ListsUnion({v}, rest, tails);
      ListsDisjoint({v}, rest, tails, tails);
      OneMoreTimes(|heads|, |rest|, |tails|);
    }
  }

  lemma ThresholdFits(len: u64)
    requires len > 0
    ensures Threshold(len) <= U64_MAX
  {
  }

  /** A list picks an index by its first draw, or by the later ones when the first is rejected. */
  lemma PickingSplit(len: u64, n: nat, index: nat)
    requires n > 0 && index < len
    ensures var heads, rejected := DrawsFor(index, len, Threshold(len)), Rejected(len);
            && Picking(len, n, index) == Lists(heads, DrawLists(n - 1)) + Lists(rejected, Picking(len, n - 1, index))
            && Lists(heads, DrawLists(n - 1)) !! Lists(rejected, Picking(len, n - 1, index))
  {
    var heads, rejected := DrawsFor(index, len, Threshold(len)), Rejected(len);
    ThresholdFits(len);
    forall v, t | v in Values() && t in DrawLists(n - 1)
      ensures [v] + t in DrawLists(n)
      ensures Pick(len, [v] + t) == Some(index) <==>
                v in heads || (v in rejected && t in Picking(len, n - 1, index))
    {
      UptoIs(U64_MAX + 1, v);
      assert ([v] + t)[0] == v && ([v] + t)[1..] == t;
    }
    forall v | v in heads
      ensures v in Values()
    {
      UptoIs(U64_MAX + 1, v);
    }
    forall s | s in Picking(len, n, index)
      ensures s in Lists(heads, DrawLists(n - 1)) + Lists(rejected, Picking(len, n - 1, index))
    {
      var v, t :| v in Values() && t in DrawLists(n - 1) && s == [v] + t;
      assert v in heads || (v in rejected && t in Picking(len, n - 1, index));
    }
    ListsDisjoint(heads, rejected, DrawLists(n - 1), Picking(len, n - 1, index));
  }

  lemma PickingCount(len: u64, n: nat, index: nat)
    requires n > 0 && index < len
    ensures |Picking(len, n, index)| ==
              U64_MAX / len * |DrawLists(n - 1)|
              + |Rejected(len)| * |Picking(len, n - 1, index)|
  {
    PickingSplit(len, n, index);
    ExactlyUniform(index, len);
    ListsCount(DrawsFor(index, len, Threshold(len)), DrawLists(n - 1));
    ListsCount(Rejected(len), Picking(len, n - 1, index));
    hide Picking, Lists, DrawsFor, DrawLists;
  }

  /** Among all lists of `n` draws, every index is returned by the same number of lists. */
  lemma {:induction false} LoopIsUniform(len: u64, n: nat, i: nat, j: nat)
    requires i < len && j < len
    ensures |Picking(len, n, i)| == |Picking(len, n, j)|
    decreases n
  {
    if n == 0 {
      assert Picking(len, 0, i) == {} && Picking(len, 0, j) == {};
    } else {
      LoopIsUniform(len, n - 1, i, j);
      PickingCount(len, n, i);
      PickingCount(len, n, j);
    }
  }

  /** A draw is accepted more often than not, and at most `len` of the 2^64 values are rejected. */
  lemma MostDrawsAccepted(len: u64)
    requires len > 0
    ensures 2 * Threshold(len) > 0xFFFF_FFFF_FFFF_FFFF
    ensures 1 <= 0x1_0000_0000_0000_0000 - Threshold(len) <= len
  {
    var q := U64_MAX / len;
    assert U64_MAX == q * len + U64_MAX % len;
    assert q >= 1;
    Scale(1, q, len);
  }
}

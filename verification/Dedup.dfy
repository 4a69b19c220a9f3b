/** Mochat's message deduplication: a set that forgets an arbitrary half of itself when full. */
module Dedup {
  import opened Text

  const DEDUP_CAPACITY: nat := 10000

  /** One call: the id, the ids evicted by it, and the verdict. */
  datatype Check = Check(id: string, evicted: set<string>, duplicate: bool)

  predicate Accepts(c: Check) {
    c.id != "" && !c.duplicate
  }

  /** What a call may do to the set `s`: which half is evicted is up to the hash order. */
  ghost predicate Allowed(s: set<string>, c: Check) {
    && (c.duplicate <==> c.id != "" && c.id in s)
    && if Accepts(c) && |s| >= DEDUP_CAPACITY then c.evicted <= s && |c.evicted| == DEDUP_CAPACITY / 2
       else c.evicted == {}
  }

  function Apply(s: set<string>, c: Check): set<string> {
    if Accepts(c) then s - c.evicted + {c.id} else s
  }

  class MochatDedup {
    var dedup: set<string>

    constructor ()
      ensures dedup == {}
    {
      dedup := {};
    }

    /** `iter().take(n)`, in the set's own order. */
    static method Take(s: set<string>, n: nat) returns (taken: set<string>)
      requires n <= |s|
      ensures taken <= s && |taken| == n
    {
      taken := {};
      while |taken| < n
        invariant taken <= s && |taken| <= n
      {
        assert s == taken + (s - taken);
        var key :| key in s - taken;
        taken := taken + {key};
      }
    }

    method IsDuplicate(id: string) returns (duplicate: bool, ghost evicted: set<string>)
      modifies this
      ensures Allowed(old(dedup), Check(id, evicted, duplicate))
      ensures dedup == Apply(old(dedup), Check(id, evicted, duplicate))
    {
      evicted := {};
      if id == "" {
        return false, {};
      }
      if id in dedup {
        return true, {};
      }
      if |dedup| >= DEDUP_CAPACITY {
        var toRemove := Take(dedup, DEDUP_CAPACITY / 2);
        dedup := dedup - toRemove;
        evicted := toRemove;
      }
      dedup := dedup + {id};
      duplicate := false;
    }
  }

  // ---------------------------------------------------------------- runs

  function After(run: seq<Check>): set<string> {
    if run == [] then {} else Apply(After(run[..|run| - 1]), run[|run| - 1])
  }

  ghost predicate Valid(run: seq<Check>) {
    forall i :: 0 <= i < |run| ==> Allowed(After(run[..i]), run[i])
  }

  function Acceptances(run: seq<Check>): nat {
    if run == [] then 0
    else Acceptances(run[..|run| - 1]) + (if Accepts(run[|run| - 1]) then 1 else 0)
  }

  function Evictions(run: seq<Check>): nat {
    if run == [] then 0
    else Evictions(run[..|run| - 1]) + (if run[|run| - 1].evicted != {} then 1 else 0)
  }

  function AcceptancesOf(run: seq<Check>, id: string): nat {
    if run == [] then 0
    else
      AcceptancesOf(run[..|run| - 1], id)
      + (if Accepts(run[|run| - 1]) && run[|run| - 1].id == id then 1 else 0)
  }

  function EvictionsOf(run: seq<Check>, id: string): nat {
    if run == [] then 0
    else EvictionsOf(run[..|run| - 1], id) + (if id in run[|run| - 1].evicted then 1 else 0)
  }

  lemma ValidFront(run: seq<Check>)
    requires Valid(run) && run != []
    ensures Valid(run[..|run| - 1]) && Allowed(After(run[..|run| - 1]), run[|run| - 1])
  {
    var front := run[..|run| - 1];
    assert forall i :: 0 <= i < |front| ==> front[..i] == run[..i];
  }

  lemma {:induction false} Sizes(run: seq<Check>)
    requires Valid(run)
    ensures |After(run)| == Acceptances(run) - 5000 * Evictions(run)
    ensures |After(run)| <= DEDUP_CAPACITY
    ensures Evictions(run) > 0 ==> |After(run)| > DEDUP_CAPACITY / 2
    decreases |run|
  {
    if run == [] {
    } else {
      var front, c := run[..|run| - 1], run[|run| - 1];
      ValidFront(run);
      Sizes(front);
      if Accepts(c) {
        var kept := After(front) - c.evicted;
        assert After(front) == kept + c.evicted;
        assert |After(front)| == |kept| + |c.evicted|;
        assert After(run) == kept + {c.id} && c.id !in kept;
      }
    }
  }

  /** Whatever halves are evicted, the counts are forced: after F acceptances and E evictions the set
      holds F - 5000 E ids, never more than 10000, and E is determined by F. */
  lemma {:induction false} Accounting(run: seq<Check>)
    requires Valid(run)
    ensures var f, e := Acceptances(run), Evictions(run);
            && |After(run)| == f - 5000 * e
            && |After(run)| <= DEDUP_CAPACITY
            && e == (if f <= DEDUP_CAPACITY then 0 else (f - 5001) / 5000)
    decreases |run|
  {
    Sizes(run);
  }

  /** Conservation per id: it was accepted once for each time it was evicted, and once more if it is
      in the set. */
  lemma {:induction false} AcceptedPerEviction(run: seq<Check>, id: string)
    requires Valid(run)
    ensures AcceptancesOf(run, id) == EvictionsOf(run, id) + (if id in After(run) then 1 else 0)
    ensures EvictionsOf(run, id) <= Evictions(run)
    ensures AcceptancesOf(run, id) <= Evictions(run) + 1
    decreases |run|
  {
    if run == [] {
    } else {
      ValidFront(run);
      AcceptedPerEviction(run[..|run| - 1], id);
    }
  }

  lemma {:induction false} MembersWereAccepted(run: seq<Check>, id: string)
    requires Valid(run) && id in After(run)
    ensures exists j :: 0 <= j < |run| && Accepts(run[j]) && run[j].id == id
    decreases |run|
  {
    var front, c := run[..|run| - 1], run[|run| - 1];
    ValidFront(run);
    if Accepts(c) && c.id == id {
    } else {
      MembersWereAccepted(front, id);
      var j :| 0 <= j < |front| && Accepts(front[j]) && front[j].id == id;
      assert run[j] == front[j];
    }
  }

  /** A duplicate verdict is never wrong: the id was accepted by an earlier call. */
  lemma DuplicateWasSeen(run: seq<Check>, i: nat)
    requires Valid(run) && i < |run| && run[i].duplicate
    ensures exists j :: 0 <= j < i && Accepts(run[j]) && run[j].id == run[i].id
  {
    var before := run[..i];
    assert forall j :: 0 <= j < i ==> before[..j] == run[..j];
    assert Allowed(After(before), run[i]);
    MembersWereAccepted(before, run[i].id);
    var j :| 0 <= j < |before| && Accepts(before[j]) && before[j].id == run[i].id;
    assert run[j] == before[j];
  }

  lemma {:induction false} CountedIfAccepted(run: seq<Check>, j: nat)
    requires j < |run| && Accepts(run[j])
    ensures AcceptancesOf(run, run[j].id) >= 1
    decreases |run|
  {
    if j >= |run| - 1 {
    } else {
      CountedIfAccepted(run[..|run| - 1], j);
    }
  }

  /** The verdict of call `i` says whether the id was accepted before. */
  ghost predicate Exact(run: seq<Check>, i: nat)
    requires i < |run|
  {
    run[i].duplicate <==> exists j :: 0 <= j < i && Accepts(run[j]) && run[j].id == run[i].id
  }

  /** Until the first eviction the verdict is exact: a duplicate exactly when accepted before. */
  lemma ExactUntilFull(run: seq<Check>, i: nat)
    requires Valid(run) && i < |run| && run[i].id != "" && Acceptances(run[..i]) <= DEDUP_CAPACITY
    ensures Exact(run, i)
  {
    var before, id := run[..i], run[i].id;
    assert forall j :: 0 <= j < i ==> before[..j] == run[..j];
    assert Valid(before) && Allowed(After(before), run[i]);
    Accounting(before);
    AcceptedPerEviction(before, id);
    if run[i].duplicate {
      DuplicateWasSeen(run, i);
    }
    if j :| 0 <= j < i && Accepts(run[j]) && run[j].id == id {
      assert before[j] == run[j];
      CountedIfAccepted(before, j);
    }
  }

  // ---------------------------------------------------------------- forgetting

  lemma {:induction false} Half(s: set<string>, n: nat) returns (half: set<string>)
    requires n <= |s|
    ensures half <= s && |half| == n
    decreases n
  {
    if n == 0 {
      half := {};
    } else {
      var front := Half(s, n - 1);
      assert s == front + (s - front);
      var k :| k in s - front;
      half := front + {k};
    }
  }

  /** A call with an id that is not in the set, evicting some half of a full one. */
  lemma AnyAcceptance(s: set<string>, id: string) returns (c: Check)
    requires id != "" && id !in s
    ensures c.id == id && !c.duplicate && Accepts(c) && Allowed(s, c)
  {
    var evicted := {};
    if |s| >= DEDUP_CAPACITY {
      evicted := Half(s, DEDUP_CAPACITY / 2);
    }
    c := Check(id, evicted, false);
  }

  lemma ValidSnoc(run: seq<Check>, c: Check)
    requires Valid(run) && Allowed(After(run), c)
    ensures Valid(run + [c])
  {
    var all := run + [c];
    forall i | 0 <= i < |all|
      ensures Allowed(After(all[..i]), all[i])
    {
      assert if i < |run| then all[..i] == run[..i] else all[..i] == run;
    }
  }

  lemma {:induction false} MembersAreIn(run: seq<Check>, ids: set<string>)
    requires forall i :: 0 <= i < |run| ==> run[i].id in ids
    ensures After(run) <= ids
    decreases |run|
  {
    if run == [] {
    } else {
      MembersAreIn(run[..|run| - 1], ids);
    }
  }

  function Ids(n: nat): set<string> {
    if n == 0 then {} else Ids(n - 1) + {Name(n - 1)}
  }

  lemma {:induction false} IdsAre(n: nat, i: nat)
    ensures Name(i) in Ids(n) <==> i < n
    ensures |Ids(n)| == n
    decreases n
  {
    if n == 0 {
    } else {
      IdsAre(n - 1, i);
      IdsAre(n - 1, n - 1);
      assert |Name(i)| != |Name(n - 1)| <==> i != n - 1;
    }
  }

  lemma {:induction false} IdOf(n: nat, id: string) returns (i: nat)
    requires id in Ids(n)
    ensures i < n && id == Name(i)
    decreases n
  {
    if id == Name(n - 1) {
      i := n - 1;
    } else {
      i := IdOf(n - 1, id);
    }
  }

  /** `n` different ids, one after the other, all accepted. */
  lemma {:induction false} FreshRun(n: nat) returns (run: seq<Check>)
    ensures Valid(run) && |run| == n && Acceptances(run) == n
    ensures forall i :: 0 <= i < n ==> Accepts(run[i]) && run[i].id == Name(i)
    ensures After(run) <= Ids(n)
    decreases n
  {
    if n == 0 {
      run := [];
    } else {
      hide Valid, Allowed, Name, Ids;
      var front := FreshRun(n - 1);
      IdsAre(n - 1, n - 1);
      assert |Name(n - 1)| == n;
      var c := AnyAcceptance(After(front), Name(n - 1));
      ValidSnoc(front, c);
      run := front + [c];
      assert run[..n - 1] == front;
      forall i | 0 <= i < n
        ensures Accepts(run[i]) && run[i].id == Name(i) && run[i].id in Ids(n)
      {
        IdsAre(n, i);
      }
      hide Acceptances;
      MembersAreIn(run, Ids(n));
    }
  }

  lemma Missing(ids: set<string>, s: set<string>) returns (id: string)
    requires s <= ids && |s| < |ids|
    ensures id in ids && id !in s
  {
    assert ids == s + (ids - s);
    id :| id in ids - s;
  }

  /** After more acceptances than the set can hold, some id was forgotten, and is accepted again. */
  lemma Forgets(n: nat) returns (run: seq<Check>)
    requires n > DEDUP_CAPACITY
    ensures Valid(run) && |run| == n + 1 && run[n].id != "" && Acceptances(run[..n]) == n && !Exact(run, n)
  {
    hide Valid, Allowed, Name, Ids, After;
    var front := FreshRun(n);
    Accounting(front);
    IdsAre(n, n);
    var id := Missing(Ids(n), After(front));
    var i := IdOf(n, id);
    assert |id| == i + 1;
    var c := AnyAcceptance(After(front), id);
    ValidSnoc(front, c);
    run := front + [c];
    assert run[..n] == front;
    assert Accepts(run[i]) && run[i].id == run[n].id;
  }

  /** All verdicts given after `n` acceptances are exact, in every run, if and only if the set can hold
      `n` ids. */
  lemma ExactIff(n: nat)
    ensures (forall run: seq<Check>, i: nat ::
               Valid(run) && i < |run| && run[i].id != "" && Acceptances(run[..i]) == n ==> Exact(run, i))
            <==> n <= DEDUP_CAPACITY
  {
    if n <= DEDUP_CAPACITY {
      forall run: seq<Check>, i: nat | Valid(run) && i < |run| && run[i].id != "" && Acceptances(run[..i]) == n
        ensures Exact(run, i)
      {
        ExactUntilFull(run, i);
      }
    } else {
      var run := Forgets(n);
      assert !Exact(run, n);
    }
  }
}

/** When the cache is a recency list although the clock may stand still. */
module ChatCacheRecency {
  import opened Text
  import opened ChatCache
  import opened ChatCacheProofs
  import opened ChatCacheTies

  ghost predicate Steady(ts: seq<nat>) {
    forall i, j :: 0 <= i <= j < |ts| ==> ts[i] <= ts[j]
  }

  /** Two stamps may be equal at the start, or so late that no eviction can depend on them any more. */
  ghost predicate Telling(ts: seq<nat>) {
    forall b :: 1 <= b && b + MAX_CACHED_SESSIONS < |ts| ==> ts[b] < ts[b + 1]
  }

  /** The run's stamps are the first of `ts`. */
  ghost predicate At(run: seq<Timed>, ts: seq<nat>) {
    |run| <= |ts| && forall i :: 0 <= i < |run| ==> run[i].now == ts[i]
  }

  /** The same operations under a clock that always advances: it counts them. */
  function Counted(run: seq<Timed>): (r: seq<Timed>)
    ensures |r| == |run|
    ensures forall i :: 0 <= i < |r| ==> r[i] == Timed(run[i].op, i)
  {
    seq(|run|, i requires 0 <= i < |run| => Timed(run[i].op, i))
  }

  lemma {:induction false} SameReference(a: seq<Timed>, b: seq<Timed>)
    requires |a| == |b| && forall i :: 0 <= i < |a| ==> a[i].op == b[i].op
    ensures RefAfter(a) == RefAfter(b)
    decreases |a|
  {
    if a == [] {
    } else {
      SameReference(a[..|a| - 1], b[..|b| - 1]);
    }
  }

  lemma CountedFront(run: seq<Timed>)
    requires run != []
    ensures Counted(run)[..|run| - 1] == Counted(run[..|run| - 1])
  {
  }

  // ---------------------------------------------------------------- two clocks

  ghost predicate SessionImage(a: Session, b: Session, ts: seq<nat>) {
    && a.messages == b.messages && a.meta == b.meta
    && b.lastAccess < |ts| && a.lastAccess == ts[b.lastAccess]
  }

  /** The store under the real clock, and the one under the counting clock: they differ in the stamps. */
  ghost predicate Image(st: Store, counted: Store, ts: seq<nat>) {
    && st.order == counted.order && st.drafts == counted.drafts && st.entries.Keys == counted.entries.Keys
    && forall k :: k in st.entries ==> SessionImage(st.entries[k], counted.entries[k], ts)
  }

  /** Only the first operation has stamp 0, and the session it made is the first in the map. */
  ghost predicate FirstIsFirst(counted: Store) {
    forall k :: k in counted.entries && counted.entries[k].lastAccess == 0 ==>
      counted.order != [] && counted.order[0] == k
  }

  lemma PutImage(st: Store, counted: Store, ts: seq<nat>, k: string, a: Session, b: Session)
    requires Image(st, counted, ts) && SessionImage(a, b, ts)
    ensures Image(Put(st, k, a), Put(counted, k, b), ts)
  {
    hide SessionImage;
  }

  lemma RemoveImage(st: Store, counted: Store, ts: seq<nat>, k: string)
    requires Image(st, counted, ts)
    ensures Image(Remove(st, k), Remove(counted, k), ts)
  {
    hide SessionImage, Without;
  }

  lemma PutFirst(counted: Store, k: string, session: Session)
    requires WellFormed(counted) && FirstIsFirst(counted)
    requires session.lastAccess > 0 || counted.order == []
    ensures FirstIsFirst(Put(counted, k, session))
  {
  }

  lemma RemoveFirst(counted: Store, k: string)
    requires WellFormed(counted) && FirstIsFirst(counted)
    ensures FirstIsFirst(Remove(counted, k))
  {
  }

  // ---------------------------------------------------------------- eviction under two clocks

  /** The listed stamps leave room for one another. */
  lemma {:induction false} ListedSpread(entries: map<string, Session>, chats: seq<Chat>, bound: nat)
    requires Listed(entries, chats, bound) && chats != []
    ensures chats[0].key in entries && entries[chats[0].key].lastAccess + |chats| <= bound
    decreases |chats|
  {
    var front, last := chats[..|chats| - 1], chats[|chats| - 1];
    if front == [] {
    } else {
      ListedSpread(entries, front, entries[last.key].lastAccess);
    }
  }

  /** Both scans find the head of the recency list: its stamp is below all others, or it is the session
      of the first operation, which no other precedes in the map. */
  lemma ScansAgree(st: Store, counted: Store, ts: seq<nat>, chats: seq<Chat>, n: nat)
    requires Steady(ts) && Telling(ts) && n < |ts|
    requires WellFormed(st) && Image(st, counted, ts) && FirstIsFirst(counted)
    requires Represents(counted, chats, n + 1) && |chats| > MAX_CACHED_SESSIONS
    ensures st.order != [] && Oldest(st.order, st.entries) == Oldest(counted.order, counted.entries)
  {
    var k := chats[0].key;
    HeadIsOldest(counted.entries, chats, n + 1);
    HeadKey(chats);
    ListedSpread(counted.entries, chats, n + 1);
    OldestIsStrictMinimum(counted.order, counted.entries, k);
    var b := counted.entries[k].lastAccess;
    assert b + MAX_CACHED_SESSIONS < |ts|;
    hide Oldest, Listed, Represents;
    if b == 0 {
      forall i | 0 <= i < |st.order|
        ensures st.entries[k].lastAccess <= st.entries[st.order[i]].lastAccess
      {
        assert SessionImage(st.entries[st.order[i]], counted.entries[st.order[i]], ts);
      }
      FirstOfLeast(st.order, st.entries);
    } else {
      forall x | x in st.entries && x != k
        ensures st.entries[k].lastAccess < st.entries[x].lastAccess
      {
        assert SessionImage(st.entries[x], counted.entries[x], ts);
        assert ts[b] < ts[b + 1] <= ts[counted.entries[x].lastAccess];
      }
      OldestIsStrictMinimum(st.order, st.entries, k);
    }
  }

  lemma EvictImage(st: Store, counted: Store, ts: seq<nat>, chats: seq<Chat>, n: nat)
    requires Steady(ts) && Telling(ts) && n < |ts|
    requires WellFormed(st) && Image(st, counted, ts) && FirstIsFirst(counted) && Represents(counted, chats, n + 1)
    ensures Image(Evict(st), Evict(counted), ts) && FirstIsFirst(Evict(counted))
  {
    if |st.order| > MAX_CACHED_SESSIONS {
      ScansAgree(st, counted, ts, chats, n);
      var k := Oldest(st.order, st.entries);
      RemoveImage(st, counted, ts, k);
      RemoveFirst(counted, k);
    }
    hide Oldest, Listed, Image, FirstIsFirst, Without, Remove;
  }

  // ---------------------------------------------------------------- one operation under two clocks

  /** The two stores after `n` operations, and the recency list. */
  ghost predicate Follows(st: Store, counted: Store, r: Recency, ts: seq<nat>, n: nat) {
    && WellFormed(st) && Image(st, counted, ts) && FirstIsFirst(counted) && Agree(counted, r, n)
    && (n == 0 ==> counted.order == [])
  }

  lemma WriteFollows(st: Store, counted: Store, r: Recency, ts: seq<nat>, n: nat, chat: Chat, a: Session, b: Session)
    requires Follows(st, counted, r, ts, n) && n < |ts| && Steady(ts) && Telling(ts)
    requires SessionImage(a, b, ts) && b.lastAccess == n && Matches(b, chat)
    ensures var k := chat.key;
            && WellFormed(Put(st, k, a)) && WellFormed(Put(counted, k, b))
            && Image(Put(st, k, a), Put(counted, k, b), ts) && FirstIsFirst(Put(counted, k, b))
            && Image(Evict(Put(st, k, a)), Evict(Put(counted, k, b)), ts) && FirstIsFirst(Evict(Put(counted, k, b)))
  {
    var k := chat.key;
    PutImage(st, counted, ts, k, a, b);
    PutWellFormed(st, k, a);
    PutWellFormed(counted, k, b);
    PutFirst(counted, k, b);
    PutRepresents(counted, r.chats, n, chat, b);
    hide Put, WellFormed, Image, FirstIsFirst, Represents, Evict, Others, SessionImage, Matches;
    EvictImage(Put(st, k, a), Put(counted, k, b), ts, Others(r.chats, k) + [chat], n);
  }

  lemma ImageAt(st: Store, counted: Store, ts: seq<nat>, k: string)
    requires Image(st, counted, ts)
    ensures k in st.entries <==> k in counted.entries
    ensures k in st.entries ==> SessionImage(st.entries[k], counted.entries[k], ts)
  {
  }

  lemma SameEntries(st: Store, counted: Store, ts: seq<nat>, drafts: map<string, string>)
    requires Image(st, counted, ts) && FirstIsFirst(counted)
    ensures st.drafts == counted.drafts
    ensures Image(st.(drafts := drafts), counted.(drafts := drafts), ts) && FirstIsFirst(counted.(drafts := drafts))
  {
  }

  /** An operation on a cached session. */
  lemma TouchFollows(st: Store, counted: Store, r: Recency, ts: seq<nat>, n: nat, k: string, chat: Chat)
    requires Follows(st, counted, r, ts, n) && n < |ts| && Steady(ts) && Telling(ts)
    requires k in st.entries && k in counted.entries && chat.key == k && chat.meta == counted.entries[k].meta
    ensures var messages := LastMessages(chat.log);
            var a := st.entries[k].(messages := messages, lastAccess := ts[n]);
            var b := counted.entries[k].(messages := messages, lastAccess := n);
            Image(Put(st, k, a), Put(counted, k, b), ts) && FirstIsFirst(Put(counted, k, b))
  {
    ImageAt(st, counted, ts, k);
    hide WellFormed, Image, FirstIsFirst, Evict, Put, Agree, LastMessages;
    var messages := LastMessages(chat.log);
    WriteFollows(st, counted, r, ts, n, chat, st.entries[k].(messages := messages, lastAccess := ts[n]),
                 counted.entries[k].(messages := messages, lastAccess := n));
  }

  /** An operation that sets a session. */
  lemma SetFollows(st: Store, counted: Store, r: Recency, ts: seq<nat>, n: nat, chat: Chat)
    requires Follows(st, counted, r, ts, n) && n < |ts| && Steady(ts) && Telling(ts)
    ensures var k, messages := chat.key, LastMessages(chat.log);
            var a, b := Session(messages, ts[n], chat.meta), Session(messages, n, chat.meta);
            && WellFormed(Put(st, k, a)) && WellFormed(Put(counted, k, b))
            && Image(Evict(Put(st, k, a)), Evict(Put(counted, k, b)), ts) && FirstIsFirst(Evict(Put(counted, k, b)))
  {
    hide WellFormed, Image, FirstIsFirst, Evict, Put, Agree, LastMessages;
    var messages := LastMessages(chat.log);
    WriteFollows(st, counted, r, ts, n, chat, Session(messages, ts[n], chat.meta), Session(messages, n, chat.meta));
  }

  lemma FoundFollows(st: Store, counted: Store, r: Recency, ts: seq<nat>, n: nat, k: string)
    requires Follows(st, counted, r, ts, n)
    ensures WellFormed(st) && WellFormed(counted) && Image(st, counted, ts) && FirstIsFirst(counted)
    ensures k in st.entries <==> k in counted.entries
    ensures k in st.entries ==>
              && Lookup(r.chats, k).Some? && Lookup(r.chats, k).value.key == k
              && Matches(counted.entries[k], Lookup(r.chats, k).value)
              && st.entries[k].messages == counted.entries[k].messages
  {
    ImageAt(st, counted, ts, k);
    LookupAgrees(counted, r, n, k);
  }

  lemma StepFollows(st: Store, counted: Store, r: Recency, ts: seq<nat>, n: nat, op: Op)
    requires Follows(st, counted, r, ts, n) && n < |ts| && Steady(ts) && Telling(ts) && op.key != ""
    ensures Image(Step(st, op, ts[n]), Step(counted, op, n), ts) && FirstIsFirst(Step(counted, op, n))
  {
    var k := op.key;
    FoundFollows(st, counted, r, ts, n, k);
    hide Follows, WellFormed, Image, FirstIsFirst, Evict, Put, LastMessages, Remove, Lookup;
    match op
    case Get(_) =>
      if k in st.entries {
        TouchFollows(st, counted, r, ts, n, k, Lookup(r.chats, k).value);
      }
    case Set(_, messages, meta) => SetFollows(st, counted, r, ts, n, Chat(k, messages, meta));
    case Append(_, message) =>
      if k in st.entries {
        var chat := Lookup(r.chats, k).value;
        TrimmedIncrementally(chat.log, message);
        TouchFollows(st, counted, r, ts, n, k, chat.(log := chat.log + [message]));
      } else {
        ShortLog([message]);
        SetFollows(st, counted, r, ts, n, Chat(k, [message], NO_META));
      }
    case Delete(_) =>
      RemoveImage(st, counted, ts, k);
      RemoveFirst(counted, k);
    case Clear(_) =>
      if k in st.entries {
        ShortLog([]);
        TouchFollows(st, counted, r, ts, n, k, Lookup(r.chats, k).value.(log := []));
      }
    case SetDraft(_, _) => SameEntries(st, counted, ts, Step(st, op, ts[n]).drafts);
    case ClearDraft(_) => SameEntries(st, counted, ts, Step(st, op, ts[n]).drafts);
  }

  // ---------------------------------------------------------------- runs whose recency tells

  lemma CountedAgrees(run: seq<Timed>)
    requires NamedKeys(run)
    ensures Agree(After(Counted(run)), RefAfter(run), |run|)
  {
    var counted := Counted(run);
    SameReference(run, counted);
    RunAgrees(counted);
  }

  lemma NothingFollows(ts: seq<nat>)
    ensures Counted([]) == [] && After([]) == EMPTY && Image(EMPTY, EMPTY, ts) && FirstIsFirst(EMPTY)
  {
  }

  lemma BothAdvance(run: seq<Timed>)
    requires run != []
    ensures var front, last := run[..|run| - 1], run[|run| - 1];
            && After(run) == Step(After(front), last.op, last.now)
            && After(Counted(run)) == Step(After(Counted(front)), last.op, |front|)
  {
    CountedFront(run);
  }

  lemma {:induction false} RunFollows(run: seq<Timed>, ts: seq<nat>)
    requires NamedKeys(run) && At(run, ts) && Steady(ts) && Telling(ts)
    ensures Follows(After(run), After(Counted(run)), RefAfter(run), ts, |run|)
    decreases |run|
  {
    CountedAgrees(run);
    hide Agree, Image, FirstIsFirst, Step, WellFormed, RefAfter;
    if run == [] {
      NothingFollows(ts);
    } else {
      var front, last := run[..|run| - 1], run[|run| - 1];
      RunFollows(front, ts);
      hide After;
      BothAdvance(run);
      StepFollows(After(front), After(Counted(front)), RefAfter(front), ts, |front|, last.op);
    }
  }

  /** The cache holds the sessions of the recency list, with the ends of their logs. */
  ghost predicate Recent(st: Store, r: Recency) {
    && st.entries.Keys == Keys(r.chats) && st.drafts == r.drafts
    && forall k :: k in st.entries ==> Lookup(r.chats, k).Some? && Matches(st.entries[k], Lookup(r.chats, k).value)
  }

  /** Under a clock that never runs back, and whose stamps tell, every run leaves the sessions of the
      recency list. */
  lemma RecencyHolds(run: seq<Timed>, ts: seq<nat>)
    requires NamedKeys(run) && At(run, ts) && Steady(ts) && Telling(ts)
    ensures Recent(After(run), RefAfter(run))
  {
    RunFollows(run, ts);
    var st, counted, r := After(run), After(Counted(run)), RefAfter(run);
    forall k | k in st.entries
      ensures Lookup(r.chats, k).Some? && Matches(st.entries[k], Lookup(r.chats, k).value)
    {
      FoundFollows(st, counted, r, ts, |run|, k);
    }
    assert counted.entries.Keys == Keys(r.chats);
  }

  // ---------------------------------------------------------------- a run whose recency does not tell

  function Names(m: nat): (order: seq<string>)
    ensures |order| == m && forall j :: 0 <= j < m ==> order[j] == Name(j)
  {
    seq(m, j requires 0 <= j < m => Name(j))
  }

  /** The first session is used until `b`, when the second enters; then the first is read, and others
      enter until one must go; nothing happens after that. */
  function TieOp(b: nat, i: nat): Op {
    if i < b then Set(Name(0), [], NO_META)
    else if i == b then Set(Name(1), [], NO_META)
    else if i == b + 1 then Get(Name(0))
    else if i <= b + MAX_CACHED_SESSIONS then Set(Name(i - b), [], NO_META)
    else Get(Name(MAX_CACHED_SESSIONS + 1))
  }

  function TieRun(b: nat, ts: seq<nat>): (run: seq<Timed>)
    ensures |run| == |ts| && forall i :: 0 <= i < |run| ==> run[i] == Timed(TieOp(b, i), ts[i])
  {
    seq(|ts|, i requires 0 <= i < |ts| => Timed(TieOp(b, i), ts[i]))
  }

  lemma AfterPrefix(run: seq<Timed>, n: nat)
    requires n < |run|
    ensures After(run[..n + 1]) == Step(After(run[..n]), run[n].op, run[n].now)
  {
    assert run[..n + 1][..n] == run[..n];
  }

  function Fresh(now: nat): Session {
    Session([], now, NO_META)
  }

  /** Entering a cache that is not full. */
  lemma SetEnters(st: Store, k: string, now: nat)
    requires WellFormed(st) && k !in st.entries && |st.order| < MAX_CACHED_SESSIONS
    ensures Step(st, Set(k, [], NO_META), now) == Store(st.order + [k], st.entries[k := Fresh(now)], st.drafts)
  {
    PutWellFormed(st, k, Fresh(now));
    hide WellFormed;
  }

  lemma EmptyRun()
    ensures After([]) == EMPTY
  {
  }

  lemma SetAgain(st: Store, k: string, before: nat, now: nat)
    requires WellFormed(st) && st == Store([k], map[k := Fresh(before)], map[])
    ensures Step(st, Set(k, [], NO_META), now) == Store([k], map[k := Fresh(now)], map[])
  {
    PutWellFormed(st, k, Fresh(now));
    assert st.entries[k := Fresh(now)] == map[k := Fresh(now)];
  }

  lemma EmptyIsWellFormed()
    ensures WellFormed(EMPTY)
  {
  }

  lemma {:induction false} Starts(b: nat, ts: seq<nat>, n: nat)
    requires 1 <= n <= b && n <= |ts|
    ensures After(TieRun(b, ts)[..n]) == Store([Name(0)], map[Name(0) := Fresh(ts[n - 1])], map[])
    decreases n
  {
    hide After, Step, WellFormed, Name;
    var run := TieRun(b, ts);
    AfterPrefix(run, n - 1);
    assert run[n - 1].op == Set(Name(0), [], NO_META) && run[n - 1].now == ts[n - 1];
    if n == 1 {
      assert run[..0] == [];
      EmptyRun();
      EmptyIsWellFormed();
      SetEnters(EMPTY, Name(0), ts[0]);
      assert EMPTY.entries[Name(0) := Fresh(ts[0])] == map[Name(0) := Fresh(ts[0])];
    } else {
      Starts(b, ts, n - 1);
      SetAgain(After(run[..n - 1]), Name(0), ts[n - 2], ts[n - 1]);
    }
  }

  /** The operation that last used the session of a name. */
  function LastUse(b: nat, j: nat): nat {
    if j == 0 then b + 1 else if j == 1 then b else b + j
  }

  function StampAt(ts: seq<nat>, i: nat): nat {
    if i < |ts| then ts[i] else 0
  }

  /** The sessions of the first `m` names. */
  function Sessions(b: nat, ts: seq<nat>, m: nat): map<string, Session> {
    if m == 0 then map[]
    else Sessions(b, ts, m - 1)[Name(m - 1) := Fresh(StampAt(ts, LastUse(b, m - 1)))]
  }

  lemma {:induction false} SessionsAre(b: nat, ts: seq<nat>, m: nat, j: nat)
    ensures Name(j) in Sessions(b, ts, m) <==> j < m
    ensures j < m ==> Sessions(b, ts, m)[Name(j)] == Fresh(StampAt(ts, LastUse(b, j)))
    decreases m
  {
    if m == 0 {
    } else {
      SessionsAre(b, ts, m - 1, j);
      assert |Name(j)| != |Name(m - 1)| <==> j != m - 1;
    }
  }

  lemma TwoSessions(b: nat, ts: seq<nat>)
    requires b + 2 <= |ts|
    ensures Sessions(b, ts, 2) == map[Name(0) := Fresh(ts[b + 1]), Name(1) := Fresh(ts[b])]
  {
    assert |Name(0)| != |Name(1)|;
    assert Sessions(b, ts, 0) == map[];
    assert Sessions(b, ts, 1) == map[Name(0) := Fresh(ts[b + 1])];
  }

  lemma SecondEnters(b: nat, ts: seq<nat>)
    requires 1 <= b && b + 2 <= |ts|
    ensures After(TieRun(b, ts)[..b + 2]) == Store(Names(2), Sessions(b, ts, 2), map[])
  {
    hide After, WellFormed, Name;
    var run := TieRun(b, ts);
    var first, second := Name(0), Name(1);
    assert |first| != |second|;
    Starts(b, ts, b);
    AfterPrefix(run, b);
    SetEnters(After(run[..b]), second, ts[b]);
    AfterPrefix(run, b + 1);
    var st := Store([first, second], map[first := Fresh(ts[b - 1]), second := Fresh(ts[b])], map[]);
    assert After(run[..b + 1]) == st;
    assert Step(st, Get(first), ts[b + 1]) ==
           Store([first, second], map[first := Fresh(ts[b + 1]), second := Fresh(ts[b])], map[]);
    TwoSessions(b, ts);
    assert Names(2) == [first, second];
  }

  lemma NextName(b: nat, ts: seq<nat>, m: nat)
    requires 2 <= m <= MAX_CACHED_SESSIONS && b + m < |ts|
    ensures TieRun(b, ts)[b + m] == Timed(Set(Name(m), [], NO_META), ts[b + m])
    ensures Names(m + 1) == Names(m) + [Name(m)]
    ensures Sessions(b, ts, m + 1) == Sessions(b, ts, m)[Name(m) := Fresh(ts[b + m])]
    ensures Name(m) !in Sessions(b, ts, m)
  {
    SessionsAre(b, ts, m, m);
    hide Name;
  }

  lemma {:induction false} Fills(b: nat, ts: seq<nat>, m: nat)
    requires 1 <= b && 2 <= m <= MAX_CACHED_SESSIONS && b + m <= |ts|
    ensures After(TieRun(b, ts)[..b + m]) == Store(Names(m), Sessions(b, ts, m), map[])
    decreases m
  {
    hide After, Step, WellFormed, Name, Names, Sessions, TieRun, TieOp;
    if m == 2 {
      SecondEnters(b, ts);
    } else {
      var run := TieRun(b, ts);
      Fills(b, ts, m - 1);
      AfterPrefix(run, b + m - 1);
      NextName(b, ts, m - 1);
      SetEnters(After(run[..b + m - 1]), Name(m - 1), ts[b + m - 1]);
    }
  }

  lemma SetPutsAndEvicts(st: Store, k: string, now: nat)
    requires WellFormed(st)
    ensures WellFormed(Put(st, k, Fresh(now)))
    ensures Step(st, Set(k, [], NO_META), now) == Evict(Put(st, k, Fresh(now)))
  {
    PutWellFormed(st, k, Fresh(now));
  }

  /** One session too many: the last to enter makes the scan look. */
  lemma Overflows(b: nat, ts: seq<nat>)
    requires 1 <= b && b + MAX_CACHED_SESSIONS < |ts|
    ensures var full := Store(Names(21), Sessions(b, ts, 21), map[]);
            WellFormed(full) && After(TieRun(b, ts)[..b + 21]) == Evict(full)
  {
    hide After, WellFormed, Name, Names, Sessions, TieRun, TieOp, Evict, Step;
    var run := TieRun(b, ts);
    Fills(b, ts, 20);
    AfterPrefix(run, b + 20);
    NextName(b, ts, 20);
    SetPutsAndEvicts(After(run[..b + 20]), Name(20), ts[b + 20]);
  }

  lemma EvictsOldest(st: Store, k: string)
    requires WellFormed(st) && |st.order| > MAX_CACHED_SESSIONS && Oldest(st.order, st.entries) == k && k != ""
    ensures Evict(st).entries == st.entries - {k}
  {
    assert k in st.entries;
    hide Oldest, Without;
  }

  /** The two oldest stamps tied: the session that was read goes, because it entered first. */
  lemma FirstGoes(b: nat, ts: seq<nat>)
    requires 1 <= b && b + MAX_CACHED_SESSIONS < |ts| && Steady(ts) && ts[b] == ts[b + 1]
    ensures Name(0) !in After(TieRun(b, ts)[..b + 21]).entries
  {
    var full := Store(Names(21), Sessions(b, ts, 21), map[]);
    Overflows(b, ts);
    forall j | 0 <= j < 21
      ensures full.order[j] in full.entries
      ensures full.entries[full.order[0]].lastAccess <= full.entries[full.order[j]].lastAccess
    {
      SessionsAre(b, ts, 21, 0);
      SessionsAre(b, ts, 21, j);
    }
    hide Sessions, WellFormed, After, Evict, TieRun, Oldest;
    FirstOfLeast(full.order, full.entries);
    EvictsOldest(full, Name(0));
  }

  lemma SecondIsLeast(b: nat, ts: seq<nat>, x: string)
    requires 1 <= b && b + MAX_CACHED_SESSIONS < |ts| && forall i, j :: 0 <= i < j < |ts| ==> ts[i] < ts[j]
    requires x in Names(21) && x != Name(1)
    ensures Name(1) in Sessions(b, ts, 21) && x in Sessions(b, ts, 21)
    ensures Sessions(b, ts, 21)[Name(1)].lastAccess < Sessions(b, ts, 21)[x].lastAccess
  {
    hide Sessions, Name;
    var j :| 0 <= j < 21 && Names(21)[j] == x;
    SessionsAre(b, ts, 21, 1);
    SessionsAre(b, ts, 21, j);
  }

  /** With stamps that differ, the one that was not read goes. */
  lemma SecondGoes(b: nat, ts: seq<nat>)
    requires 1 <= b && b + MAX_CACHED_SESSIONS < |ts| && forall i, j :: 0 <= i < j < |ts| ==> ts[i] < ts[j]
    ensures Name(0) in After(TieRun(b, ts)[..b + 21]).entries
  {
    hide Sessions, After, Evict, TieRun, Oldest, Name, Names;
    var full := Store(Names(21), Sessions(b, ts, 21), map[]);
    Overflows(b, ts);
    SessionsAre(b, ts, 21, 0);
    SessionsAre(b, ts, 21, 1);
    forall x | x in full.entries && x != Name(1)
      ensures full.entries[Name(1)].lastAccess < full.entries[x].lastAccess
    {
      assert x in full.order;
      SecondIsLeast(b, ts, x);
    }
    hide WellFormed;
    assert |Name(0)| != |Name(1)|;
    OldestIsStrictMinimum(full.order, full.entries, Name(1));
    EvictsOldest(full, Name(1));
  }

  lemma EvictKeys(st: Store)
    requires WellFormed(st)
    ensures Evict(st).entries.Keys <= st.entries.Keys
  {
    hide Oldest, Without;
  }

  /** Nothing happens after that. */
  lemma {:induction false} Ends(b: nat, ts: seq<nat>, n: nat)
    requires 1 <= b && b + 21 <= n <= |ts|
    ensures After(TieRun(b, ts)[..n]) == After(TieRun(b, ts)[..b + 21])
    decreases n
  {
    hide After, WellFormed, Name;
    var run := TieRun(b, ts);
    if n == b + 21 {
    } else {
      Ends(b, ts, n - 1);
      AfterPrefix(run, n - 1);
      Overflows(b, ts);
      SessionsAre(b, ts, 21, 21);
      EvictKeys(Store(Names(21), Sessions(b, ts, 21), map[]));
      hide Evict, Sessions;
    }
  }

  lemma TieRunEnd(b: nat, ts: seq<nat>)
    requires 1 <= b && b + MAX_CACHED_SESSIONS < |ts|
    ensures After(TieRun(b, ts)) == After(TieRun(b, ts)[..b + 21])
  {
    Ends(b, ts, |ts|);
    assert TieRun(b, ts)[..|ts|] == TieRun(b, ts);
  }

  /** Two equal stamps in the wrong place: a run that leaves other sessions than the recency list. */
  lemma RecencyFails(b: nat, ts: seq<nat>) returns (run: seq<Timed>)
    requires Steady(ts) && 1 <= b && b + MAX_CACHED_SESSIONS < |ts| && ts[b] == ts[b + 1]
    ensures NamedKeys(run) && |run| == |ts| && At(run, ts)
    ensures Name(0) !in After(run).entries && Name(0) in Keys(RefAfter(run).chats)
  {
    run := TieRun(b, ts);
    var counts := seq(|ts|, i requires 0 <= i < |ts| => i);
    assert Counted(run) == TieRun(b, counts);
    CountedAgrees(run);
    FirstGoes(b, ts);
    SecondGoes(b, counts);
    hide After, RefAfter, Name, WellFormed, TieRun;
    TieRunEnd(b, ts);
    TieRunEnd(b, counts);
  }

  /** For every clock that never runs back: all runs over its stamps leave exactly the sessions of the
      recency list, with the ends of their logs, if and only if the stamps tell. */
  lemma RecencyIff(ts: seq<nat>)
    requires Steady(ts)
    ensures (forall run :: NamedKeys(run) && |run| == |ts| && At(run, ts) ==>
               Recent(After(run), RefAfter(run)))
            <==> Telling(ts)
    ensures (forall run :: NamedKeys(run) && |run| == |ts| && At(run, ts) ==>
               After(run).entries.Keys == Keys(RefAfter(run).chats))
            <==> Telling(ts)
  {
    if Telling(ts) {
      forall run | NamedKeys(run) && |run| == |ts| && At(run, ts)
        ensures Recent(After(run), RefAfter(run))
      {
        RecencyHolds(run, ts);
      }
    } else {
      var b :| 1 <= b && b + MAX_CACHED_SESSIONS < |ts| && !(ts[b] < ts[b + 1]);
      var run := RecencyFails(b, ts);
      assert After(run).entries.Keys != Keys(RefAfter(run).chats);
      assert !Recent(After(run), RefAfter(run));
    }
  }

  /** A clock that always advances tells. */
  lemma StrictClockTells(run: seq<Timed>)
    requires StrictClock(run) && NamedKeys(run)
    ensures Recent(After(run), RefAfter(run))
  {
    var ts := seq(|run|, i requires 0 <= i < |run| => run[i].now);
    RecencyHolds(run, ts);
  }

  // ---------------------------------------------------------------- a run that reads the empty key

  lemma {:induction false} NameSet(m: nat) returns (names: set<string>)
    ensures |names| == m && "" !in names && forall k :: k in names ==> |k| <= m
    decreases m
  {
    if m == 0 {
      names := {};
    } else {
      var front := NameSet(m - 1);
      assert Name(m - 1) !in front;
      names := front + {Name(m - 1)};
    }
  }

  lemma CountedIsStrict(run: seq<Timed>)
    requires forall i :: 0 <= i < |run| ==> run[i].now == i
    ensures StrictClock(run) && SteadyClock(run)
  {
  }

  lemma GetKeepsKeys(st: Store, k: string, now: nat)
    requires WellFormed(st)
    ensures Step(st, Get(k), now).entries.Keys == st.entries.Keys
  {
  }

  /** Twenty-one sessions, the empty key's among them, which is read; the next session to enter evicts
      another one. */
  lemma EmptyKeyRead() returns (run: seq<Timed>, victim: string)
    ensures |run| == 23 && StrictClock(run) && run[21].op == Get("") && run[22].op.Set?
    ensures |After(run[..21]).order| == 21 && "" in After(run[..21]).entries
    ensures victim != "" && victim in After(run[..22]).entries && victim !in After(run).entries
  {
    hide After, WellFormed, StrictClock, Step;
    var names := NameSet(21);
    var keys := names + {""};
    var before := EmptyKeyDefeatsCap(keys, 20);
    var st := After(before);
    KeysStayOver(before, keys);
    var k := FreshKey(st, keys);
    CountedIsStrict(before);
    TimesAreBehind(before, 20);
    run := before + [Timed(Get(""), 21), Timed(Set(k, [], NO_META), 22)];
    assert run[..21] == before && run[..23] == run;
    AfterPrefix(run, 21);
    AfterPrefix(run, 22);
    CountedIsStrict(run);
    hide Over;
    victim := ReadingResumesEviction(st, k, [], NO_META, 21);
    GetKeepsKeys(st, "", 21);
  }
}

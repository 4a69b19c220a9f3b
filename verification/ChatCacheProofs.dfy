/** The timestamped cache against a plain recency list, over all runs. */
module ChatCacheProofs {
  import opened Text
  import opened ChatCache

  // ---------------------------------------------------------------- the reference

  /** A session with its whole history since it was last set or cleared. */
  datatype Chat = Chat(key: string, log: seq<Message>, meta: Meta)

  /** Sessions from the least to the most recently used; no clock, no trimming. */
  datatype Recency = Recency(chats: seq<Chat>, drafts: map<string, string>)

  function Others(chats: seq<Chat>, k: string): seq<Chat> {
    if chats == [] then []
    else
      var front, last := chats[..|chats| - 1], chats[|chats| - 1];
      if last.key == k then front else Others(front, k) + [last]
  }

  function Touch(r: Recency, chat: Chat): Recency {
    r.(chats := Others(r.chats, chat.key) + [chat])
  }

  function Cap(r: Recency): Recency {
    if |r.chats| <= MAX_CACHED_SESSIONS then r
    else Recency(r.chats[1..], r.drafts - {r.chats[0].key})
  }

  function Lookup(chats: seq<Chat>, k: string): Option<Chat> {
    if chats == [] then None
    else if chats[|chats| - 1].key == k then Some(chats[|chats| - 1])
    else Lookup(chats[..|chats| - 1], k)
  }

  function RefStep(r: Recency, op: Op): Recency {
    var k := op.key;
    var found := Lookup(r.chats, k);
    match op
    case Get(_) => if found.Some? then Touch(r, found.value) else r
    case Set(_, messages, meta) => Cap(Touch(r, Chat(k, messages, meta)))
    case Append(_, message) =>
      if found.Some? then Touch(r, found.value.(log := found.value.log + [message]))
      else Cap(Touch(r, Chat(k, [message], Meta(None, None))))
    case Delete(_) => Recency(Others(r.chats, k), r.drafts - {k})
    case Clear(_) => if found.Some? then Touch(r, found.value.(log := [])) else r
    case SetDraft(_, text) => r.(drafts := if text != "" then r.drafts[k := text] else r.drafts - {k})
    case ClearDraft(_) => r.(drafts := r.drafts - {k})
  }

  // ---------------------------------------------------------------- the relation

  predicate Matches(session: Session, chat: Chat) {
    session.messages == LastMessages(chat.log) && session.meta == chat.meta
  }

  function Keys(chats: seq<Chat>): set<string> {
    if chats == [] then {} else Keys(chats[..|chats| - 1]) + {chats[|chats| - 1].key}
  }

  /** Every listed session is cached, and access times increase along the list, all below a bound. */
  ghost predicate Listed(entries: map<string, Session>, chats: seq<Chat>, bound: nat) {
    chats == [] ||
    var last := chats[|chats| - 1];
    && last.key in entries && Matches(entries[last.key], last)
    && entries[last.key].lastAccess < bound
    && Listed(entries, chats[..|chats| - 1], entries[last.key].lastAccess)
  }

  /** The list holds exactly the cached sessions, in the order of their access times. */
  ghost predicate Represents(st: Store, chats: seq<Chat>, now: nat) {
    && WellFormed(st) && |chats| == |st.order|
    && Keys(chats) == st.entries.Keys
    && Listed(st.entries, chats, now)
  }

  ghost predicate Agree(st: Store, r: Recency, now: nat) {
    && Represents(st, r.chats, now) && st.drafts == r.drafts
    && |st.order| <= MAX_CACHED_SESSIONS && "" !in st.entries
  }

  lemma {:induction false} ListedBelow(entries: map<string, Session>, chats: seq<Chat>, bound: nat, k: string)
    requires Listed(entries, chats, bound) && k in Keys(chats)
    ensures k in entries && entries[k].lastAccess < bound
    decreases |chats|
  {
    var front, last := chats[..|chats| - 1], chats[|chats| - 1];
    if k == last.key {
    } else {
      ListedBelow(entries, front, entries[last.key].lastAccess, k);
    }
  }

  lemma ListedLater(entries: map<string, Session>, chats: seq<Chat>, bound: nat, later: nat)
    requires Listed(entries, chats, bound) && bound <= later
    ensures Listed(entries, chats, later)
  {
  }

  /** Looking a key up finds the cached session, or that there is none. */
  lemma {:induction false} LookupListed(entries: map<string, Session>, chats: seq<Chat>, bound: nat, k: string)
    requires Listed(entries, chats, bound)
    ensures Lookup(chats, k).Some? <==> k in Keys(chats)
    ensures Lookup(chats, k).Some? ==>
              k in entries && Lookup(chats, k).value.key == k && Matches(entries[k], Lookup(chats, k).value)
    decreases |chats|
  {
    if chats == [] || chats[|chats| - 1].key == k {
    } else {
      LookupListed(entries, chats[..|chats| - 1], entries[chats[|chats| - 1].key].lastAccess, k);
    }
  }

  lemma OthersSnoc(chats: seq<Chat>, k: string)
    requires chats != [] && chats[|chats| - 1].key != k
    ensures var front, last := chats[..|chats| - 1], chats[|chats| - 1];
            var others := Others(chats, k);
            others == Others(front, k) + [last] && others[..|others| - 1] == Others(front, k)
  {
  }

  lemma {:induction false} OthersListed(entries: map<string, Session>, chats: seq<Chat>, bound: nat, k: string)
    requires Listed(entries, chats, bound)
    ensures Listed(entries, Others(chats, k), bound)
    ensures Keys(Others(chats, k)) == Keys(chats) - {k}
    ensures |Others(chats, k)| == |chats| - (if k in Keys(chats) then 1 else 0)
    decreases |chats|
  {
    hide Matches;
    if chats == [] {
    } else {
      var front, last := chats[..|chats| - 1], chats[|chats| - 1];
      var stamp := entries[last.key].lastAccess;
      if last.key == k {
        if k in Keys(front) {
          ListedBelow(entries, front, stamp, k);
        }
        ListedLater(entries, front, stamp, bound);
      } else {
        OthersListed(entries, front, stamp, k);
        OthersSnoc(chats, k);
      }
    }
  }

  /** Listing looks only at the listed keys. */
  lemma {:induction false} SameListed(a: map<string, Session>, b: map<string, Session>, chats: seq<Chat>, bound: nat)
    requires Listed(a, chats, bound)
    requires forall k :: k in Keys(chats) && k in a ==> k in b && b[k] == a[k]
    ensures Listed(b, chats, bound)
    decreases |chats|
  {
    if chats == [] {
    } else {
      SameListed(a, b, chats[..|chats| - 1], a[chats[|chats| - 1].key].lastAccess);
    }
  }

  lemma {:induction false} HeadKey(chats: seq<Chat>)
    requires chats != []
    ensures chats[0].key in Keys(chats)
    decreases |chats|
  {
    if |chats| <= 1 {
    } else {
      HeadKey(chats[..|chats| - 1]);
    }
  }

  lemma {:induction false} HeadIsOldest(entries: map<string, Session>, chats: seq<Chat>, bound: nat)
    requires Listed(entries, chats, bound) && chats != []
    ensures chats[0].key in entries
    ensures forall k :: k in Keys(chats) && k != chats[0].key ==>
              k in entries && entries[chats[0].key].lastAccess < entries[k].lastAccess
    ensures Others(chats, chats[0].key) == chats[1..]
    decreases |chats|
  {
    var front, last := chats[..|chats| - 1], chats[|chats| - 1];
    if front == [] {
    } else {
      HeadIsOldest(entries, front, entries[last.key].lastAccess);
      HeadKey(front);
      ListedBelow(entries, front, entries[last.key].lastAccess, chats[0].key);
      assert chats[1..] == front[1..] + [last];
    }
  }

  lemma PutListed(entries: map<string, Session>, chats: seq<Chat>, now: nat, chat: Chat, session: Session)
    requires Listed(entries, chats, now) && session.lastAccess == now && Matches(session, chat)
    ensures var list := Others(chats, chat.key) + [chat];
            && Listed(entries[chat.key := session], list, now + 1)
            && Keys(list) == Keys(chats) + {chat.key}
            && |list| == |chats| + (if chat.key in Keys(chats) then 0 else 1)
  {
    var k, others := chat.key, Others(chats, chat.key);
    var after, list := entries[k := session], others + [chat];
    OthersListed(entries, chats, now, k);
    SameListed(entries, after, others, now);
    hide Others, Matches;
    assert list[..|others|] == others && list[|others|] == chat;
  }

  /** Writing a session with the current time moves its key to the end of the list. */
  lemma PutRepresents(st: Store, chats: seq<Chat>, now: nat, chat: Chat, session: Session)
    requires Represents(st, chats, now) && session.lastAccess == now && Matches(session, chat)
    ensures Represents(Put(st, chat.key, session), Others(chats, chat.key) + [chat], now + 1)
  {
    hide WellFormed, Others, Matches, Listed, Keys;
    PutWellFormed(st, chat.key, session);
    PutListed(st.entries, chats, now, chat, session);
    var after, list := Put(st, chat.key, session), Others(chats, chat.key) + [chat];
    assert after.entries == st.entries[chat.key := session];
    assert after.entries.Keys == st.entries.Keys + {chat.key};
    hide Put;
    assert Keys(list) == after.entries.Keys;
    assert |list| == |after.order|;
    assert Listed(after.entries, list, now + 1);
  }

  lemma RemoveRepresents(st: Store, chats: seq<Chat>, now: nat, k: string)
    requires Represents(st, chats, now)
    ensures Represents(Remove(st, k), Others(chats, k), now)
  {
    OthersListed(st.entries, chats, now, k);
    RemoveWellFormed(st, k);
    hide WellFormed, Others, Without;
    SameListed(st.entries, Remove(st, k).entries, Others(chats, k), now);
  }

  lemma {:induction false} OldestIsStrictMinimum(order: seq<string>, entries: map<string, Session>, k: string)
    requires order != [] && (forall i :: 0 <= i < |order| ==> order[i] in entries) && k in order
    requires forall x :: x in entries && x != k ==> entries[k].lastAccess < entries[x].lastAccess
    ensures Oldest(order, entries) == k
    decreases |order|
  {
    if |order| <= 1 {
    } else {
      var front, last := order[..|order| - 1], order[|order| - 1];
      if k in front {
        OldestIsStrictMinimum(front, entries, k);
      } else {
        assert Oldest(front, entries) in front;
      }
    }
  }

  /** The entry the scan evicts is the head of the recency list. */
  lemma EvictRepresents(st: Store, chats: seq<Chat>, now: nat)
    requires Represents(st, chats, now) && |chats| > MAX_CACHED_SESSIONS && "" !in st.entries
    ensures Represents(Evict(st), chats[1..], now)
    ensures Evict(st).drafts == st.drafts - {chats[0].key}
    ensures |Evict(st).order| == |st.order| - 1 && "" !in Evict(st).entries
  {
    var k := chats[0].key;
    HeadIsOldest(st.entries, chats, now);
    HeadKey(chats);
    OldestIsStrictMinimum(st.order, st.entries, k);
    RemoveRepresents(st, chats, now, k);
    RemoveWellFormed(st, k);
  }

  lemma WriteAgrees(st: Store, r: Recency, now: nat, chat: Chat, session: Session)
    requires Agree(st, r, now) && chat.key != ""
    requires session.lastAccess == now && Matches(session, chat)
    ensures chat.key in st.entries ==> Agree(Put(st, chat.key, session), Touch(r, chat), now + 1)
    ensures WellFormed(Put(st, chat.key, session))
    ensures Agree(Evict(Put(st, chat.key, session)), Cap(Touch(r, chat)), now + 1)
  {
    var after, list := Put(st, chat.key, session), Touch(r, chat);
    PutRepresents(st, r.chats, now, chat, session);
    PutWellFormed(st, chat.key, session);
    assert chat.key in st.entries ==> |after.order| <= MAX_CACHED_SESSIONS;
    assert "" !in after.entries;
    hide Represents, Put, Others, Oldest;
    if |list.chats| > MAX_CACHED_SESSIONS {
      EvictRepresents(after, list.chats, now + 1);
    }
  }

  lemma LookupAgrees(st: Store, r: Recency, now: nat, k: string)
    requires Agree(st, r, now)
    ensures Lookup(r.chats, k).Some? <==> k in st.entries
    ensures Lookup(r.chats, k).Some? ==>
              Lookup(r.chats, k).value.key == k && Matches(st.entries[k], Lookup(r.chats, k).value)
  {
    LookupListed(st.entries, r.chats, now, k);
  }

  lemma AgreeIsWellFormed(st: Store, r: Recency, now: nat)
    requires Agree(st, r, now)
    ensures WellFormed(st)
  {
  }

  lemma ShortLog(log: seq<Message>)
    requires |log| <= 1
    ensures LastMessages(log) == log
  {
  }

  lemma LaterAgrees(st: Store, r: Recency, now: nat)
    requires Agree(st, r, now)
    ensures Agree(st, r, now + 1)
  {
    ListedLater(st.entries, r.chats, now, now + 1);
  }

  lemma DraftsAgree(st: Store, r: Recency, now: nat, drafts: map<string, string>)
    requires Agree(st, r, now)
    ensures Agree(st.(drafts := drafts), r.(drafts := drafts), now)
  {
  }

  lemma DeleteAgrees(st: Store, r: Recency, now: nat, k: string)
    requires Agree(st, r, now)
    ensures Agree(Remove(st, k), Recency(Others(r.chats, k), r.drafts - {k}), now + 1)
  {
    RemoveRepresents(st, r.chats, now, k);
    RemoveWellFormed(st, k);
    ListedLater(Remove(st, k).entries, Others(r.chats, k), now, now + 1);
  }

  /** Trimming after every append keeps what trimming the whole log would. */
  lemma TrimmedIncrementally(log: seq<Message>, message: Message)
    ensures LastMessages(LastMessages(log) + [message]) == LastMessages(log + [message])
  {
  }

  /** One operation: the cache stays the recency list, and reads return the end of the whole log. */
  lemma StepAgrees(st: Store, r: Recency, op: Op, now: nat)
    requires Agree(st, r, now) && op.key != ""
    ensures Agree(Step(st, op, now), RefStep(r, op), now + 1)
    ensures Messages(st, op.key) ==
              match Lookup(r.chats, op.key) case None => None case Some(chat) => Some(LastMessages(chat.log))
  {
    hide Agree, Represents, Evict, Put, Touch, Cap, Lookup, WellFormed, LastMessages, Remove, Others;
    var k := op.key;
    var found := Lookup(r.chats, k);
    LookupAgrees(st, r, now, k);
    AgreeIsWellFormed(st, r, now);
    match op
    case Get(_) =>
      if found.Some? {
        WriteAgrees(st, r, now, found.value, st.entries[k].(lastAccess := now));
      } else {
        LaterAgrees(st, r, now);
      }
    case Set(_, messages, meta) =>
      WriteAgrees(st, r, now, Chat(k, messages, meta), Session(LastMessages(messages), now, meta));
    case Append(_, message) =>
      if found.Some? {
        TrimmedIncrementally(found.value.log, message);
        WriteAgrees(st, r, now, found.value.(log := found.value.log + [message]),
                    st.entries[k].(messages := LastMessages(st.entries[k].messages + [message]), lastAccess := now));
      } else {
        ShortLog([message]);
        WriteAgrees(st, r, now, Chat(k, [message], NO_META), Session([message], now, NO_META));
      }
    case Delete(_) => DeleteAgrees(st, r, now, k);
    case Clear(_) =>
      if found.Some? {
        ShortLog([]);
        WriteAgrees(st, r, now, found.value.(log := []), st.entries[k].(messages := [], lastAccess := now));
      } else {
        LaterAgrees(st, r, now);
      }
    case SetDraft(_, _) => LaterAgrees(st, r, now); DraftsAgree(st, r, now + 1, Step(st, op, now).drafts);
    case ClearDraft(_) => LaterAgrees(st, r, now); DraftsAgree(st, r, now + 1, Step(st, op, now).drafts);
  }

  // ---------------------------------------------------------------- whole runs

  datatype Timed = Timed(op: Op, now: nat)

  ghost predicate StrictClock(run: seq<Timed>) {
    forall i, j :: 0 <= i < j < |run| ==> run[i].now < run[j].now
  }

  ghost predicate NamedKeys(run: seq<Timed>) {
    forall i :: 0 <= i < |run| ==> run[i].op.key != ""
  }

  ghost function After(run: seq<Timed>): (st: Store)
    ensures WellFormed(st)
  {
    if run == [] then EMPTY
    else
      var st := After(run[..|run| - 1]);
      StepWellFormed(st, run[|run| - 1].op, run[|run| - 1].now);
      Step(st, run[|run| - 1].op, run[|run| - 1].now)
  }

  ghost function RefAfter(run: seq<Timed>): Recency {
    if run == [] then Recency([], map[]) else RefStep(RefAfter(run[..|run| - 1]), run[|run| - 1].op)
  }

  lemma MonotoneAgrees(st: Store, r: Recency, now: nat, later: nat)
    requires Agree(st, r, now) && now <= later
    ensures Agree(st, r, later)
  {
    ListedLater(st.entries, r.chats, now, later);
  }

  /** Under a strictly increasing clock and with named sessions, every run leaves the cache equal to
      the recency list capped at 20 sessions. */
  lemma {:induction false} RunAgrees(run: seq<Timed>)
    requires StrictClock(run) && NamedKeys(run)
    ensures var next := if run == [] then 0 else run[|run| - 1].now + 1; Agree(After(run), RefAfter(run), next)
    decreases |run|
  {
    if run == [] {
    } else {
      var front, last := run[..|run| - 1], run[|run| - 1];
      RunAgrees(front);
      var next := if front == [] then 0 else front[|front| - 1].now + 1;
      assert next <= last.now;
      MonotoneAgrees(After(front), RefAfter(front), next, last.now);
      StepAgrees(After(front), RefAfter(front), last.op, last.now);
    }
  }

  /** Every read in such a run returns the last 200 messages of the session's whole log. */
  lemma ReadsAgree(run: seq<Timed>, k: string)
    requires StrictClock(run) && NamedKeys(run) && k != ""
    ensures Messages(After(run), k) ==
              match Lookup(RefAfter(run).chats, k) case None => None case Some(chat) => Some(LastMessages(chat.log))
  {
    RunAgrees(run);
    LookupAgrees(After(run), RefAfter(run), if run == [] then 0 else run[|run| - 1].now + 1, k);
  }

  // ---------------------------------------------------------------- a clock that may stand still

  lemma VictimIsEarlier(st: Store, k: string, session: Session) returns (victim: string)
    requires WellFormed(st) && st.order != [] && k !in st.entries
    requires forall x :: x in st.entries ==> st.entries[x].lastAccess <= session.lastAccess
    ensures WellFormed(Put(st, k, session))
    ensures Put(st, k, session).order != [] && Oldest(Put(st, k, session).order, Put(st, k, session).entries) == victim
    ensures victim in st.entries
  {
    PutWellFormed(st, k, session);
    var entries := st.entries[k := session];
    OldestStep(st.order, k, entries);
    victim := Oldest(st.order, entries);
    assert victim in st.order;
  }

  /** The session just written is never the one evicted: ties go to the earlier entry. */
  lemma JustWrittenSurvives(st: Store, k: string, session: Session)
    requires WellFormed(st) && (k !in st.entries || |st.order| <= MAX_CACHED_SESSIONS)
    requires forall x :: x in st.entries ==> st.entries[x].lastAccess <= session.lastAccess
    ensures WellFormed(Put(st, k, session)) && k in Evict(Put(st, k, session)).entries
  {
    hide WellFormed, Oldest, Without;
    PutWellFormed(st, k, session);
    if |Put(st, k, session).order| > MAX_CACHED_SESSIONS {
      var victim := VictimIsEarlier(st, k, session);
    }
  }

  ghost predicate SteadyClock(run: seq<Timed>) {
    forall i, j :: 0 <= i < j < |run| ==> run[i].now <= run[j].now
  }

  lemma StepTimes(st: Store, op: Op, now: nat)
    requires WellFormed(st) && forall x :: x in st.entries ==> st.entries[x].lastAccess <= now
    ensures forall x :: x in Step(st, op, now).entries ==> Step(st, op, now).entries[x].lastAccess <= now
  {
    hide WellFormed, Oldest, Without;
  }

  /** No access time in the cache lies ahead of a clock that never runs back. */
  lemma {:induction false} TimesAreBehind(run: seq<Timed>, now: nat)
    requires SteadyClock(run) && (run != [] ==> run[|run| - 1].now <= now)
    ensures forall x :: x in After(run).entries ==> After(run).entries[x].lastAccess <= now
    decreases |run|
  {
    if run == [] {
    } else {
      var front, last := run[..|run| - 1], run[|run| - 1];
      TimesAreBehind(front, last.now);
      StepTimes(After(front), last.op, last.now);
    }
  }

  lemma StepKeepsWritten(st: Store, op: Op, now: nat)
    requires WellFormed(st) && (op.Set? || op.Append?)
    requires op.key !in st.entries || |st.order| <= MAX_CACHED_SESSIONS
    requires forall x :: x in st.entries ==> st.entries[x].lastAccess <= now
    ensures op.key in Step(st, op, now).entries
  {
    hide WellFormed, Evict;
    if op.Set? {
      JustWrittenSurvives(st, op.key, Session(LastMessages(op.messages), now, op.meta));
    } else if op.key !in st.entries {
      JustWrittenSurvives(st, op.key, Session([op.message], now, NO_META));
    }
  }

  lemma PutKeepsCap(st: Store, k: string, session: Session)
    requires WellFormed(st) && |st.order| <= MAX_CACHED_SESSIONS && "" !in st.entries && k != ""
    ensures WellFormed(Put(st, k, session))
    ensures k in st.entries ==> |Put(st, k, session).order| <= MAX_CACHED_SESSIONS
    ensures |Evict(Put(st, k, session)).order| <= MAX_CACHED_SESSIONS
    ensures Evict(Put(st, k, session)).entries.Keys <= st.entries.Keys + {k}
  {
    var after := Put(st, k, session);
    PutWellFormed(st, k, session);
    if |after.order| > MAX_CACHED_SESSIONS {
      var victim := Oldest(after.order, after.entries);
      assert victim in after.entries;
      RemoveWellFormed(after, victim);
      hide Oldest, WellFormed, Without;
    }
  }

  lemma StepKeepsCap(st: Store, op: Op, now: nat)
    requires WellFormed(st) && |st.order| <= MAX_CACHED_SESSIONS && "" !in st.entries && op.key != ""
    ensures |Step(st, op, now).order| <= MAX_CACHED_SESSIONS && "" !in Step(st, op, now).entries
  {
    hide Evict;
    var k := op.key;
    match op
    case Set(_, messages, meta) => PutKeepsCap(st, k, Session(LastMessages(messages), now, meta));
    case Append(_, message) => PutKeepsCap(st, k, Session([message], now, NO_META));
    case Delete(_) => RemoveWellFormed(st, k);
    case _ =>
  }

  lemma {:induction false} NamedRunsAreCapped(run: seq<Timed>)
    requires NamedKeys(run)
    ensures |After(run).order| <= MAX_CACHED_SESSIONS && "" !in After(run).entries
    decreases |run|
  {
    if run == [] {
    } else {
      var front, last := run[..|run| - 1], run[|run| - 1];
      NamedRunsAreCapped(front);
      StepKeepsCap(After(front), last.op, last.now);
    }
  }

  /** In every run under a clock that never runs back, even one that stands still, a session that is
      set or appended to is in the cache afterwards: always when it was new, and also when it was not
      as long as no session is keyed by the empty string. */
  lemma WrittenSurvives(run: seq<Timed>)
    requires run != [] && SteadyClock(run) && (run[|run| - 1].op.Set? || run[|run| - 1].op.Append?)
    requires run[|run| - 1].op.key !in After(run[..|run| - 1]).entries || NamedKeys(run)
    ensures run[|run| - 1].op.key in After(run).entries
  {
    hide WellFormed, Oldest, Without, Step;
    var front, last := run[..|run| - 1], run[|run| - 1];
    var st := After(front);
    TimesAreBehind(front, last.now);
    if NamedKeys(run) {
      NamedRunsAreCapped(front);
    }
    StepKeepsWritten(st, last.op, last.now);
  }

  // ---------------------------------------------------------------- the cap, and the empty key

  ghost predicate Over(run: seq<Timed>, keys: set<string>) {
    forall i :: 0 <= i < |run| ==> run[i].op.key in keys
  }

  lemma StepKeys(st: Store, op: Op, now: nat)
    requires WellFormed(st)
    ensures Step(st, op, now).entries.Keys <= st.entries.Keys + {op.key}
  {
    hide WellFormed, Oldest, Without;
  }

  lemma {:induction false} KeysStayOver(run: seq<Timed>, keys: set<string>)
    requires Over(run, keys)
    ensures After(run).entries.Keys <= keys
    decreases |run|
  {
    if run == [] {
    } else {
      var front, last := run[..|run| - 1], run[|run| - 1];
      KeysStayOver(front, keys);
      StepKeys(After(front), last.op, last.now);
    }
  }

  lemma {:induction false} OrderSize(order: seq<string>, keys: set<string>)
    requires forall i, j :: 0 <= i < j < |order| ==> order[i] != order[j]
    requires forall i :: 0 <= i < |order| ==> order[i] in keys
    ensures |order| <= |keys|
    decreases |order|
  {
    if order == [] {
    } else {
      var front, last := order[..|order| - 1], order[|order| - 1];
      OrderSize(front, keys - {last});
    }
  }

  lemma {:induction false} SetOfOrder(order: seq<string>, keys: set<string>)
    requires forall i, j :: 0 <= i < j < |order| ==> order[i] != order[j]
    requires forall x :: x in keys <==> x in order
    ensures |keys| == |order|
    decreases |order|
  {
    if order == [] {
      assert keys == {};
    } else {
      var front, last := order[..|order| - 1], order[|order| - 1];
      assert order == front + [last];
      SetOfOrder(front, keys - {last});
    }
  }

  lemma KeysCount(st: Store)
    requires WellFormed(st)
    ensures |st.entries.Keys| == |st.order|
  {
    SetOfOrder(st.order, st.entries.Keys);
  }

  lemma FreshKey(st: Store, keys: set<string>) returns (k: string)
    requires WellFormed(st) && st.entries.Keys <= keys && |st.order| < |keys|
    ensures k in keys && k !in st.entries
  {
    if st.entries.Keys == keys {
      KeysCount(st);
    }
    var missing := keys - st.entries.Keys;
    assert keys == st.entries.Keys + missing;
    k :| k in missing;
  }

  lemma EmptyKeyStays(st: Store, k: string, session: Session)
    requires WellFormed(st) && "" in st.entries && st.entries[""].lastAccess == 0 && k !in st.entries
    requires forall x :: x in st.entries && x != "" ==> 0 < st.entries[x].lastAccess
    requires session.lastAccess > 0
    ensures WellFormed(Put(st, k, session)) && Evict(Put(st, k, session)) == Put(st, k, session)
  {
    var after := Put(st, k, session);
    PutWellFormed(st, k, session);
    if |after.order| > MAX_CACHED_SESSIONS {
      OldestIsStrictMinimum(after.order, after.entries, "");
    }
  }

  /** As long as the session with the empty key stays the oldest, nothing is evicted. */
  lemma {:induction false} EmptyKeyDefeatsCap(keys: set<string>, n: nat) returns (run: seq<Timed>)
    requires "" in keys && n < |keys|
    ensures Over(run, keys) && StrictClock(run) && |run| == n + 1
    ensures forall i :: 0 <= i < |run| ==> run[i].now == i
    ensures |After(run).order| == n + 1
    ensures "" in After(run).entries && After(run).entries[""].lastAccess == 0
    ensures forall x :: x in After(run).entries && x != "" ==> 0 < After(run).entries[x].lastAccess
    decreases n
  {
    if n == 0 {
      run := [Timed(Set("", [], NO_META), 0)];
      assert run[..0] == [];
      PutWellFormed(EMPTY, "", Session([], 0, NO_META));
    } else {
      var before := EmptyKeyDefeatsCap(keys, n - 1);
      var st := After(before);
      KeysStayOver(before, keys);
      var k := FreshKey(st, keys);
      run := before + [Timed(Set(k, [], NO_META), n)];
      assert run[..n] == before;
      var session := Session([], n, NO_META);
      PutWellFormed(st, k, session);
      EmptyKeyStays(st, k, session);
    }
  }

  /** The cap of 20 sessions holds in every run over a set of keys, under any clock, exactly when the
      set lacks the empty key or has no more than 20 keys to begin with. */
  lemma CappedIff(keys: set<string>)
    ensures (forall run :: Over(run, keys) ==> |After(run).order| <= MAX_CACHED_SESSIONS)
            <==> ("" !in keys || |keys| <= MAX_CACHED_SESSIONS)
  {
    if "" in keys && |keys| > MAX_CACHED_SESSIONS {
      var run := EmptyKeyDefeatsCap(keys, MAX_CACHED_SESSIONS);
      assert Over(run, keys) && |After(run).order| > MAX_CACHED_SESSIONS;
    } else {
      forall run | Over(run, keys)
        ensures |After(run).order| <= MAX_CACHED_SESSIONS
      {
        if "" !in keys {
          NamedRunsAreCapped(run);
        } else {
          KeysStayOver(run, keys);
          OrderSize(After(run).order, keys);
        }
      }
    }
  }
}

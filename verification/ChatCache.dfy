/** The chat message cache: a map in insertion order whose entries carry an access time, evicted by
    scanning for the oldest.  `now` is the value of the clock at the call. */
module ChatCache {
  import opened Text

  const MAX_CACHED_SESSIONS: nat := 20
  const MAX_MESSAGES_PER_SESSION: nat := 200
  datatype Role = User | Agent
  datatype Message = Message(id: string, role: Role, content: string, timestamp: nat, kind: Option<string>)
  datatype Meta = Meta(sessionSummary: Option<string>, currentGoal: Option<string>)
  const NO_META := Meta(None, None)
  datatype Session = Session(messages: seq<Message>, lastAccess: nat, meta: Meta)

  /** `order` is the iteration order of the map: insertion order, which an update does not change. */
  datatype Store = Store(order: seq<string>, entries: map<string, Session>, drafts: map<string, string>)

  const EMPTY := Store([], map[], map[])

  // ---------------------------------------------------------------- specification

  function LastMessages(messages: seq<Message>): (r: seq<Message>)
    ensures |r| <= MAX_MESSAGES_PER_SESSION
  {
    if |messages| > MAX_MESSAGES_PER_SESSION then messages[|messages| - MAX_MESSAGES_PER_SESSION..] else messages
  }

  ghost predicate WellFormed(st: Store) {
    && (forall i :: 0 <= i < |st.order| ==> st.order[i] in st.entries)
    && (forall k :: k in st.entries ==> k in st.order)
    && (forall i, j :: 0 <= i < j < |st.order| ==> st.order[i] != st.order[j])
  }

  /** The scan: the first key, in iteration order, with the least access time. */
  function Oldest(order: seq<string>, entries: map<string, Session>): (k: string)
    requires order != [] && forall i :: 0 <= i < |order| ==> order[i] in entries
    ensures k in order
  {
    var last := order[|order| - 1];
    if |order| == 1 then last
    else
      var k := Oldest(order[..|order| - 1], entries);
      if entries[last].lastAccess < entries[k].lastAccess then last else k
  }

  lemma OldestStep(front: seq<string>, last: string, entries: map<string, Session>)
    requires last in entries && forall i :: 0 <= i < |front| ==> front[i] in entries
    ensures Oldest(front + [last], entries) ==
              if front == [] then last
              else if entries[last].lastAccess < entries[Oldest(front, entries)].lastAccess then last
              else Oldest(front, entries)
  {
    assert (front + [last])[..|front|] == front;
  }

  function Without(order: seq<string>, k: string): (r: seq<string>)
  {
    if order == [] then []
    else if order[0] == k then order[1..]
    else [order[0]] + Without(order[1..], k)
  }

  function Remove(st: Store, k: string): Store {
    if k in st.entries then Store(Without(st.order, k), st.entries - {k}, st.drafts - {k})
    else st.(drafts := st.drafts - {k})
  }

  function Evict(st: Store): Store
    requires WellFormed(st)
  {
    if |st.order| <= MAX_CACHED_SESSIONS then st
    else
      var k := Oldest(st.order, st.entries);
      if k == "" then st else Remove(st, k)
  }

  /** `cache.set`. */
  function Put(st: Store, k: string, session: Session): Store {
    st.(order := if k in st.entries then st.order else st.order + [k], entries := st.entries[k := session])
  }

  lemma PutWellFormed(st: Store, k: string, session: Session)
    requires WellFormed(st)
    ensures WellFormed(Put(st, k, session))
    ensures |Put(st, k, session).order| == |st.order| + (if k in st.entries then 0 else 1)
  {
    if k !in st.entries {
      assert forall i :: 0 <= i < |st.order| ==> st.order[i] != k;
      assert k in Put(st, k, session).order;
    }
  }

  lemma {:induction false} WithoutIs(order: seq<string>, k: string)
    requires forall i, j :: 0 <= i < j < |order| ==> order[i] != order[j]
    ensures forall x :: x in Without(order, k) <==> x in order && x != k
    ensures |Without(order, k)| == |order| - (if k in order then 1 else 0)
    ensures var w := Without(order, k); forall i, j :: 0 <= i < j < |w| ==> w[i] != w[j]
    decreases |order|
  {
    if order == [] || order[0] == k {
    } else {
      WithoutIs(order[1..], k);
      assert order[0] !in order[1..];
    }
  }

  lemma RemoveWellFormed(st: Store, k: string)
    requires WellFormed(st)
    ensures WellFormed(Remove(st, k))
    ensures k in st.entries ==> |Remove(st, k).order| == |st.order| - 1
  {
    WithoutIs(st.order, k);
    var after := Remove(st, k);
    forall i | 0 <= i < |after.order|
      ensures after.order[i] in after.entries
    {
      assert after.order[i] in after.order;
    }
  }

  lemma EvictWellFormed(st: Store)
    requires WellFormed(st)
    ensures WellFormed(Evict(st))
  {
    if |st.order| > MAX_CACHED_SESSIONS {
      RemoveWellFormed(st, Oldest(st.order, st.entries));
    }
  }

  datatype Op =
    | Get(key: string)
    | Set(key: string, messages: seq<Message>, meta: Meta)
    | Append(key: string, message: Message)
    | Delete(key: string)
    | Clear(key: string)
    | SetDraft(key: string, text: string)
    | ClearDraft(key: string)

  function Step(st: Store, op: Op, now: nat): Store
    requires WellFormed(st)
  {
    var k := op.key;
    match op
    case Get(_) =>
      if k in st.entries then Put(st, k, st.entries[k].(lastAccess := now)) else st
    case Set(_, messages, meta) =>
      PutWellFormed(st, k, Session(LastMessages(messages), now, meta));
      Evict(Put(st, k, Session(LastMessages(messages), now, meta)))
    case Append(_, message) =>
      if k in st.entries then
        var session := st.entries[k];
        Put(st, k, session.(messages := LastMessages(session.messages + [message]), lastAccess := now))
      else
        PutWellFormed(st, k, Session([message], now, NO_META));
        Evict(Put(st, k, Session([message], now, NO_META)))
    case Delete(_) => Remove(st, k)
    case Clear(_) =>
      if k in st.entries then Put(st, k, st.entries[k].(messages := [], lastAccess := now)) else st
    case SetDraft(_, text) =>
      st.(drafts := if text != "" then st.drafts[k := text] else st.drafts - {k})
    case ClearDraft(_) => st.(drafts := st.drafts - {k})
  }

  /** What `getCachedMessages` returns. */
  function Messages(st: Store, k: string): Option<seq<Message>> {
    if k in st.entries then Some(st.entries[k].messages) else None
  }

  lemma StepWellFormed(st: Store, op: Op, now: nat)
    requires WellFormed(st)
    ensures WellFormed(Step(st, op, now))
  {
    var k := op.key;
    match op
    case Get(_) =>
      if k in st.entries { PutWellFormed(st, k, st.entries[k].(lastAccess := now)); }
    case Set(_, messages, meta) =>
      PutWellFormed(st, k, Session(LastMessages(messages), now, meta));
      EvictWellFormed(Put(st, k, Session(LastMessages(messages), now, meta)));
    case Append(_, message) =>
      if k in st.entries {
        var session := st.entries[k];
        PutWellFormed(st, k, session.(messages := LastMessages(session.messages + [message]), lastAccess := now));
      } else {
        PutWellFormed(st, k, Session([message], now, NO_META));
        EvictWellFormed(Put(st, k, Session([message], now, NO_META)));
      }
    case Delete(_) => RemoveWellFormed(st, k);
    case Clear(_) =>
      if k in st.entries { PutWellFormed(st, k, st.entries[k].(messages := [], lastAccess := now)); }
    case SetDraft(_, _) =>
    case ClearDraft(_) =>
  }

  // ---------------------------------------------------------------- the store

  class ChatStore {
    var order: seq<string>
    var cache: map<string, Session>
    var drafts: map<string, string>

    ghost function View(): Store
      reads this
    {
      Store(order, cache, drafts)
    }

    constructor ()
      ensures View() == EMPTY && WellFormed(View())
    {
      order, cache, drafts := [], map[], map[];
    }

    method CacheSet(k: string, session: Session)
      modifies `order, `cache
      ensures View() == Put(old(View()), k, session)
    {
      if k !in cache {
        order := order + [k];
      }
      cache := cache[k := session];
    }

    method CacheDelete(k: string)
      modifies `order, `cache
      ensures order == (if k in old(cache) then Without(old(order), k) else old(order))
      ensures cache == old(cache) - {k}
    {
      if k in cache {
        order := Without(order, k);
      }
      cache := cache - {k};
    }

    /** The scan with running minima; no key yet, and an infinite time, to begin with. */
    method ScanOldest() returns (oldestKey: Option<string>)
      requires WellFormed(View()) && order != []
      ensures oldestKey == Some(Oldest(order, cache))
    {
      hide Oldest;
      oldestKey := None;
      var oldestTime: Option<nat> := None;
      for i := 0 to |order|
        invariant i == 0 ==> oldestKey == None && oldestTime == None
        invariant i > 0 ==> oldestKey == Some(Oldest(order[..i], cache))
        invariant i > 0 ==> oldestKey.value in cache && oldestTime == Some(cache[oldestKey.value].lastAccess)
      {
        var key := order[i];
        var entry := cache[key];
        OldestStep(order[..i], key, cache);
        assert order[..i] + [key] == order[..i + 1];
        if oldestTime.None? || entry.lastAccess < oldestTime.value {
          oldestTime := Some(entry.lastAccess);
          oldestKey := Some(key);
        }
      }
      assert order[..|order|] == order;
    }

    method EvictLRU()
      requires WellFormed(View())
      modifies this
      ensures View() == Evict(old(View())) && WellFormed(View())
    {
      EvictWellFormed(View());
      if |order| <= MAX_CACHED_SESSIONS {
        return;
      }
      var oldestKey := ScanOldest();
      hide Oldest, WellFormed;
      if oldestKey.Some? && oldestKey.value != "" {
        CacheDelete(oldestKey.value);
        drafts := drafts - {oldestKey.value};
      }
    }

    method GetCachedMessages(k: string, now: nat) returns (r: Option<seq<Message>>)
      requires WellFormed(View())
      modifies this
      ensures View() == Step(old(View()), Get(k), now) && WellFormed(View())
      ensures r == Messages(old(View()), k)
    {
      StepWellFormed(View(), Get(k), now);
      if k !in cache {
        return None;
      }
      var entry := cache[k];
      cache := cache[k := entry.(lastAccess := now)];
      return Some(entry.messages);
    }

    method SetCachedMessages(k: string, messages: seq<Message>, meta: Meta, now: nat)
      requires WellFormed(View())
      modifies this
      ensures View() == Step(old(View()), Set(k, messages, meta), now) && WellFormed(View())
    {
      hide WellFormed, Put, Evict;
      var trimmed := if |messages| > MAX_MESSAGES_PER_SESSION
                     then messages[|messages| - MAX_MESSAGES_PER_SESSION..] else messages;
      PutWellFormed(View(), k, Session(trimmed, now, meta));
      CacheSet(k, Session(trimmed, now, meta));
      EvictLRU();
    }

    method AppendCachedMessage(k: string, message: Message, now: nat)
      requires WellFormed(View())
      modifies this
      ensures View() == Step(old(View()), Append(k, message), now) && WellFormed(View())
    {
      hide WellFormed, Evict;
      StepWellFormed(View(), Append(k, message), now);
      if k !in cache {
        PutWellFormed(View(), k, Session([message], now, NO_META));
        CacheSet(k, Session([message], now, NO_META));
        EvictLRU();
        return;
      }
      var messages := cache[k].messages + [message];
      if |messages| > MAX_MESSAGES_PER_SESSION {
        messages := messages[|messages| - MAX_MESSAGES_PER_SESSION..];
      }
      cache := cache[k := cache[k].(messages := messages, lastAccess := now)];
    }

    method DeleteCachedSession(k: string, now: nat)
      requires WellFormed(View())
      modifies this
      ensures View() == Step(old(View()), Delete(k), now) && WellFormed(View())
    {
      StepWellFormed(View(), Delete(k), now);
      assert k !in cache ==> cache - {k} == cache;
      CacheDelete(k);
      drafts := drafts - {k};
    }

    method ClearCachedSession(k: string, now: nat)
      requires WellFormed(View())
      modifies this
      ensures View() == Step(old(View()), Clear(k), now) && WellFormed(View())
    {
      StepWellFormed(View(), Clear(k), now);
      if k in cache {
        cache := cache[k := cache[k].(messages := [], lastAccess := now)];
      }
    }

    method ClearSessionDraft(k: string, now: nat)
      requires WellFormed(View())
      modifies `drafts
      ensures View() == Step(old(View()), ClearDraft(k), now) && WellFormed(View())
    {
      drafts := drafts - {k};
    }

    method SetSessionDraft(k: string, value: string, now: nat)
      requires WellFormed(View())
      modifies `drafts
      ensures View() == Step(old(View()), SetDraft(k, value), now) && WellFormed(View())
    {
      if value != "" {
        drafts := drafts[k := value];
      } else {
        drafts := drafts - {k};
      }
    }
  }
}

/** The cache under any clock: sessions with equal access times rank by when they entered the map. */
module ChatCacheTies {
  import opened Text
  import opened ChatCache
  import opened ChatCacheProofs

  // ---------------------------------------------------------------- the reference

  /** The time of the last use, and the number of the session's entry into the cache. */
  datatype Rank = Rank(stamp: nat, entry: nat)

  /** Sessions in the order of their ranks, with their whole histories. */
  datatype Ranked = Ranked(chats: seq<Chat>, ranks: map<string, Rank>, next: nat, drafts: map<string, string>)

  predicate Lower(a: Rank, b: Rank) {
    a.stamp < b.stamp || (a.stamp == b.stamp && a.entry < b.entry)
  }

  function RankOf(ranks: map<string, Rank>, k: string): Rank {
    if k in ranks then ranks[k] else Rank(0, 0)
  }

  /** Insert a session into the sorted list. */
  function Sit(chats: seq<Chat>, ranks: map<string, Rank>, chat: Chat): seq<Chat> {
    if chats == [] then [chat]
    else
      var front, last := chats[..|chats| - 1], chats[|chats| - 1];
      if Lower(RankOf(ranks, last.key), RankOf(ranks, chat.key)) then chats + [chat]
      else Sit(front, ranks, chat) + [last]
  }

  /** A session that is used keeps its entry number; one that enters gets the next. */
  function Use(r: Ranked, chat: Chat, now: nat): Ranked {
    var k := chat.key;
    var ranks := r.ranks[k := Rank(now, if k in r.ranks then r.ranks[k].entry else r.next)];
    Ranked(Sit(Others(r.chats, k), ranks, chat), ranks, if k in r.ranks then r.next else r.next + 1, r.drafts)
  }

  function Drop(r: Ranked, k: string): Ranked {
    Ranked(Others(r.chats, k), r.ranks - {k}, r.next, r.drafts - {k})
  }

  /** Above 20 sessions the first goes, unless its key is empty. */
  function DropFirst(r: Ranked): Ranked {
    if |r.chats| <= MAX_CACHED_SESSIONS || r.chats[0].key == "" then r else Drop(r, r.chats[0].key)
  }

  function RankedStep(r: Ranked, op: Op, now: nat): Ranked {
    var k := op.key;
    var found := Lookup(r.chats, k);
    match op
    case Get(_) => if found.Some? then Use(r, found.value, now) else r
    case Set(_, messages, meta) => DropFirst(Use(r, Chat(k, messages, meta), now))
    case Append(_, message) =>
      if found.Some? then Use(r, found.value.(log := found.value.log + [message]), now)
      else DropFirst(Use(r, Chat(k, [message], Meta(None, None)), now))
    case Delete(_) => Drop(r, k)
    case Clear(_) => if found.Some? then Use(r, found.value.(log := []), now) else r
    case SetDraft(_, text) => r.(drafts := if text != "" then r.drafts[k := text] else r.drafts - {k})
    case ClearDraft(_) => r.(drafts := r.drafts - {k})
  }

  function RankedAfter(run: seq<Timed>): Ranked {
    if run == [] then Ranked([], map[], 0, map[])
    else RankedStep(RankedAfter(run[..|run| - 1]), run[|run| - 1].op, run[|run| - 1].now)
  }

  // ---------------------------------------------------------------- sorted lists

  ghost predicate Sorted(chats: seq<Chat>, ranks: map<string, Rank>) {
    forall i, j :: 0 <= i < j < |chats| ==> Lower(RankOf(ranks, chats[i].key), RankOf(ranks, chats[j].key))
  }

  ghost predicate HasKey(chats: seq<Chat>, k: string) {
    exists c :: c in chats && c.key == k
  }

  lemma SortedFront(chats: seq<Chat>, ranks: map<string, Rank>)
    requires Sorted(chats, ranks) && chats != []
    ensures var front, last := chats[..|chats| - 1], chats[|chats| - 1];
            && Sorted(front, ranks)
            && (forall c :: c in chats <==> c in front || c == last)
            && (forall c :: c in front ==> Lower(RankOf(ranks, c.key), RankOf(ranks, last.key)) && c.key != last.key)
  {
    var front, last := chats[..|chats| - 1], chats[|chats| - 1];
    assert chats == front + [last];
    forall c | c in front
      ensures Lower(RankOf(ranks, c.key), RankOf(ranks, last.key))
    {
      var i :| 0 <= i < |front| && front[i] == c;
      assert chats[i] == c;
    }
  }

  lemma SortedSnoc(chats: seq<Chat>, ranks: map<string, Rank>, last: Chat)
    requires Sorted(chats, ranks)
    requires forall c :: c in chats ==> Lower(RankOf(ranks, c.key), RankOf(ranks, last.key))
    ensures Sorted(chats + [last], ranks)
  {
    forall i | 0 <= i < |chats|
      ensures Lower(RankOf(ranks, chats[i].key), RankOf(ranks, last.key))
    {
      assert chats[i] in chats;
    }
  }

  lemma {:induction false} OthersSorted(chats: seq<Chat>, ranks: map<string, Rank>, k: string)
    requires Sorted(chats, ranks)
    ensures Sorted(Others(chats, k), ranks)
    ensures forall c :: c in Others(chats, k) <==> c in chats && c.key != k
    ensures |Others(chats, k)| == |chats| - (if HasKey(chats, k) then 1 else 0)
    decreases |chats|
  {
    if chats == [] {
    } else {
      var front, last := chats[..|chats| - 1], chats[|chats| - 1];
      SortedFront(chats, ranks);
      hide Sorted, Lower;
      if last.key != k {
        OthersSorted(front, ranks, k);
        SortedSnoc(Others(front, k), ranks, last);
      }
    }
  }

  lemma {:induction false} SitSorted(chats: seq<Chat>, ranks: map<string, Rank>, chat: Chat)
    requires Sorted(chats, ranks)
    requires forall c :: c in chats ==> RankOf(ranks, c.key) != RankOf(ranks, chat.key)
    ensures Sorted(Sit(chats, ranks, chat), ranks)
    ensures forall c :: c in Sit(chats, ranks, chat) <==> c in chats || c == chat
    ensures |Sit(chats, ranks, chat)| == |chats| + 1
    decreases |chats|
  {
    if chats == [] {
    } else {
      var front, last := chats[..|chats| - 1], chats[|chats| - 1];
      SortedFront(chats, ranks);
      hide Sorted;
      if Lower(RankOf(ranks, last.key), RankOf(ranks, chat.key)) {
        SortedSnoc(chats, ranks, chat);
      } else {
        SitSorted(front, ranks, chat);
        SortedSnoc(Sit(front, ranks, chat), ranks, last);
      }
    }
  }

  lemma SameSorted(chats: seq<Chat>, a: map<string, Rank>, b: map<string, Rank>)
    requires Sorted(chats, a)
    requires forall c :: c in chats ==> RankOf(b, c.key) == RankOf(a, c.key)
    ensures Sorted(chats, b)
  {
    forall i | 0 <= i < |chats|
      ensures RankOf(b, chats[i].key) == RankOf(a, chats[i].key)
    {
      assert chats[i] in chats;
    }
  }

  // ---------------------------------------------------------------- the relation

  /** The map's order is the order of entry. */
  ghost predicate InEntryOrder(order: seq<string>, ranks: map<string, Rank>) {
    forall i, j :: 0 <= i < j < |order| ==> RankOf(ranks, order[i]).entry < RankOf(ranks, order[j]).entry
  }

  /** The ranks are those of the cached sessions. */
  ghost predicate RanksFit(entries: map<string, Session>, order: seq<string>, ranks: map<string, Rank>, next: nat) {
    && ranks.Keys == entries.Keys
    && (forall k :: k in ranks ==> ranks[k].stamp == entries[k].lastAccess && ranks[k].entry < next)
    && InEntryOrder(order, ranks)
  }

  /** The list holds the cached sessions. */
  ghost predicate ChatsFit(entries: map<string, Session>, chats: seq<Chat>) {
    && (forall c :: c in chats ==> c.key in entries && Matches(entries[c.key], c))
    && (forall k :: k in entries ==> HasKey(chats, k))
  }

  ghost predicate Same(st: Store, r: Ranked) {
    && WellFormed(st) && st.drafts == r.drafts && |r.chats| == |st.order|
    && RanksFit(st.entries, st.order, r.ranks, r.next) && ChatsFit(st.entries, r.chats) && Sorted(r.chats, r.ranks)
  }

  lemma EntriesDiffer(st: Store, ranks: map<string, Rank>, a: string, b: string)
    requires WellFormed(st) && InEntryOrder(st.order, ranks)
    requires a in st.entries && b in st.entries && a != b
    ensures RankOf(ranks, a).entry != RankOf(ranks, b).entry
  {
    var i :| 0 <= i < |st.order| && st.order[i] == a;
    var j :| 0 <= j < |st.order| && st.order[j] == b;
  }

  lemma OrderPut(order: seq<string>, ranks: map<string, Rank>, k: string, stamp: nat)
    requires InEntryOrder(order, ranks) && k in ranks
    ensures InEntryOrder(order, ranks[k := Rank(stamp, ranks[k].entry)])
  {
    var after := ranks[k := Rank(stamp, ranks[k].entry)];
    assert forall x :: RankOf(after, x).entry == RankOf(ranks, x).entry;
  }

  lemma OrderAppend(order: seq<string>, ranks: map<string, Rank>, next: nat, k: string, stamp: nat)
    requires InEntryOrder(order, ranks) && k !in ranks
    requires forall x :: x in order ==> x in ranks && ranks[x].entry < next
    ensures InEntryOrder(order + [k], ranks[k := Rank(stamp, next)])
  {
    var after, all := ranks[k := Rank(stamp, next)], order + [k];
    forall i | 0 <= i < |order|
      ensures RankOf(after, all[i]).entry == RankOf(ranks, order[i]).entry < next
    {
      assert order[i] in order;
    }
  }

  lemma PutRanks(st: Store, ranks: map<string, Rank>, next: nat, k: string, session: Session)
    requires WellFormed(st) && RanksFit(st.entries, st.order, ranks, next)
    ensures var rank := Rank(session.lastAccess, if k in ranks then ranks[k].entry else next);
            var put := Put(st, k, session);
            RanksFit(put.entries, put.order, ranks[k := rank], if k in ranks then next else next + 1)
  {
    assert forall x :: x in st.order ==> x in ranks;
    if k in ranks {
      OrderPut(st.order, ranks, k, session.lastAccess);
    } else {
      OrderAppend(st.order, ranks, next, k, session.lastAccess);
    }
    hide WellFormed, InEntryOrder;
  }

  lemma PutRest(st: Store, k: string, session: Session)
    ensures Put(st, k, session).entries == st.entries[k := session] && Put(st, k, session).drafts == st.drafts
  {
  }

  lemma FitInOrder(entries: map<string, Session>, order: seq<string>, ranks: map<string, Rank>, next: nat)
    requires RanksFit(entries, order, ranks, next)
    ensures InEntryOrder(order, ranks)
  {
  }

  lemma UseRanks(st: Store, r: Ranked, chat: Chat, session: Session)
    requires WellFormed(st) && RanksFit(st.entries, st.order, r.ranks, r.next)
    ensures var put, after := Put(st, chat.key, session), Use(r, chat, session.lastAccess);
            && WellFormed(put) && RanksFit(put.entries, put.order, after.ranks, after.next)
            && (forall x :: x != chat.key ==> RankOf(after.ranks, x) == RankOf(r.ranks, x))
            && (forall x :: x in st.entries && x != chat.key ==>
                  RankOf(after.ranks, x) != RankOf(after.ranks, chat.key))
  {
    hide Sit, Others, WellFormed, InEntryOrder;
    var k := chat.key;
    var put, after := Put(st, k, session), Use(r, chat, session.lastAccess);
    PutRest(st, k, session);
    PutWellFormed(st, k, session);
    PutRanks(st, r.ranks, r.next, k, session);
    hide Put, RanksFit;
    assert InEntryOrder(put.order, after.ranks) by {
      FitInOrder(put.entries, put.order, after.ranks, after.next);
    }
    forall x | x in st.entries && x != k
      ensures RankOf(after.ranks, x) != RankOf(after.ranks, k)
    {
      EntriesDiffer(put, after.ranks, x, k);
    }
  }

  lemma PutChats(entries: map<string, Session>, chats: seq<Chat>, list: seq<Chat>, chat: Chat, session: Session)
    requires ChatsFit(entries, chats) && Matches(session, chat)
    requires forall c :: c in list <==> (c in chats && c.key != chat.key) || c == chat
    ensures ChatsFit(entries[chat.key := session], list)
  {
    hide Matches;
    assert chat in list;
    forall x | x in entries && x != chat.key
      ensures HasKey(list, x)
    {
      var c :| c in chats && c.key == x;
      assert c in list;
    }
  }

  /** Writing a session with the current time moves it to its rank. */
  lemma PutSame(st: Store, r: Ranked, chat: Chat, session: Session)
    requires Same(st, r) && Matches(session, chat)
    ensures Same(Put(st, chat.key, session), Use(r, chat, session.lastAccess))
  {
    hide WellFormed, Sorted, RanksFit, InEntryOrder, Matches, Lower, RankOf;
    var k := chat.key;
    var after := Use(r, chat, session.lastAccess);
    var others := Others(r.chats, k);
    PutRest(st, k, session);
    PutWellFormed(st, k, session);
    UseRanks(st, r, chat, session);
    OthersSorted(r.chats, r.ranks, k);
    hide Put;
    SameSorted(others, r.ranks, after.ranks);
    SitSorted(others, after.ranks, chat);
    PutChats(st.entries, r.chats, after.chats, chat, session);
    assert HasKey(r.chats, k) <==> k in st.entries;
  }

  lemma {:induction false} WithoutInOrder(order: seq<string>, ranks: map<string, Rank>, k: string)
    requires InEntryOrder(order, ranks)
    ensures InEntryOrder(Without(order, k), ranks)
    ensures forall x :: x in Without(order, k) ==> x in order
    decreases |order|
  {
    if order == [] {
    } else if order[0] == k {
      assert forall i :: 0 <= i < |order| - 1 ==> order[1..][i] == order[i + 1];
    } else {
      var rest := order[1..];
      assert forall i :: 0 <= i < |rest| ==> rest[i] == order[i + 1];
      WithoutInOrder(rest, ranks, k);
      var w := Without(rest, k);
      forall j | 0 <= j < |w|
        ensures RankOf(ranks, order[0]).entry < RankOf(ranks, w[j]).entry
      {
        assert w[j] in rest;
        var i :| 0 <= i < |rest| && rest[i] == w[j];
      }
    }
  }

  lemma RanksAmong(order: seq<string>, ranks: map<string, Rank>, k: string)
    requires InEntryOrder(order, ranks) && k !in order
    ensures InEntryOrder(order, ranks - {k})
  {
    forall i | 0 <= i < |order|
      ensures RankOf(ranks - {k}, order[i]) == RankOf(ranks, order[i])
    {
      assert order[i] in order;
    }
  }

  lemma {:induction false} NothingToRemove(order: seq<string>, k: string)
    requires k !in order
    ensures Without(order, k) == order
    decreases |order|
  {
    if order == [] {
    } else {
      assert order[0] in order;
      NothingToRemove(order[1..], k);
    }
  }

  lemma RemovedOrder(st: Store, k: string)
    requires WellFormed(st)
    ensures Remove(st, k).order == Without(st.order, k) && k !in Without(st.order, k)
    ensures Remove(st, k).entries == st.entries - {k}
  {
    WithoutIs(st.order, k);
    if k !in st.entries {
      assert k !in st.order;
      NothingToRemove(st.order, k);
      assert st.entries - {k} == st.entries;
    }
  }

  lemma RemoveRanks(st: Store, ranks: map<string, Rank>, next: nat, k: string)
    requires WellFormed(st) && RanksFit(st.entries, st.order, ranks, next)
    ensures RanksFit(Remove(st, k).entries, Remove(st, k).order, ranks - {k}, next)
  {
    RemovedOrder(st, k);
    hide Without, WellFormed, RankOf, Remove;
    WithoutInOrder(st.order, ranks, k);
    hide InEntryOrder;
    RanksAmong(Without(st.order, k), ranks, k);
  }

  lemma RemoveChats(entries: map<string, Session>, chats: seq<Chat>, others: seq<Chat>, k: string)
    requires ChatsFit(entries, chats)
    requires forall c :: c in others <==> c in chats && c.key != k
    ensures ChatsFit(entries - {k}, others)
  {
    hide Matches;
    forall x | x in entries && x != k
      ensures HasKey(others, x)
    {
      var c :| c in chats && c.key == x;
      assert c in others;
    }
  }

  lemma RemoveSame(st: Store, r: Ranked, k: string)
    requires Same(st, r)
    ensures Same(Remove(st, k), Drop(r, k))
  {
    hide WellFormed, Sorted, RanksFit, InEntryOrder, Matches, Lower, Without;
    var others := Others(r.chats, k);
    RemoveWellFormed(st, k);
    RemoveRanks(st, r.ranks, r.next, k);
    RemovedOrder(st, k);
    OthersSorted(r.chats, r.ranks, k);
    RemoveChats(st.entries, r.chats, others, k);
    SameSorted(others, r.ranks, r.ranks - {k});
    assert HasKey(r.chats, k) <==> k in st.entries;
  }

  // ---------------------------------------------------------------- eviction

  lemma EnteredEarlier(front: seq<string>, ranks: map<string, Rank>, last: string, x: string)
    requires InEntryOrder(front + [last], ranks) && x in front
    ensures RankOf(ranks, x).entry < RankOf(ranks, last).entry
  {
    var order := front + [last];
    var i :| 0 <= i < |front| && front[i] == x;
    assert order[i] == x && order[|front|] == last;
  }

  lemma FrontInOrder(order: seq<string>, ranks: map<string, Rank>)
    requires InEntryOrder(order, ranks) && order != []
    ensures InEntryOrder(order[..|order| - 1], ranks)
  {
  }

  ghost predicate Stamped(order: seq<string>, entries: map<string, Session>, ranks: map<string, Rank>) {
    forall x :: x in order ==> x in entries && RankOf(ranks, x).stamp == entries[x].lastAccess
  }

  ghost predicate Lowest(order: seq<string>, ranks: map<string, Rank>, k: string) {
    forall x :: x in order && x != k ==> Lower(RankOf(ranks, k), RankOf(ranks, x))
  }

  lemma SplitOrder(order: seq<string>, entries: map<string, Session>, ranks: map<string, Rank>, k: string)
    requires order != [] && InEntryOrder(order, ranks) && Stamped(order, entries, ranks) && Lowest(order, ranks, k)
    ensures var front, last := order[..|order| - 1], order[|order| - 1];
            && order == front + [last]
            && InEntryOrder(front, ranks) && Stamped(front, entries, ranks) && Lowest(front, ranks, k)
            && last in entries && (forall i :: 0 <= i < |front| ==> front[i] in entries)
  {
    var front, last := order[..|order| - 1], order[|order| - 1];
    assert order == front + [last] && last in order;
    assert forall x :: x in front ==> x in order;
    FrontInOrder(order, ranks);
  }

  lemma LowestIsOldest(order: seq<string>, entries: map<string, Session>, ranks: map<string, Rank>,
                       k: string, x: string)
    requires Stamped(order, entries, ranks) && Lowest(order, ranks, k) && k in order && x in order
    ensures k in entries && x in entries && entries[k].lastAccess <= entries[x].lastAccess
    ensures RankOf(ranks, x).entry < RankOf(ranks, k).entry ==> entries[k].lastAccess < entries[x].lastAccess
  {
  }

  lemma {:induction false} OldestByRank(order: seq<string>, entries: map<string, Session>, ranks: map<string, Rank>,
                                        k: string)
    requires InEntryOrder(order, ranks) && Stamped(order, entries, ranks) && Lowest(order, ranks, k) && k in order
    ensures forall i :: 0 <= i < |order| ==> order[i] in entries
    ensures Oldest(order, entries) == k
    decreases |order|
  {
    var front, last := order[..|order| - 1], order[|order| - 1];
    SplitOrder(order, entries, ranks, k);
    OldestStep(front, last, entries);
    hide Oldest, InEntryOrder, RankOf, Stamped, Lowest, Lower;
    LowestIsOldest(order, entries, ranks, k, last);
    if front == [] {
    } else if k in front {
      OldestByRank(front, entries, ranks, k);
    } else {
      EnteredEarlier(front, ranks, k, Oldest(front, entries));
      LowestIsOldest(order, entries, ranks, k, Oldest(front, entries));
    }
  }

  /** What the scan finds is the first of the list. */
  lemma OldestIsFirst(st: Store, r: Ranked)
    requires Same(st, r) && r.chats != []
    ensures st.order != [] && Oldest(st.order, st.entries) == r.chats[0].key && r.chats[0].key in st.entries
  {
    var k := r.chats[0].key;
    assert r.chats[0] in r.chats;
    forall x | x in st.order && x != k
      ensures Lower(RankOf(r.ranks, k), RankOf(r.ranks, x))
    {
      assert x in st.entries;
      var c :| c in r.chats && c.key == x;
      var i :| 0 <= i < |r.chats| && r.chats[i] == c;
    }
    OldestByRank(st.order, st.entries, r.ranks, k);
  }

  lemma EvictSame(st: Store, r: Ranked)
    requires Same(st, r)
    ensures Same(Evict(st), DropFirst(r))
  {
    if |st.order| > MAX_CACHED_SESSIONS {
      OldestIsFirst(st, r);
      RemoveSame(st, r, r.chats[0].key);
    }
    hide Sorted, InEntryOrder, Others, Without, Matches, Oldest;
  }

  // ---------------------------------------------------------------- runs

  lemma {:induction false} LookupSame(chats: seq<Chat>, k: string)
    ensures match Lookup(chats, k)
            case None => forall c :: c in chats ==> c.key != k
            case Some(c) => c in chats && c.key == k
    decreases |chats|
  {
    if chats == [] {
    } else {
      var front, last := chats[..|chats| - 1], chats[|chats| - 1];
      assert chats == front + [last];
      LookupSame(front, k);
    }
  }

  lemma FoundSame(st: Store, r: Ranked, k: string)
    requires Same(st, r)
    ensures WellFormed(st)
    ensures Lookup(r.chats, k).Some? <==> k in st.entries
    ensures Lookup(r.chats, k).Some? ==>
              Lookup(r.chats, k).value.key == k && Matches(st.entries[k], Lookup(r.chats, k).value)
  {
    LookupSame(r.chats, k);
  }

  lemma PutEvictSame(st: Store, r: Ranked, chat: Chat, session: Session)
    requires Same(st, r) && Matches(session, chat)
    ensures WellFormed(Put(st, chat.key, session))
    ensures Same(Evict(Put(st, chat.key, session)), DropFirst(Use(r, chat, session.lastAccess)))
  {
    PutSame(st, r, chat, session);
    assert WellFormed(Put(st, chat.key, session));
    hide WellFormed, Put, Use, Evict, DropFirst;
    EvictSame(Put(st, chat.key, session), Use(r, chat, session.lastAccess));
  }

  lemma DraftsSame(st: Store, r: Ranked, drafts: map<string, string>)
    requires Same(st, r)
    ensures Same(st.(drafts := drafts), r.(drafts := drafts)) && st.drafts == r.drafts
  {
  }

  lemma StepSame(st: Store, r: Ranked, op: Op, now: nat)
    requires WellFormed(st) && Same(st, r)
    ensures Same(Step(st, op, now), RankedStep(r, op, now))
  {
    hide Same, Evict, Put, Use, DropFirst, Drop, Remove, Lookup, WellFormed, LastMessages;
    var k := op.key;
    var found := Lookup(r.chats, k);
    FoundSame(st, r, k);
    match op
    case Get(_) =>
      if found.Some? {
        PutSame(st, r, found.value, st.entries[k].(lastAccess := now));
      }
    case Set(_, messages, meta) =>
      PutEvictSame(st, r, Chat(k, messages, meta), Session(LastMessages(messages), now, meta));
    case Append(_, message) =>
      if found.Some? {
        var chat := found.value.(log := found.value.log + [message]);
        TrimmedIncrementally(found.value.log, message);
        PutSame(st, r, chat, Session(LastMessages(st.entries[k].messages + [message]), now, st.entries[k].meta));
      } else {
        ShortLog([message]);
        PutEvictSame(st, r, Chat(k, [message], NO_META), Session([message], now, NO_META));
      }
    case Delete(_) => RemoveSame(st, r, k);
    case Clear(_) =>
      if found.Some? {
        ShortLog([]);
        PutSame(st, r, found.value.(log := []), st.entries[k].(messages := [], lastAccess := now));
      }
    case SetDraft(_, _) => DraftsSame(st, r, Step(st, op, now).drafts);
    case ClearDraft(_) => DraftsSame(st, r, Step(st, op, now).drafts);
  }

  /** In every run, under any clock and with any keys, the cache holds the sessions, in the order of
      entry, and evicts by the ranks of the list: the exact reference. */
  lemma {:induction false} RunRanks(run: seq<Timed>)
    ensures Same(After(run), RankedAfter(run))
    decreases |run|
  {
    if run == [] {
    } else {
      var front, last := run[..|run| - 1], run[|run| - 1];
      RunRanks(front);
      StepSame(After(front), RankedAfter(front), last.op, last.now);
    }
  }

  /** Every read returns the last 200 messages of the log of a session that is in the list. */
  lemma ReadsRank(run: seq<Timed>, k: string)
    ensures Messages(After(run), k) ==
              match Lookup(RankedAfter(run).chats, k) case None => None case Some(chat) => Some(LastMessages(chat.log))
  {
    RunRanks(run);
    FoundSame(After(run), RankedAfter(run), k);
  }

  /** What a read returns is the end of the session's whole log, and all of it up to 200 messages. */
  lemma ReadsEndOfLog(run: seq<Timed>, k: string) returns (dropped: seq<Message>)
    requires k in After(run).entries
    ensures Lookup(RankedAfter(run).chats, k).Some?
    ensures var log := Lookup(RankedAfter(run).chats, k).value.log;
            match Messages(After(run), k)
            case None => false
            case Some(read) => log == dropped + read && |read| == if |log| < 200 then |log| else 200
  {
    ReadsRank(run, k);
    hide After, RankedAfter, Lookup;
    var log := Lookup(RankedAfter(run).chats, k).value.log;
    dropped := log[..|log| - |LastMessages(log)|];
  }

  lemma EvictKeeps(st: Store, k: string)
    requires WellFormed(st) && k in Evict(st).entries
    ensures k in st.entries && Evict(st).entries[k] == st.entries[k]
  {
    hide Oldest, Without;
  }

  /** A message that was appended is the last to be read, if its session is still cached. */
  lemma AppendIsRead(run: seq<Timed>, k: string, message: Message, now: nat)
    ensures match Messages(After(run + [Timed(Append(k, message), now)]), k)
            case None => true
            case Some(read) => read != [] && read[|read| - 1] == message
  {
    var st := After(run);
    assert (run + [Timed(Append(k, message), now)])[..|run|] == run;
    PutWellFormed(st, k, Session([message], now, NO_META));
    hide WellFormed, Evict;
    if k !in st.entries && k in Evict(Put(st, k, Session([message], now, NO_META))).entries {
      EvictKeeps(Put(st, k, Session([message], now, NO_META)), k);
    }
  }

  // ---------------------------------------------------------------- where ties and the empty key tell

  /** Of equal stamps, the scan keeps to the first. */
  lemma {:induction false} FirstOfLeast(order: seq<string>, entries: map<string, Session>)
    requires order != [] && forall i :: 0 <= i < |order| ==> order[i] in entries
    requires forall i :: 0 <= i < |order| ==> entries[order[0]].lastAccess <= entries[order[i]].lastAccess
    ensures Oldest(order, entries) == order[0]
    decreases |order|
  {
    if |order| == 1 {
    } else {
      FirstOfLeast(order[..|order| - 1], entries);
    }
  }

  /** On one and the same stamp, reading the session that entered first does not save it: the next
      session to enter a full cache evicts it. */
  lemma TiesDefeatRecency(st: Store, k: string, messages: seq<Message>, meta: Meta, now: nat)
    requires WellFormed(st) && |st.order| == MAX_CACHED_SESSIONS && k !in st.entries && st.order[0] != ""
    requires forall x :: x in st.entries ==> st.entries[x].lastAccess == now
    ensures WellFormed(Step(st, Get(st.order[0]), now))
    ensures st.order[0] !in Step(Step(st, Get(st.order[0]), now), Set(k, messages, meta), now).entries
  {
    var first := st.order[0];
    var read := Step(st, Get(first), now);
    StepWellFormed(st, Get(first), now);
    assert read == st by {
      assert st.entries[first := st.entries[first].(lastAccess := now)] == st.entries;
    }
    var session := Session(LastMessages(messages), now, meta);
    PutWellFormed(st, k, session);
    var full := Put(st, k, session);
    assert full.order == st.order + [k];
    FirstOfLeast(full.order, full.entries);
    hide WellFormed, Oldest, Without;
  }

  /** Above 20 sessions nothing is evicted exactly while the session with the empty key is the oldest. */
  lemma EvictsUnlessEmptyKey(st: Store)
    requires WellFormed(st) && |st.order| > MAX_CACHED_SESSIONS
    ensures Evict(st) == st <==> Oldest(st.order, st.entries) == ""
  {
    var k := Oldest(st.order, st.entries);
    assert k in st.entries;
    hide Oldest, Without;
    if k != "" {
      assert k !in Evict(st).entries;
    }
  }

  lemma {:induction false} OldestIsLeast(order: seq<string>, entries: map<string, Session>, k: string)
    requires order != [] && (forall i :: 0 <= i < |order| ==> order[i] in entries) && k in order
    ensures entries[Oldest(order, entries)].lastAccess <= entries[k].lastAccess
    decreases |order|
  {
    var front, last := order[..|order| - 1], order[|order| - 1];
    assert order == front + [last];
    OldestStep(front, last, entries);
    hide Oldest;
    if front == [] {
    } else if k in front {
      OldestIsLeast(front, entries, k);
    }
  }

  lemma VictimOfSet(st: Store, k: string, session: Session, other: string) returns (victim: string)
    requires WellFormed(st) && |st.order| > MAX_CACHED_SESSIONS && "" in st.entries && k !in st.entries
    requires other in st.entries && st.entries[other].lastAccess < st.entries[""].lastAccess < session.lastAccess
    ensures WellFormed(Put(st, k, session))
    ensures victim != "" && victim in st.entries && victim !in Evict(Put(st, k, session)).entries
  {
    PutWellFormed(st, k, session);
    var full := Put(st, k, session);
    victim := Oldest(full.order, full.entries);
    assert other in full.order;
    OldestIsLeast(full.order, full.entries, other);
    assert victim in full.entries;
    hide WellFormed, Oldest, Without;
  }

  /** Reading that session makes another one the oldest, and the next session to enter evicts it. */
  lemma ReadingResumesEviction(st: Store, k: string, messages: seq<Message>, meta: Meta, now: nat)
    returns (victim: string)
    requires WellFormed(st) && |st.order| > MAX_CACHED_SESSIONS && "" in st.entries && k !in st.entries
    requires forall x :: x in st.entries ==> st.entries[x].lastAccess < now
    ensures WellFormed(Step(st, Get(""), now))
    ensures victim != "" && victim in st.entries
    ensures victim !in Step(Step(st, Get(""), now), Set(k, messages, meta), now + 1).entries
  {
    StepWellFormed(st, Get(""), now);
    var read := Step(st, Get(""), now);
    var other := if st.order[0] == "" then st.order[1] else st.order[0];
    assert other in st.entries && other != "";
    assert read.order == st.order && read.entries == st.entries["" := st.entries[""].(lastAccess := now)];
    hide Oldest, Without, LastMessages;
    victim := VictimOfSet(read, k, Session(LastMessages(messages), now + 1, meta), other);
  }
}

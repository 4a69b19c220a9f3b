/** What holds in every run of the WebSocket client: calls are settled exactly once, frames are
    conserved, connections never overlap under the right discipline, and the delay has a closed form.
    A run is any sequence of events; one that is not enabled when its turn comes does nothing. */
module WsSafety {
  import opened Text
  import opened WsClient
  import Backoff

  ghost function Advance(cfg: Config, st: State, e: Event): State {
    if Enabled(st, e) then Step(cfg, st, e) else st
  }

  ghost function After(cfg: Config, run: seq<Event>): State {
    if run == [] then Init(cfg) else Advance(cfg, After(cfg, run[..|run| - 1]), run[|run| - 1])
  }

  lemma AfterSnoc(cfg: Config, run: seq<Event>, e: Event)
    ensures After(cfg, run + [e]) == Advance(cfg, After(cfg, run), e)
  {
    assert (run + [e])[..|run|] == run;
  }

  // ---------------------------------------------------------------- calls

  /** The attempts to settle a call that is, or is not, waiting in the table: one when it stops waiting,
      and one before that if its message could not be serialised. */
  ghost predicate Record(attempts: seq<Outcome>, waiting: bool) {
    && attempts != []
    && if attempts[0].Unsendable?
       then if waiting then |attempts| == 1 else |attempts| == 2 && !attempts[1].Unsendable?
       else |attempts| == 1 && !waiting
  }

  /** Pending calls and live call timers match one to one, and no call was settled twice. */
  ghost predicate Ledger(st: State) {
    && (forall id :: id in st.pending ==>
          && id != ""
          && st.pending[id] in st.timers && st.timers[st.pending[id]] == RpcTimeout(id))
    && (forall t :: t in st.timers ==>
          && t < st.nextTimer
          && (st.timers[t].RpcTimeout? ==> st.timers[t].id in st.pending && st.pending[st.timers[t].id] == t))
    && (forall id :: id in st.settled ==> Record(st.settled[id], id in st.pending))
    && (st.reconnectTimer.Some? ==>
          && st.reconnectTimer.value < st.nextTimer
          && (st.reconnectTimer.value in st.timers ==> st.timers[st.reconnectTimer.value].Reconnect?))
  }

  ghost function Known(st: State): set<string> {
    st.pending.Keys + st.settled.Keys
  }

  lemma ClearKeepsLedger(st: State)
    requires Ledger(st)
    ensures Ledger(ClearReconnect(st))
    ensures Known(ClearReconnect(st)) == Known(st)
  {
  }

  lemma ConnectKeepsLedger(st: State)
    requires Ledger(st)
    ensures Ledger(OnConnect(st)) && Known(OnConnect(st)) == Known(st)
  {
    ClearKeepsLedger(st.(intentionallyClosed := false));
  }

  /** Exactly the reconnect timers stay. */
  lemma RejectStopsCalls(st: State, outcome: Outcome)
    requires Ledger(st)
    ensures forall t :: t in RejectAll(st, outcome).timers <==> t in st.timers && st.timers[t].Reconnect?
    ensures forall t :: t in RejectAll(st, outcome).timers ==> RejectAll(st, outcome).timers[t] == st.timers[t]
  {
    var after := RejectAll(st, outcome);
    forall t | t in st.timers && st.timers[t].RpcTimeout?
      ensures t !in after.timers
    {
      assert st.timers[t].id in st.pending;
    }
  }

  lemma RejectSettles(st: State, outcome: Outcome)
    requires Ledger(st) && !outcome.Unsendable?
    ensures var after := RejectAll(st, outcome);
            && Known(after) == Known(st)
            && after.pending == map[] && after.nextTimer == st.nextTimer && after.reconnectTimer == st.reconnectTimer
            && forall id :: id in after.settled ==> Record(after.settled[id], false)
  {
  }

  lemma RejectKeepsLedger(st: State, outcome: Outcome)
    requires Ledger(st) && !outcome.Unsendable?
    ensures Ledger(RejectAll(st, outcome)) && Known(RejectAll(st, outcome)) == Known(st)
    ensures RejectAll(st, outcome).pending == map[]
    ensures forall t :: t in RejectAll(st, outcome).timers <==> t in st.timers && st.timers[t].Reconnect?
    ensures forall t :: t in RejectAll(st, outcome).timers ==> RejectAll(st, outcome).timers[t] == st.timers[t]
  {
    RejectStopsCalls(st, outcome);
    RejectSettles(st, outcome);
    hide RejectAll, Known;
  }

  lemma ScheduleKeepsLedger(cfg: Config, st: State)
    requires Ledger(st)
    ensures Ledger(ScheduleReconnect(cfg, st)) && Known(ScheduleReconnect(cfg, st)) == Known(st)
  {
  }

  /** The ledger looks at nothing but the calls, the timers and the reconnect timer. */
  lemma SameLedger(a: State, b: State)
    requires Ledger(a)
    requires b.pending == a.pending && b.settled == a.settled && b.timers == a.timers
    requires b.nextTimer == a.nextTimer && b.reconnectTimer == a.reconnectTimer
    ensures Ledger(b) && Known(b) == Known(a)
  {
  }

  lemma EnterKeepsLedger(st: State, id: string)
    requires Ledger(st) && id != "" && id !in st.pending && id !in st.settled
    ensures var after := OnRpc(st, id, true);
            && Ledger(after) && Known(after) == Known(st) + {id}
            && (IsOpen(st) ==> id in after.pending && id !in after.settled)
  {
    var after := OnRpc(st, id, true);
    if IsOpen(st) {
      assert after.pending.Keys == st.pending.Keys + {id};
    } else {
      assert after.settled.Keys == st.settled.Keys + {id};
    }
  }

  lemma UnsentKeepsLedger(st: State, id: string)
    requires Ledger(st) && id in st.pending && id !in st.settled
    ensures var after := st.(settled := Settle(st.settled, id, Unsendable)); Ledger(after) && Known(after) == Known(st)
  {
  }

  lemma CallKeepsLedger(st: State, id: string, sendable: bool)
    requires Ledger(st) && id != "" && id !in st.pending && id !in st.settled
    ensures Ledger(OnRpc(st, id, sendable)) && Known(OnRpc(st, id, sendable)) == Known(st) + {id}
  {
    EnterKeepsLedger(st, id);
    if IsOpen(st) && !sendable {
      UnsentKeepsLedger(OnRpc(st, id, true), id);
    }
    hide Ledger, Known, Settle;
  }

  /** A call leaves the table: its timer stops, and one attempt to settle it is made. */
  function Leave(st: State, id: string, outcome: Outcome): State
    requires id in st.pending
  {
    st.(pending := st.pending - {id},
        timers := st.timers - {st.pending[id]},
        settled := Settle(st.settled, id, outcome))
  }

  lemma LeaveKeepsRecords(st: State, id: string, outcome: Outcome)
    requires Ledger(st) && id in st.pending && !outcome.Unsendable?
    ensures var after := Leave(st, id, outcome);
            && Known(after) == Known(st)
            && forall x :: x in after.settled ==> Record(after.settled[x], x in after.pending)
  {
  }

  lemma LeaveKeepsLedger(st: State, id: string, outcome: Outcome)
    requires Ledger(st) && id in st.pending && !outcome.Unsendable?
    ensures Ledger(Leave(st, id, outcome)) && Known(Leave(st, id, outcome)) == Known(st)
  {
    LeaveKeepsRecords(st, id, outcome);
    hide Record, Settle, Known;
  }

  lemma MessageKeepsLedger(st: State, frame: Frame)
    requires Ledger(st)
    ensures Ledger(OnMessage(st, frame)) && Known(OnMessage(st, frame)) == Known(st)
  {
    if frame.Message? && frame.isRpcResponse && frame.id != "" && frame.id in st.pending {
      var outcome := if frame.error != "" then Failed(frame) else Resolved(frame);
      LeaveKeepsLedger(st, frame.id, outcome);
      hide Ledger, Known;
      SameLedger(Leave(st, frame.id, outcome), OnMessage(st, frame));
    } else {
      hide Ledger, Known;
      SameLedger(st, OnMessage(st, frame));
    }
  }

  lemma TimerKeepsLedger(cfg: Config, st: State, t: nat)
    requires Ledger(st) && t in st.timers
    ensures Ledger(OnTimer(cfg, st, t)) && Known(OnTimer(cfg, st, t)) == Known(st)
  {
    match st.timers[t]
    case Reconnect(_) =>
      var fired := st.(timers := st.timers - {t}, currentDelay := Backoff.Doubled(st.currentDelay, cfg.cap));
      ConnectKeepsLedger(fired);
    case RpcTimeout(id) =>
      assert id in st.pending && st.pending[id] == t;
      LeaveKeepsLedger(st, id, TimedOut);
      hide Ledger, Known;
      SameLedger(Leave(st, id, TimedOut), OnTimer(cfg, st, t));
  }

  lemma StepKeepsLedger(cfg: Config, st: State, e: Event)
    requires Ledger(st) && Enabled(st, e)
    ensures Ledger(Step(cfg, st, e))
    ensures Known(Step(cfg, st, e)) == Known(st) + (if e.Rpc? then {e.id} else {})
  {
    hide Ledger, Known, RejectAll, ScheduleReconnect, ClearReconnect, OnConnect, OnRpc, OnMessage, OnTimer;
    match e
    case Connect => ConnectKeepsLedger(st);
    case Disconnect =>
      var st0 := st.(intentionallyClosed := true);
      SameLedger(st, st0);
      ClearKeepsLedger(st0);
      var st1 := RejectAll(ClearReconnect(st0), Disconnected);
      RejectKeepsLedger(ClearReconnect(st0), Disconnected);
      SameLedger(st1, Step(cfg, st, e));
    case Rpc(id, sendable) => CallKeepsLedger(st, id, sendable);
    case SocketOpened(k) => SameLedger(st, Step(cfg, st, e));
    case SocketMessage(_, frame) => MessageKeepsLedger(st, frame);
    case SocketClosing(_) => SameLedger(st, Step(cfg, st, e));
    case SocketClose(k) =>
      var st0 := st.(sockets := st.sockets[k := Closed], inClose := true);
      SameLedger(st, st0);
      RejectKeepsLedger(st0, SocketClosed);
    case CloseReturned =>
      SameLedger(st, st.(inClose := false));
      ScheduleKeepsLedger(cfg, st.(inClose := false));
    case TimerFired(t) => TimerKeepsLedger(cfg, st, t);
  }

  /** The calls a run makes. */
  ghost function Issued(cfg: Config, run: seq<Event>): set<string> {
    if run == [] then {}
    else
      var front, e := run[..|run| - 1], run[|run| - 1];
      Issued(cfg, front) + (if e.Rpc? && Enabled(After(cfg, front), e) then {e.id} else {})
  }

  lemma {:induction false} LedgerHolds(cfg: Config, run: seq<Event>)
    ensures Ledger(After(cfg, run)) && Known(After(cfg, run)) == Issued(cfg, run)
    decreases |run|
  {
    if run == [] {
    } else {
      var front, e := run[..|run| - 1], run[|run| - 1];
      LedgerHolds(cfg, front);
      if Enabled(After(cfg, front), e) {
        StepKeepsLedger(cfg, After(cfg, front), e);
      }
    }
  }

  // ---------------------------------------------------------------- the fate of one call

  /** What an event decides about a pending call, if anything. */
  function Fate(st: State, e: Event, id: string): Option<Outcome>
    requires id in st.pending
  {
    match e
    case Disconnect => Some(Disconnected)
    case SocketClose(_) => Some(SocketClosed)
    case SocketMessage(_, frame) =>
      if frame.Message? && frame.isRpcResponse && frame.id == id
      then Some(if frame.error != "" then Failed(frame) else Resolved(frame)) else None
    case TimerFired(t) => if t == st.pending[id] then Some(TimedOut) else None
    case _ => None
  }

  /** The attempts to settle a call so far. */
  ghost function Attempts(st: State, id: string): seq<Outcome> {
    if id in st.settled then st.settled[id] else []
  }

  /** The call goes on waiting with the same timer, and no attempt to settle it was made. */
  ghost predicate Waiting(st: State, after: State, id: string)
    requires id in st.pending
  {
    && id in after.pending && after.pending[id] == st.pending[id] && st.pending[id] in after.timers
    && Attempts(after, id) == Attempts(st, id)
  }

  lemma TimersAreOld(st: State, id: string)
    requires Ledger(st) && id in st.pending
    ensures st.pending[id] in st.timers && st.pending[id] < st.nextTimer
  {
  }

  lemma ConnectKeepsWaiting(st: State, id: string)
    requires Ledger(st) && id in st.pending
    ensures var after := OnConnect(st);
            Waiting(st, after, id)
  {
  }

  lemma CallKeepsWaiting(st: State, other: string, sendable: bool, id: string)
    requires Ledger(st) && id in st.pending && other !in st.pending
    ensures var after := OnRpc(st, other, sendable);
            Waiting(st, after, id)
  {
  }

  lemma MessageFate(st: State, frame: Frame, id: string)
    requires Ledger(st) && id in st.pending
    ensures var after := OnMessage(st, frame);
            if frame.Message? && frame.isRpcResponse && frame.id == id then
              id !in after.pending && st.pending[id] !in after.timers
              && Attempts(after, id) ==
                   Attempts(st, id) + [if frame.error != "" then Failed(frame) else Resolved(frame)]
            else
              Waiting(st, after, id)
  {
  }

  lemma TimerFate(cfg: Config, st: State, t: nat, id: string)
    requires Ledger(st) && id in st.pending && t in st.timers
    ensures var after := OnTimer(cfg, st, t);
            if t == st.pending[id] then
              id !in after.pending && t !in after.timers && Attempts(after, id) == Attempts(st, id) + [TimedOut]
            else
              Waiting(st, after, id)
  {
  }

  lemma RejectedOne(st: State, outcome: Outcome, id: string)
    requires Ledger(st) && id in st.pending
    ensures var after := RejectAll(st, outcome);
            && id !in after.pending && st.pending[id] !in after.timers
            && Attempts(after, id) == Attempts(st, id) + [outcome] && after.nextTimer == st.nextTimer
  {
  }

  /** A pending call is settled as its fate says and its timer is stopped; without a fate it stays
      pending with the same timer. */
  lemma PendingFate(cfg: Config, st: State, e: Event, id: string)
    requires Ledger(st) && Enabled(st, e) && id in st.pending
    ensures var after := Step(cfg, st, e);
            match Fate(st, e, id)
            case Some(outcome) =>
              id !in after.pending && st.pending[id] !in after.timers
              && Attempts(after, id) == Attempts(st, id) + [outcome]
            case None =>
              Waiting(st, after, id)
  {
    hide RejectAll, Ledger, OnMessage, OnTimer, OnRpc;
    match e
    case SocketMessage(_, frame) => MessageFate(st, frame, id);
    case TimerFired(t) => TimerFate(cfg, st, t, id);
    case Rpc(other, sendable) => CallKeepsWaiting(st, other, sendable, id);
    case Connect => ConnectKeepsWaiting(st, id);
    case Disconnect =>
      var st0 := st.(intentionallyClosed := true);
      SameLedger(st, st0);
      ClearKeepsLedger(st0);
      RejectedOne(ClearReconnect(st0), Disconnected, id);
    case SocketClose(k) =>
      var st0 := st.(sockets := st.sockets[k := Closed], inClose := true);
      SameLedger(st, st0);
      RejectedOne(st0, SocketClosed, id);
    case CloseReturned => TimersAreOld(st, id);
    case SocketOpened(_) => TimersAreOld(st, id);
    case SocketClosing(_) => TimersAreOld(st, id);
  }

  // ---------------------------------------------------------------- what the caller sees

  /** A promise keeps the first attempt to settle it. */
  ghost function Seen(st: State, id: string): Option<Outcome> {
    if Attempts(st, id) == [] then None else Some(Attempts(st, id)[0])
  }

  lemma RejectAddsAttempts(st: State, outcome: Outcome, id: string)
    requires id in st.settled
    ensures id in RejectAll(st, outcome).settled && Attempts(st, id) <= Attempts(RejectAll(st, outcome), id)
  {
  }

  /** A call that is no longer pending stays as it is; one that is pending only gets attempts added. */
  lemma StepAddsAttempts(cfg: Config, st: State, e: Event, id: string)
    requires Ledger(st) && Enabled(st, e) && id in st.settled
    ensures id in Step(cfg, st, e).settled && Attempts(st, id) <= Attempts(Step(cfg, st, e), id)
  {
    hide Ledger;
    match e
    case Disconnect => RejectAddsAttempts(ClearReconnect(st.(intentionallyClosed := true)), Disconnected, id);
    case SocketClose(k) =>
      RejectAddsAttempts(st.(sockets := st.sockets[k := Closed], inClose := true), SocketClosed, id);
    case _ =>
  }

  /** What the caller saw stays what the caller sees. */
  lemma {:induction false} SeenIsFinal(cfg: Config, run: seq<Event>, later: seq<Event>, id: string)
    requires Seen(After(cfg, run), id).Some?
    ensures Seen(After(cfg, run + later), id) == Seen(After(cfg, run), id)
    decreases |later|
  {
    if later == [] {
      assert run + later == run;
    } else {
      var front, e := later[..|later| - 1], later[|later| - 1];
      SeenIsFinal(cfg, run, front, id);
      assert run + later == run + front + [e];
      AfterSnoc(cfg, run + front, e);
      LedgerHolds(cfg, run + front);
      if Enabled(After(cfg, run + front), e) {
        StepAddsAttempts(cfg, After(cfg, run + front), e, id);
      }
    }
  }

  /** The first event that decides a pending call decides it for good: whatever follows, late
      responses and timeouts included, the caller sees that outcome and no other, unless the call was
      rejected already because its message could not be serialised. */
  lemma FirstOutcomeWins(cfg: Config, run: seq<Event>, e: Event, later: seq<Event>, id: string)
    requires id in After(cfg, run).pending && Enabled(After(cfg, run), e) && Fate(After(cfg, run), e, id).Some?
    ensures Seen(After(cfg, run + [e] + later), id) ==
              match Seen(After(cfg, run), id)
              case Some(outcome) => Some(outcome)
              case None => Fate(After(cfg, run), e, id)
  {
    LedgerHolds(cfg, run);
    PendingFate(cfg, After(cfg, run), e, id);
    AfterSnoc(cfg, run, e);
    SeenIsFinal(cfg, run + [e], later, id);
  }

  /** The calls whose caller saw that the message could not be serialised. */
  ghost function UnsentCalls(st: State): set<string> {
    set id | id in st.settled && Seen(st, id) == Some(Unsendable)
  }

  /** The calls of a run whose message could not be serialised when it was to be sent. */
  ghost function Unsent(cfg: Config, run: seq<Event>): set<string> {
    if run == [] then {}
    else
      var front, e := run[..|run| - 1], run[|run| - 1];
      var st := After(cfg, front);
      Unsent(cfg, front) + (if e.Rpc? && !e.sendable && Enabled(st, e) && IsOpen(st) then {e.id} else {})
  }

  lemma FirstAttempt(st: State, id: string, sendable: bool)
    requires id !in st.settled
    ensures Seen(OnRpc(st, id, sendable), id) ==
              if !IsOpen(st) then Some(NotConnected) else if sendable then None else Some(Unsendable)
  {
  }

  lemma NewAttempt(cfg: Config, st: State, e: Event, id: string)
    requires Ledger(st) && Enabled(st, e) && id !in st.settled && id in Step(cfg, st, e).settled
    ensures Seen(Step(cfg, st, e), id) == Some(Unsendable) <==> e == Rpc(id, false) && IsOpen(st)
  {
    StepKeepsLedger(cfg, st, e);
    hide Ledger, RejectAll, OnConnect, OnDisconnect, OnMessage, OnClose, OnCloseReturned, OnTimer, Settle;
    var after := Step(cfg, st, e);
    if id in st.pending {
      PendingFate(cfg, st, e, id);
    } else {
      assert id in Known(after);
      assert e.Rpc? && e.id == id;
      FirstAttempt(st, id, e.sendable);
    }
  }

  lemma StepUnsent(cfg: Config, st: State, e: Event)
    requires Ledger(st) && Enabled(st, e)
    ensures UnsentCalls(Step(cfg, st, e)) ==
              UnsentCalls(st) + (if e.Rpc? && !e.sendable && IsOpen(st) then {e.id} else {})
  {
    var after := Step(cfg, st, e);
    forall id
      ensures id in UnsentCalls(after) <==> id in UnsentCalls(st) || (e == Rpc(id, false) && IsOpen(st))
    {
      if id in st.settled {
        StepAddsAttempts(cfg, st, e, id);
        assert Record(st.settled[id], id in st.pending);
      } else if id in after.settled {
        NewAttempt(cfg, st, e, id);
      }
    }
  }

  lemma {:induction false} UnsentAfter(cfg: Config, run: seq<Event>)
    ensures UnsentCalls(After(cfg, run)) == Unsent(cfg, run)
    decreases |run|
  {
    if run == [] {
    } else {
      var front, e := run[..|run| - 1], run[|run| - 1];
      UnsentAfter(cfg, front);
      LedgerHolds(cfg, front);
      if Enabled(After(cfg, front), e) {
        StepUnsent(cfg, After(cfg, front), e);
      }
    }
  }

  /** A call that was sent is either pending or settled by one attempt; one that could not be sent was
      rejected at once, and is also pending until a second attempt, which its caller does not see. */
  ghost predicate Accounted(st: State, id: string, unsent: bool) {
    if unsent then
      && Seen(st, id) == Some(Unsendable)
      && |Attempts(st, id)| == if id in st.pending then 1 else 2
    else
      && Seen(st, id) != Some(Unsendable)
      && |Attempts(st, id)| == if id in st.pending then 0 else 1
  }

  /** Exactly-once settlement: in every interleaving the calls known to the client are those issued,
      each pending one has its own live timer, and each is settled exactly once for its caller, or is
      pending, or, exactly when it could not be sent, both until one more attempt is made. */
  lemma ExactlyOnce(cfg: Config, run: seq<Event>)
    ensures var st := After(cfg, run);
            && Ledger(st)
            && st.pending.Keys + st.settled.Keys == Issued(cfg, run)
            && forall id :: id in Issued(cfg, run) ==> Accounted(st, id, id in Unsent(cfg, run))
  {
    var st := After(cfg, run);
    LedgerHolds(cfg, run);
    UnsentAfter(cfg, run);
    forall id | id in Issued(cfg, run)
      ensures Accounted(st, id, id in Unsent(cfg, run))
    {
      assert id in Known(st);
      if id in st.settled {
        assert Record(st.settled[id], id in st.pending);
      }
    }
  }

  lemma OpenedOnce(cfg: Config)
    ensures After(cfg, [Connect, SocketOpened(0)]) ==
              Init(cfg).(sockets := [Open], ws := Some(0))
  {
    AfterSnoc(cfg, [], Connect);
    AfterSnoc(cfg, [Connect], SocketOpened(0));
    assert [] + [Connect] == [Connect] && [Connect] + [SocketOpened(0)] == [Connect, SocketOpened(0)];
    assert After(cfg, [Connect]) == Init(cfg).(sockets := [Connecting], ws := Some(0));
  }

  /** A run with a call that is pending and settled at once: its message cannot be serialised. */
  lemma UnsentIsBoth(cfg: Config, id: string)
    requires id != ""
    ensures var st := After(cfg, [Connect, SocketOpened(0), Rpc(id, false)]);
            id in st.pending && id in st.settled && Seen(st, id) == Some(Unsendable)
  {
    hide After;
    OpenedOnce(cfg);
    AfterSnoc(cfg, [Connect, SocketOpened(0)], Rpc(id, false));
    assert [Connect, SocketOpened(0)] + [Rpc(id, false)] == [Connect, SocketOpened(0), Rpc(id, false)];
  }

  // ---------------------------------------------------------------- frames

  ghost predicate AnsweredLast(attempts: seq<Outcome>) {
    attempts != [] && attempts[|attempts| - 1].Answered()
  }

  /** The calls whose entry in the table was used up by a response. */
  ghost function AnsweredCalls(settled: map<string, seq<Outcome>>): set<string> {
    set id | id in settled && AnsweredLast(settled[id])
  }

  ghost function Answers(settled: map<string, seq<Outcome>>): set<Frame> {
    set id | id in AnsweredCalls(settled) :: settled[id][|settled[id]| - 1].frame
  }

  /** The frame that settled a call is a response that names the call, and it rejected it exactly when
      it carries an error. */
  ghost predicate AnswersFit(settled: map<string, seq<Outcome>>) {
    forall id :: id in AnsweredCalls(settled) ==>
      var outcome := settled[id][|settled[id]| - 1];
      && outcome.frame.Message? && outcome.frame.isRpcResponse && outcome.frame.id == id
      && (outcome.Failed? <==> outcome.frame.error != "")
  }

  /** Each parsed frame but null went either to the one call it names or to the message handler, and
      nothing else went there; a null frame went nowhere. */
  ghost predicate FramesAccounted(st: State) {
    && AnswersFit(st.settled)
    && multiset(st.parsed)[Null := 0] == multiset(st.handled) + multiset(Answers(st.settled))
  }

  lemma SameFrames(a: State, b: State)
    requires FramesAccounted(a) && b.parsed == a.parsed && b.handled == a.handled
    requires AnsweredCalls(b.settled) == AnsweredCalls(a.settled)
    requires forall id :: id in AnsweredCalls(a.settled) ==> b.settled[id] == a.settled[id]
    ensures FramesAccounted(b)
  {
  }

  lemma SettleOther(st: State, id: string, outcome: Outcome)
    requires !outcome.Answered() && (id in st.settled ==> !AnsweredLast(st.settled[id]))
    ensures var after := Settle(st.settled, id, outcome);
            && AnsweredCalls(after) == AnsweredCalls(st.settled)
            && forall i :: i in AnsweredCalls(st.settled) ==> after[i] == st.settled[i]
  {
  }

  lemma RejectOthers(st: State, outcome: Outcome)
    requires Ledger(st) && !outcome.Answered()
    ensures var after := RejectAll(st, outcome);
            && after.parsed == st.parsed && after.handled == st.handled
            && AnsweredCalls(after.settled) == AnsweredCalls(st.settled)
            && forall id :: id in AnsweredCalls(st.settled) ==> after.settled[id] == st.settled[id]
  {
  }

  lemma OneMoreAnswer(settled: map<string, seq<Outcome>>, id: string, outcome: Outcome)
    requires AnswersFit(settled) && outcome.Answered() && (id in settled ==> !AnsweredLast(settled[id]))
    requires outcome.frame.Message? && outcome.frame.isRpcResponse && outcome.frame.id == id
    requires outcome.Failed? <==> outcome.frame.error != ""
    ensures var after := Settle(settled, id, outcome);
            && AnswersFit(after)
            && outcome.frame !in Answers(settled)
            && Answers(after) == Answers(settled) + {outcome.frame}
  {
    var after := Settle(settled, id, outcome);
    assert AnsweredCalls(after) == AnsweredCalls(settled) + {id};
    assert forall i :: i in AnsweredCalls(settled) ==> after[i] == settled[i];
    assert after[id][|after[id]| - 1] == outcome;
  }

  lemma OneMoreParsed(parsed: seq<Frame>, frame: Frame)
    ensures multiset(parsed + [frame])[Null := 0] ==
              multiset(parsed)[Null := 0] + (if frame.Null? then multiset{} else multiset{frame})
  {
    assert multiset(parsed + [frame]) == multiset(parsed) + multiset{frame};
    var before, after := multiset(parsed)[Null := 0], multiset(parsed + [frame])[Null := 0];
    assert forall f :: f != Null ==> after[f] == before[f] + multiset{frame}[f];
  }

  lemma MessageAccounted(st: State, frame: Frame)
    requires Ledger(st) && FramesAccounted(st)
    ensures FramesAccounted(OnMessage(st, frame))
  {
    hide AnswersFit, Answers, AnsweredCalls, Settle;
    OneMoreParsed(st.parsed, frame);
    if frame.Message? && frame.isRpcResponse && frame.id != "" && frame.id in st.pending {
      assert frame.id in st.settled ==> Record(st.settled[frame.id], true);
      hide Ledger;
      OneMoreAnswer(st.settled, frame.id, if frame.error != "" then Failed(frame) else Resolved(frame));
    }
  }

  lemma TimerAccounts(cfg: Config, st: State, t: nat)
    requires Ledger(st) && t in st.timers && FramesAccounted(st)
    ensures FramesAccounted(OnTimer(cfg, st, t))
  {
    if st.timers[t].RpcTimeout? {
      var id := st.timers[t].id;
      assert id in st.settled ==> Record(st.settled[id], true);
      SettleOther(st, id, TimedOut);
    }
    SameFrames(st, OnTimer(cfg, st, t));
  }

  lemma StepAccountsFrames(cfg: Config, st: State, e: Event)
    requires Ledger(st) && Enabled(st, e) && FramesAccounted(st)
    ensures FramesAccounted(Step(cfg, st, e))
  {
    hide RejectAll, AnsweredCalls, AnswersFit, Answers, Ledger, FramesAccounted, Settle, OnTimer, OnMessage;
    var after := Step(cfg, st, e);
    match e
    case Connect => SameFrames(st, after);
    case Disconnect =>
      var st0 := st.(intentionallyClosed := true);
      SameLedger(st, st0);
      ClearKeepsLedger(st0);
      RejectOthers(ClearReconnect(st0), Disconnected);
      SameFrames(st, after);
    case Rpc(id, _) =>
      SettleOther(st, id, NotConnected);
      SettleOther(st, id, Unsendable);
      SameFrames(st, after);
    case SocketOpened(k) => SameFrames(st, after);
    case SocketMessage(_, frame) => MessageAccounted(st, frame);
    case SocketClosing(_) => SameFrames(st, after);
    case SocketClose(k) =>
      var st0 := st.(sockets := st.sockets[k := Closed], inClose := true);
      SameLedger(st, st0);
      RejectOthers(st0, SocketClosed);
      SameFrames(st, after);
    case CloseReturned => SameFrames(st, after);
    case TimerFired(t) => TimerAccounts(cfg, st, t);
  }

  lemma {:induction false} FrameConservation(cfg: Config, run: seq<Event>)
    ensures FramesAccounted(After(cfg, run))
    decreases |run|
  {
    if run == [] {
    } else {
      var front, e := run[..|run| - 1], run[|run| - 1];
      FrameConservation(cfg, front);
      LedgerHolds(cfg, front);
      if Enabled(After(cfg, front), e) {
        StepAccountsFrames(cfg, After(cfg, front), e);
      }
    }
  }

  /** No parsed frame is lost exactly when none was null. */
  lemma FramesConservedIff(cfg: Config, run: seq<Event>)
    ensures var st := After(cfg, run);
            multiset(st.parsed) == multiset(st.handled) + multiset(Answers(st.settled)) <==> Null !in st.parsed
  {
    var st := After(cfg, run);
    FrameConservation(cfg, run);
    var kept := multiset(st.handled) + multiset(Answers(st.settled));
    assert kept[Null] == 0;
    if Null !in st.parsed {
      assert multiset(st.parsed)[Null := 0] == multiset(st.parsed);
    }
  }

  /** A run that loses a frame: the one message is null. */
  lemma NullIsLost(cfg: Config)
    ensures var st := After(cfg, [Connect, SocketOpened(0), SocketMessage(0, Null)]);
            && st.parsed == [Null] && st.handled == [] && st.settled == map[]
            && multiset(st.parsed) != multiset(st.handled) + multiset(Answers(st.settled))
  {
    hide Answers, After;
    OpenedOnce(cfg);
    AfterSnoc(cfg, [Connect, SocketOpened(0)], SocketMessage(0, Null));
    assert [Connect, SocketOpened(0)] + [SocketMessage(0, Null)] == [Connect, SocketOpened(0), SocketMessage(0, Null)];
    FramesConservedIff(cfg, [Connect, SocketOpened(0), SocketMessage(0, Null)]);
  }

  // ---------------------------------------------------------------- connections

  ghost function Unclosed(st: State): set<nat> {
    set k | 0 <= k < |st.sockets| && st.sockets[k] != Closed
  }

  ghost function Armed(st: State): set<nat> {
    set t | t in st.timers && st.timers[t].Reconnect?
  }

  /** At most one unclosed socket or one armed reconnect timer, never both. */
  ghost predicate Exclusive(st: State) {
    |Unclosed(st)| + |Armed(st)| <= 1
  }

  /** The armed timer is the one the client remembers, and it was armed with the current delay. */
  ghost predicate Remembered(st: State) {
    forall t :: t in Armed(st) ==> st.reconnectTimer == Some(t) && st.timers[t].delay == st.currentDelay
  }

  lemma NothingIn<T>(s: set<T>)
    requires |s| == 0
    ensures s == {}
  {
  }

  lemma SubsetSize<T>(a: set<T>, b: set<T>)
    requires a <= b
    ensures |a| <= |b|
  {
    assert b == a + (b - a);
  }

  lemma AtMostOne<T>(s: set<T>, x: T)
    requires |s| <= 1 && x in s
    ensures s == {x}
  {
    if y :| y in s && y != x {
      assert |{x, y}| == 2 && {x, y} <= s;
      SubsetSize({x, y}, s);
    }
  }

  lemma ConnectAlone(st: State)
    requires Ledger(st) && Remembered(st) && Unclosed(st) == {}
    ensures Exclusive(OnConnect(st)) && Remembered(OnConnect(st)) && Armed(OnConnect(st)) == {}
  {
    var after := OnConnect(st);
    assert Armed(after) == {};
    assert Unclosed(after) == {|st.sockets|};
  }

  lemma ConnectOverlaps(st: State)
    requires Unclosed(st) != {}
    ensures !Exclusive(OnConnect(st))
  {
    var k :| k in Unclosed(st);
    var n := |st.sockets|;
    assert {k, n} <= Unclosed(OnConnect(st));
    SubsetSize({k, n}, Unclosed(OnConnect(st)));
  }

  lemma RejectKeepsArmed(st: State, outcome: Outcome)
    requires Ledger(st) && !outcome.Unsendable?
    ensures Armed(RejectAll(st, outcome)) == Armed(st)
    ensures forall t :: t in Armed(st) ==> RejectAll(st, outcome).timers[t] == st.timers[t]
  {
    RejectKeepsLedger(st, outcome);
  }

  /** While the close callback runs, no reconnect timer is armed. */
  ghost predicate Calm(st: State) {
    st.inClose ==> Armed(st) == {}
  }

  lemma CloseKeepsExclusive(st: State, k: nat)
    requires Ledger(st) && Exclusive(st) && Remembered(st) && k in Unclosed(st)
    ensures Exclusive(OnClose(st, k)) && Remembered(OnClose(st, k)) && Calm(OnClose(st, k))
    ensures Unclosed(OnClose(st, k)) == {}
  {
    var st0 := st.(sockets := st.sockets[k := Closed], inClose := true);
    var after := OnClose(st, k);
    SubsetSize({k}, Unclosed(st));
    AtMostOne(Unclosed(st), k);
    NothingIn(Armed(st));
    SameLedger(st, st0);
    RejectKeepsArmed(st0, SocketClosed);
    assert Armed(st0) == Armed(st);
    forall j | 0 <= j < |after.sockets|
      ensures after.sockets[j] == Closed
    {
      assert j == k || j !in Unclosed(st);
    }
    assert Unclosed(after) == {};
  }

  /** Whether a reconnect is armed when the close callback returns. */
  predicate Arms(cfg: Config, st: State) {
    cfg.autoReconnect && !st.intentionallyClosed
  }

  lemma ReturnKeepsExclusive(cfg: Config, st: State)
    requires Exclusive(st) && Remembered(st) && Calm(st) && st.inClose
    requires Arms(cfg, st) ==> Unclosed(st) == {}
    ensures Exclusive(OnCloseReturned(cfg, st)) && Remembered(OnCloseReturned(cfg, st))
  {
    var after := OnCloseReturned(cfg, st);
    assert Unclosed(after) == Unclosed(st);
    assert Armed(after) == if Arms(cfg, st) then {st.nextTimer} else {};
  }

  lemma ReturnOverlaps(cfg: Config, st: State)
    requires Arms(cfg, st) && Unclosed(st) != {}
    ensures !Exclusive(OnCloseReturned(cfg, st))
  {
    var after := OnCloseReturned(cfg, st);
    var k :| k in Unclosed(st);
    SubsetSize({k}, Unclosed(after));
    SubsetSize({st.nextTimer}, Armed(after));
  }

  /** Every armed timer is the one the client remembers. */
  ghost predicate Tracked(st: State) {
    forall t :: t in Armed(st) ==> st.reconnectTimer == Some(t)
  }

  /** Clearing stops the remembered timer and no other. */
  lemma ClearDisarms(st: State)
    ensures Armed(ClearReconnect(st)) == set t | t in Armed(st) && st.reconnectTimer != Some(t)
  {
  }

  /** What `disconnect` leaves armed are the timers the client has forgotten. */
  lemma DisconnectDisarms(st: State)
    requires Ledger(st)
    ensures Armed(OnDisconnect(st)) == set t | t in Armed(st) && st.reconnectTimer != Some(t)
    ensures Armed(OnDisconnect(st)) == {} <==> Tracked(st)
  {
    assert Armed(st.(intentionallyClosed := true)) == Armed(st);
    var st0 := ClearReconnect(st.(intentionallyClosed := true));
    SameLedger(st, st.(intentionallyClosed := true));
    ClearKeepsLedger(st.(intentionallyClosed := true));
    ClearDisarms(st.(intentionallyClosed := true));
    hide RejectAll, ClearReconnect, Ledger, Remembered;
    RejectKeepsArmed(st0, Disconnected);
    assert OnDisconnect(st).timers == RejectAll(st0, Disconnected).timers;
    if t :| t in Armed(st) && st.reconnectTimer != Some(t) {
      assert t in Armed(OnDisconnect(st));
    }
  }

  lemma RejectRest(st: State, outcome: Outcome)
    ensures var after := RejectAll(st, outcome);
            && after.sockets == st.sockets && after.ws == st.ws && after.inClose == st.inClose
            && after.intentionallyClosed == st.intentionallyClosed
            && after.currentDelay == st.currentDelay
  {
  }

  lemma DisconnectClosesAtMost(st: State)
    ensures Unclosed(OnDisconnect(st)) <= Unclosed(st)
    ensures |OnDisconnect(st).sockets| == |st.sockets| && OnDisconnect(st).intentionallyClosed
  {
    hide RejectAll;
    RejectRest(ClearReconnect(st.(intentionallyClosed := true)), Disconnected);
  }

  lemma DisconnectKeepsExclusive(st: State)
    requires Ledger(st) && Exclusive(st) && Remembered(st)
    ensures Exclusive(OnDisconnect(st)) && Remembered(OnDisconnect(st))
    ensures Armed(OnDisconnect(st)) == {} && OnDisconnect(st).intentionallyClosed
    ensures |OnDisconnect(st).sockets| == |st.sockets|
  {
    assert Tracked(st);
    DisconnectDisarms(st);
    DisconnectClosesAtMost(st);
    SubsetSize(Unclosed(OnDisconnect(st)), Unclosed(st));
  }

  lemma ReconnectKeepsExclusive(cfg: Config, st: State, t: nat)
    requires Ledger(st) && Exclusive(st) && Remembered(st) && t in Armed(st)
    ensures Exclusive(OnTimer(cfg, st, t)) && Remembered(OnTimer(cfg, st, t)) && Armed(OnTimer(cfg, st, t)) == {}
  {
    SubsetSize({t}, Armed(st));
    NothingIn(Unclosed(st));
    AtMostOne(Armed(st), t);
    var fired := st.(timers := st.timers - {t}, currentDelay := Backoff.Doubled(st.currentDelay, cfg.cap));
    assert Armed(fired) == {};
    assert Unclosed(fired) == {};
    ConnectAlone(fired);
  }

  /** Steps that touch no socket's being closed and no reconnect timer. */
  lemma SameConnections(a: State, b: State)
    requires Exclusive(a) && Remembered(a)
    requires Unclosed(b) == Unclosed(a) && Armed(b) == Armed(a)
    requires forall t :: t in Armed(a) ==> b.timers[t] == a.timers[t]
    requires Armed(a) == {} || (b.reconnectTimer == a.reconnectTimer && b.currentDelay == a.currentDelay)
    ensures Exclusive(b) && Remembered(b)
  {
  }

  lemma OpenedKeepsExclusive(cfg: Config, st: State, k: nat)
    requires Exclusive(st) && Remembered(st) && k in Unclosed(st)
    ensures Exclusive(OnOpened(cfg, st, k)) && Remembered(OnOpened(cfg, st, k)) && Armed(OnOpened(cfg, st, k)) == {}
  {
    SubsetSize({k}, Unclosed(st));
    NothingIn(Armed(st));
    assert Unclosed(OnOpened(cfg, st, k)) == Unclosed(st);
    assert Armed(OnOpened(cfg, st, k)) == Armed(st);
  }

  lemma ClosingKeepsExclusive(st: State, k: nat)
    requires Exclusive(st) && Remembered(st)
    ensures var after := st.(sockets := CloseSocket(st.sockets, k)); Exclusive(after) && Remembered(after)
  {
    var after := st.(sockets := CloseSocket(st.sockets, k));
    assert Unclosed(after) == Unclosed(st);
    assert Armed(after) == Armed(st);
    SameConnections(st, after);
  }

  /** Nothing but calls and their timers differs. */
  ghost predicate CallsOnly(a: State, b: State) {
    && b.sockets == a.sockets && b.inClose == a.inClose
    && b.reconnectTimer == a.reconnectTimer && b.currentDelay == a.currentDelay
    && (forall t :: t in Armed(a) ==> t in b.timers && b.timers[t] == a.timers[t])
    && (forall t :: t in Armed(b) ==> t in Armed(a))
  }

  lemma RpcKeepsTimers(st: State, id: string, sendable: bool)
    requires Ledger(st)
    ensures CallsOnly(st, OnRpc(st, id, sendable))
  {
  }

  lemma MessageKeepsTimers(st: State, frame: Frame)
    requires Ledger(st)
    ensures CallsOnly(st, OnMessage(st, frame))
  {
  }

  lemma TimeoutKeepsTimers(cfg: Config, st: State, t: nat)
    requires t in st.timers && st.timers[t].RpcTimeout?
    ensures CallsOnly(st, OnTimer(cfg, st, t))
  {
  }

  lemma CallsKeepTimers(cfg: Config, st: State, e: Event)
    requires Ledger(st) && Enabled(st, e)
    requires e.Rpc? || e.SocketMessage? || (e.TimerFired? && st.timers[e.t].RpcTimeout?)
    ensures CallsOnly(st, Step(cfg, st, e))
  {
    hide CallsOnly, Ledger, OnRpc, OnMessage, OnTimer;
    match e
    case Rpc(id, sendable) => RpcKeepsTimers(st, id, sendable);
    case SocketMessage(_, frame) => MessageKeepsTimers(st, frame);
    case TimerFired(t) => TimeoutKeepsTimers(cfg, st, t);
  }

  lemma CallsKeepExclusive(cfg: Config, st: State, e: Event)
    requires Ledger(st) && Enabled(st, e) && Exclusive(st) && Remembered(st)
    requires e.Rpc? || e.SocketMessage? || (e.TimerFired? && st.timers[e.t].RpcTimeout?)
    ensures Exclusive(Step(cfg, st, e)) && Remembered(Step(cfg, st, e))
    ensures Step(cfg, st, e).inClose == st.inClose && Armed(Step(cfg, st, e)) == Armed(st)
  {
    CallsKeepTimers(cfg, st, e);
    hide Step, Ledger, Enabled;
    var after := Step(cfg, st, e);
    assert Armed(after) == Armed(st);
    assert Unclosed(after) == Unclosed(st);
    SameConnections(st, after);
  }

  /** An event that makes connections overlap: a `connect` while a socket is unclosed, or the return of
      a close callback that left a socket unclosed, if a reconnect is armed then. */
  ghost predicate Overlaps(cfg: Config, st: State, e: Event) {
    && Enabled(st, e) && Unclosed(st) != {}
    && (e.Connect? || (e.CloseReturned? && Arms(cfg, st)))
  }

  lemma StepKeepsExclusive(cfg: Config, st: State, e: Event)
    requires Ledger(st) && Enabled(st, e) && Exclusive(st) && Remembered(st) && Calm(st)
    requires !Overlaps(cfg, st, e)
    ensures Exclusive(Step(cfg, st, e)) && Remembered(Step(cfg, st, e)) && Calm(Step(cfg, st, e))
  {
    hide OnRpc, OnMessage, OnClose, OnTimer, OnOpened, RejectAll, Ledger;
    match e
    case Connect => ConnectAlone(st);
    case Disconnect => DisconnectKeepsExclusive(st);
    case Rpc(_, _) => CallsKeepExclusive(cfg, st, e);
    case SocketOpened(k) => OpenedKeepsExclusive(cfg, st, k);
    case SocketMessage(_, _) => CallsKeepExclusive(cfg, st, e);
    case SocketClosing(k) => ClosingKeepsExclusive(st, k);
    case SocketClose(k) => CloseKeepsExclusive(st, k);
    case CloseReturned => ReturnKeepsExclusive(cfg, st);
    case TimerFired(t) =>
      if st.timers[t].Reconnect? {
        ReconnectKeepsExclusive(cfg, st, t);
      } else {
        CallsKeepExclusive(cfg, st, e);
      }
  }

  /** The owner makes no connections overlap. */
  ghost predicate Disciplined(cfg: Config, run: seq<Event>) {
    forall i :: 0 <= i < |run| ==> !Overlaps(cfg, After(cfg, run[..i]), run[i])
  }

  lemma DisciplinedFront(cfg: Config, run: seq<Event>)
    requires Disciplined(cfg, run) && run != []
    ensures Disciplined(cfg, run[..|run| - 1]) && !Overlaps(cfg, After(cfg, run[..|run| - 1]), run[|run| - 1])
  {
    var front := run[..|run| - 1];
    assert forall i :: 0 <= i < |front| ==> front[..i] == run[..i];
  }

  lemma {:induction false} DisciplineSuffices(cfg: Config, run: seq<Event>)
    requires Disciplined(cfg, run)
    ensures Exclusive(After(cfg, run)) && Remembered(After(cfg, run)) && Calm(After(cfg, run))
    decreases |run|
  {
    if run == [] {
      assert Unclosed(Init(cfg)) == {} && Armed(Init(cfg)) == {};
    } else {
      var front, e := run[..|run| - 1], run[|run| - 1];
      DisciplinedFront(cfg, run);
      DisciplineSuffices(cfg, front);
      LedgerHolds(cfg, front);
      if Enabled(After(cfg, front), e) {
        StepKeepsExclusive(cfg, After(cfg, front), e);
      }
    }
  }

  lemma OverlapShows(cfg: Config, st: State, e: Event)
    requires Overlaps(cfg, st, e)
    ensures !Exclusive(Advance(cfg, st, e))
  {
    hide Exclusive;
    if e.Connect? {
      ConnectOverlaps(st);
    } else {
      ReturnOverlaps(cfg, st);
    }
  }

  /** Connections never overlap, at any point of a run, exactly when the owner never calls `connect`
      while an earlier socket is not yet closed, and no close callback leaves a socket unclosed when a
      reconnect follows. */
  lemma ExclusiveIffDisciplined(cfg: Config, run: seq<Event>)
    ensures (forall i :: 0 <= i <= |run| ==> Exclusive(After(cfg, run[..i]))) <==> Disciplined(cfg, run)
  {
    hide After, Advance, Overlaps, Exclusive;
    if Disciplined(cfg, run) {
      forall i | 0 <= i <= |run|
        ensures Exclusive(After(cfg, run[..i]))
      {
        assert forall j :: 0 <= j < i ==> run[..i][..j] == run[..j];
        DisciplineSuffices(cfg, run[..i]);
      }
    } else {
      var i :| 0 <= i < |run| && Overlaps(cfg, After(cfg, run[..i]), run[i]);
      AfterSnoc(cfg, run[..i], run[i]);
      assert run[..i + 1] == run[..i] + [run[i]];
      OverlapShows(cfg, After(cfg, run[..i]), run[i]);
      assert !Exclusive(After(cfg, run[..i + 1]));
    }
  }

  lemma StepWithoutSockets(cfg: Config, st: State, e: Event)
    requires st.sockets == [] && Armed(st) == {} && !st.inClose && Enabled(st, e) && !e.Connect?
    ensures Step(cfg, st, e).sockets == [] && Armed(Step(cfg, st, e)) == {} && !Step(cfg, st, e).inClose
  {
    hide Settle, SettleMany, TimersOf;
    var after := Step(cfg, st, e);
    if e.TimerFired? {
      assert e.t !in Armed(st);
    }
    assert after.sockets == [];
    forall t | t in after.timers
      ensures !after.timers[t].Reconnect?
    {
      assert t !in Armed(st);
    }
  }

  lemma {:induction false} NothingBeforeConnect(cfg: Config, run: seq<Event>)
    requires forall i :: 0 <= i < |run| ==> !run[i].Connect?
    ensures After(cfg, run).sockets == [] && Armed(After(cfg, run)) == {} && !After(cfg, run).inClose
    decreases |run|
  {
    if run == [] {
    } else {
      var front, e := run[..|run| - 1], run[|run| - 1];
      NothingBeforeConnect(cfg, front);
      if Enabled(After(cfg, front), e) {
        StepWithoutSockets(cfg, After(cfg, front), e);
      }
    }
  }

  /** The close callback has left no socket unclosed. */
  ghost predicate Quiet(st: State) {
    st.inClose ==> Unclosed(st) == {}
  }

  lemma StepKeepsQuiet(cfg: Config, st: State, e: Event)
    requires Ledger(st) && Exclusive(st) && Remembered(st) && Quiet(st)
    requires Enabled(st, e) && (e.Connect? ==> !st.inClose)
    ensures Quiet(Step(cfg, st, e))
  {
    hide RejectAll, Ledger, Settle;
    match e
    case SocketClose(k) => CloseKeepsExclusive(st, k);
    case Disconnect =>
      DisconnectClosesAtMost(st);
      RejectRest(ClearReconnect(st.(intentionallyClosed := true)), Disconnected);
    case Rpc(_, _) => assert Unclosed(Step(cfg, st, e)) == Unclosed(st);
    case _ =>
  }

  lemma AdvanceQuietly(cfg: Config, st: State, e: Event)
    requires Ledger(st) && Exclusive(st) && Remembered(st) && Quiet(st)
    requires e.Connect? ==> st.sockets == [] && !st.inClose
    ensures !Overlaps(cfg, st, e) && Quiet(Advance(cfg, st, e))
  {
    if Enabled(st, e) {
      StepKeepsQuiet(cfg, st, e);
    }
    hide Ledger, Exclusive, Remembered, Step;
  }

  lemma DisciplinedSnoc(cfg: Config, run: seq<Event>)
    requires run != [] && Disciplined(cfg, run[..|run| - 1])
    requires !Overlaps(cfg, After(cfg, run[..|run| - 1]), run[|run| - 1])
    ensures Disciplined(cfg, run)
  {
    hide Overlaps, After;
    var front := run[..|run| - 1];
    assert forall i :: 0 <= i < |front| ==> front[..i] == run[..i];
  }

  lemma NothingOverlaps(cfg: Config)
    ensures Disciplined(cfg, [])
  {
  }

  lemma {:induction false} OneConnect(cfg: Config, run: seq<Event>)
    requires forall i, j :: 0 <= i < j < |run| && run[i].Connect? ==> !run[j].Connect?
    ensures Disciplined(cfg, run) && Quiet(After(cfg, run))
    decreases |run|
  {
    hide Disciplined, Overlaps, Exclusive, Remembered, Calm, Ledger, Advance;
    if run == [] {
      assert Disciplined(cfg, run) by {
        NothingOverlaps(cfg);
      }
    } else {
      var front, e := run[..|run| - 1], run[|run| - 1];
      OneConnect(cfg, front);
      DisciplineSuffices(cfg, front);
      LedgerHolds(cfg, front);
      if e.Connect? {
        NothingBeforeConnect(cfg, front);
      }
      hide Quiet;
      AdvanceQuietly(cfg, After(cfg, front), e);
      DisciplinedSnoc(cfg, run);
    }
  }

  /** As the page uses the client: it connects once. */
  lemma ConnectOnceIsDisciplined(cfg: Config, run: seq<Event>)
    requires forall i, j :: 0 <= i < j < |run| && run[i].Connect? ==> !run[j].Connect?
    ensures Disciplined(cfg, run)
    ensures Exclusive(After(cfg, run))
  {
    OneConnect(cfg, run);
    DisciplineSuffices(cfg, run);
  }

  /** Once closed on purpose with no reconnect armed, only the owner opens another socket. */
  ghost predicate AtRest(st: State) {
    st.intentionallyClosed && Armed(st) == {}
  }

  lemma RejectKeepsRest(st: State, outcome: Outcome)
    requires Ledger(st) && AtRest(st) && !outcome.Unsendable?
    ensures AtRest(RejectAll(st, outcome))
  {
    RejectKeepsArmed(st, outcome);
    RejectRest(st, outcome);
  }

  lemma StepKeepsRest(cfg: Config, st: State, e: Event)
    requires Ledger(st) && AtRest(st) && Enabled(st, e) && !e.Connect?
    ensures AtRest(Step(cfg, st, e)) && |Step(cfg, st, e).sockets| == |st.sockets|
  {
    hide RejectAll, Ledger, Settle;
    var after := Step(cfg, st, e);
    match e
    case Disconnect =>
      var st1 := st.(intentionallyClosed := true);
      SameLedger(st, st1);
      ClearKeepsLedger(st1);
      assert Armed(ClearReconnect(st1)) <= Armed(st);
      RejectKeepsRest(ClearReconnect(st1), Disconnected);
      RejectRest(ClearReconnect(st1), Disconnected);
      assert Armed(after) == Armed(RejectAll(ClearReconnect(st1), Disconnected));
    case SocketClose(k) =>
      var st0 := st.(sockets := st.sockets[k := Closed], inClose := true);
      SameLedger(st, st0);
      assert Armed(st0) == Armed(st);
      RejectKeepsRest(st0, SocketClosed);
      RejectRest(st0, SocketClosed);
    case TimerFired(t) =>
      assert t !in Armed(st) && Armed(after) <= Armed(st);
    case Rpc(_, _) => assert Armed(after) <= Armed(st);
    case SocketOpened(_) => assert Armed(after) <= Armed(st);
    case SocketMessage(_, _) => assert Armed(after) <= Armed(st);
    case SocketClosing(_) => assert Armed(after) <= Armed(st);
    case CloseReturned => assert Armed(after) <= Armed(st);
    case Connect =>
  }

  lemma {:induction false} RestLasts(cfg: Config, run: seq<Event>, later: seq<Event>)
    requires AtRest(After(cfg, run))
    requires forall e :: e in later ==> !e.Connect?
    ensures var st := After(cfg, run + later); AtRest(st) && |st.sockets| == |After(cfg, run).sockets|
    decreases |later|
  {
    if later == [] {
      assert run + later == run;
    } else {
      var front, e := later[..|later| - 1], later[|later| - 1];
      RestLasts(cfg, run, front);
      assert run + later == run + front + [e];
      AfterSnoc(cfg, run + front, e);
      LedgerHolds(cfg, run + front);
      if Enabled(After(cfg, run + front), e) {
        StepKeepsRest(cfg, After(cfg, run + front), e);
      }
    }
  }

  /** No event after `disconnect`, other than a `connect`, opens a socket. */
  ghost predicate StaysClosed(cfg: Config, run: seq<Event>) {
    forall later: seq<Event> :: (forall e :: e in later ==> !e.Connect?) ==>
                      |After(cfg, run + [Disconnect] + later).sockets| == |After(cfg, run).sockets|
  }

  lemma AfterDisconnect(cfg: Config, run: seq<Event>)
    ensures var st := After(cfg, run + [Disconnect]);
            && |st.sockets| == |After(cfg, run).sockets| && st.intentionallyClosed
            && Armed(st) == (set t | t in Armed(After(cfg, run)) && After(cfg, run).reconnectTimer != Some(t))
            && (AtRest(st) <==> Tracked(After(cfg, run)))
  {
    AfterSnoc(cfg, run, Disconnect);
    LedgerHolds(cfg, run);
    hide OnDisconnect;
    DisconnectDisarms(After(cfg, run));
    DisconnectClosesAtMost(After(cfg, run));
  }

  /** A forgotten timer fires, after the close callback has returned if one was running. */
  lemma ForgottenFires(cfg: Config, run: seq<Event>, t: nat) returns (later: seq<Event>)
    requires t in Armed(After(cfg, run)) && After(cfg, run).intentionallyClosed
    ensures |After(cfg, run + later).sockets| == |After(cfg, run).sockets| + 1
    ensures forall e :: e in later ==> !e.Connect?
  {
    later := if After(cfg, run).inClose then [CloseReturned] else [];
    if After(cfg, run).inClose {
      AfterSnoc(cfg, run, CloseReturned);
    } else {
      assert run + later == run;
    }
    AfterSnoc(cfg, run + later, TimerFired(t));
    assert run + (later + [TimerFired(t)]) == run + later + [TimerFired(t)];
    hide After, RejectAll;
    later := later + [TimerFired(t)];
  }

  /** A disconnect is final, late close events included, exactly when every reconnect timer armed at
      that moment is the one the client remembers: it stops that one and no other. */
  lemma DisconnectFinalIff(cfg: Config, run: seq<Event>)
    ensures StaysClosed(cfg, run) <==> Tracked(After(cfg, run))
  {
    hide Advance, After;
    AfterDisconnect(cfg, run);
    var start := run + [Disconnect];
    if Tracked(After(cfg, run)) {
      forall later: seq<Event> | forall e :: e in later ==> !e.Connect?
        ensures |After(cfg, start + later).sockets| == |After(cfg, run).sockets|
      {
        RestLasts(cfg, start, later);
      }
    } else {
      var t :| t in Armed(After(cfg, run)) && After(cfg, run).reconnectTimer != Some(t);
      var later := ForgottenFires(cfg, start, t);
      assert !StaysClosed(cfg, run);
    }
  }

  /** For an owner who connects only when all earlier sockets are closed, a disconnect is final. */
  lemma NoSocketAfterDisconnect(cfg: Config, run: seq<Event>)
    requires Disciplined(cfg, run)
    ensures StaysClosed(cfg, run)
  {
    DisciplineSuffices(cfg, run);
    DisconnectFinalIff(cfg, run);
  }

  /** Two overlapping sockets that close one after the other. */
  const OVERLAP := [Connect, Connect, SocketClose(0), CloseReturned, SocketClose(1), CloseReturned]

  lemma Overlapping(cfg: Config)
    ensures After(cfg, [Connect, Connect]) == Init(cfg).(sockets := [Connecting, Connecting], ws := Some(1))
  {
    AfterSnoc(cfg, [], Connect);
    AfterSnoc(cfg, [Connect], Connect);
    assert [] + [Connect] == [Connect] && [Connect] + [Connect] == [Connect, Connect];
  }

  /** A close with nothing pending, and a callback that does nothing. */
  lemma QuietCloseSteps(cfg: Config, st: State, k: nat)
    requires cfg.autoReconnect && !st.intentionallyClosed && !st.inClose && st.pending == map[]
    requires k < |st.sockets| && st.sockets[k] != Closed
    ensures var after := Advance(cfg, Advance(cfg, st, SocketClose(k)), CloseReturned);
            && after.sockets == st.sockets[k := Closed] && after.pending == map[]
            && after.timers == st.timers[st.nextTimer := Reconnect(st.currentDelay)]
            && after.nextTimer == st.nextTimer + 1 && after.reconnectTimer == Some(st.nextTimer)
            && !after.intentionallyClosed && !after.inClose
  {
    var st0 := st.(sockets := st.sockets[k := Closed], inClose := true);
    assert st.timers - TimersOf(st.pending, st.pending.Keys) == st.timers;
    assert Advance(cfg, st, SocketClose(k)) == RejectAll(st0, SocketClosed);
  }

  lemma QuietClose(cfg: Config, run: seq<Event>, k: nat)
    ensures After(cfg, run + [SocketClose(k), CloseReturned]) ==
              Advance(cfg, Advance(cfg, After(cfg, run), SocketClose(k)), CloseReturned)
  {
    AfterSnoc(cfg, run, SocketClose(k));
    AfterSnoc(cfg, run + [SocketClose(k)], CloseReturned);
    assert run + [SocketClose(k), CloseReturned] == run + [SocketClose(k)] + [CloseReturned];
  }

  /** Each close arms a timer, the client remembers the second only, and the first outlives a
      disconnect. */
  lemma ForgottenTimerReconnects(cfg: Config)
    requires cfg.autoReconnect
    ensures Armed(After(cfg, OVERLAP)) == {0, 1} && After(cfg, OVERLAP).reconnectTimer == Some(1)
    ensures !StaysClosed(cfg, OVERLAP)
  {
    hide After, Advance, StaysClosed;
    Overlapping(cfg);
    var twoOpen := [Connect, Connect];
    var oneClosed := twoOpen + [SocketClose(0), CloseReturned];
    QuietClose(cfg, twoOpen, 0);
    QuietCloseSteps(cfg, After(cfg, twoOpen), 0);
    QuietClose(cfg, oneClosed, 1);
    QuietCloseSteps(cfg, After(cfg, oneClosed), 1);
    assert OVERLAP == oneClosed + [SocketClose(1), CloseReturned];
    assert After(cfg, OVERLAP).timers.Keys == {0, 1};
    assert Armed(After(cfg, OVERLAP)) == {0, 1};
    DisconnectFinalIff(cfg, OVERLAP);
  }

  // ---------------------------------------------------------------- what the client holds

  /** The sockets that may still carry frames. */
  ghost function Talking(st: State): set<nat> {
    set k | 0 <= k < |st.sockets| && (st.sockets[k] == Connecting || st.sockets[k] == Open)
  }

  /** The client holds every such socket. */
  ghost predicate Held(st: State) {
    forall k :: k in Talking(st) ==> st.ws == Some(k)
  }

  lemma DisconnectSockets(st: State)
    ensures OnDisconnect(st).ws == None
    ensures Talking(OnDisconnect(st)) == set k | k in Talking(st) && st.ws != Some(k)
  {
    hide RejectAll;
    RejectRest(ClearReconnect(st.(intentionallyClosed := true)), Disconnected);
  }

  /** A disconnect closes all sockets, so that no frame arrives any more, exactly when the client holds
      them all; it then holds none. */
  lemma DisconnectClosesIff(cfg: Config, run: seq<Event>)
    ensures Talking(After(cfg, run + [Disconnect])) == {} <==>
              forall k :: k in Talking(After(cfg, run)) ==> After(cfg, run).ws == Some(k)
    ensures After(cfg, run + [Disconnect]).ws == None
  {
    AfterSnoc(cfg, run, Disconnect);
    hide After, OnDisconnect, Talking;
    var st := After(cfg, run);
    DisconnectSockets(st);
    if k :| k in Talking(st) && st.ws != Some(k) {
      assert k in Talking(OnDisconnect(st));
    }
  }

  lemma RejectKeepsSockets(st: State, k: nat)
    requires k < |st.sockets|
    ensures OnClose(st, k).sockets == st.sockets[k := Closed] && OnClose(st, k).ws == st.ws
  {
    hide RejectAll;
    RejectRest(st.(sockets := st.sockets[k := Closed], inClose := true), SocketClosed);
  }

  lemma ConnectHeld(st: State)
    requires Unclosed(st) == {}
    ensures Held(OnConnect(st))
  {
    forall k | k in Talking(OnConnect(st)) && k < |st.sockets|
      ensures k in Unclosed(st)
    {
    }
  }

  lemma ArmedAlone(st: State, t: nat)
    requires Exclusive(st) && t in st.timers && st.timers[t].Reconnect?
    ensures Unclosed(st) == {}
  {
    SubsetSize({t}, Armed(st));
    NothingIn(Unclosed(st));
  }

  lemma StepKeepsHeld(cfg: Config, st: State, e: Event)
    requires Exclusive(st) && Held(st) && Enabled(st, e) && !Overlaps(cfg, st, e)
    ensures Held(Step(cfg, st, e))
  {
    hide RejectAll, Settle, Exclusive;
    match e
    case Connect => ConnectHeld(st);
    case Disconnect => DisconnectSockets(st);
    case Rpc(_, _) =>
    case SocketOpened(k) => assert k in Talking(st);
    case SocketMessage(_, _) =>
    case SocketClosing(_) =>
    case SocketClose(k) => RejectKeepsSockets(st, k);
    case CloseReturned =>
    case TimerFired(t) =>
      if st.timers[t].Reconnect? {
        ArmedAlone(st, t);
        var fired := st.(timers := st.timers - {t}, currentDelay := Backoff.Doubled(st.currentDelay, cfg.cap));
        assert Unclosed(fired) == Unclosed(st);
        ConnectHeld(fired);
      }
  }

  /** Under the discipline the client always holds the socket that may carry frames. */
  lemma {:induction false} DisciplineHolds(cfg: Config, run: seq<Event>)
    requires Disciplined(cfg, run)
    ensures Held(After(cfg, run))
    decreases |run|
  {
    if run == [] {
    } else {
      var front, e := run[..|run| - 1], run[|run| - 1];
      DisciplinedFront(cfg, run);
      DisciplineHolds(cfg, front);
      DisciplineSuffices(cfg, front);
      hide Exclusive, Remembered, Calm, Held, Disciplined;
      if Enabled(After(cfg, front), e) {
        StepKeepsHeld(cfg, After(cfg, front), e);
      }
    }
  }

  /** So a disconnect closes it. */
  lemma DisciplinedDisconnect(cfg: Config, run: seq<Event>)
    requires Disciplined(cfg, run)
    ensures Talking(After(cfg, run + [Disconnect])) == {} && StaysClosed(cfg, run)
  {
    DisciplineHolds(cfg, run);
    DisconnectClosesIff(cfg, run);
    NoSocketAfterDisconnect(cfg, run);
  }

  /** A call that can be sent waits exactly when the socket the client holds is open, which under the
      discipline is when any socket is; otherwise it is rejected as not connected. */
  lemma CallWaitsIff(cfg: Config, run: seq<Event>, id: string)
    requires Enabled(After(cfg, run), Rpc(id, true))
    ensures var st, after := After(cfg, run), After(cfg, run + [Rpc(id, true)]);
            && (id in after.pending <==> st.ws.Some? && st.ws.value < |st.sockets| && st.sockets[st.ws.value] == Open)
            && (id !in after.pending ==> Seen(after, id) == Some(NotConnected))
            && (Disciplined(cfg, run) ==>
                  (id in after.pending <==> exists k :: 0 <= k < |st.sockets| && st.sockets[k] == Open))
  {
    AfterSnoc(cfg, run, Rpc(id, true));
    if Disciplined(cfg, run) {
      DisciplineHolds(cfg, run);
    }
    hide After, Disciplined;
    var st := After(cfg, run);
    if k :| 0 <= k < |st.sockets| && st.sockets[k] == Open {
      assert k in Talking(st);
    }
  }

  // ---------------------------------------------------------------- backoff

  /** What in a run has a bearing on the delay. */
  ghost function Signals(cfg: Config, run: seq<Event>): seq<Backoff.Signal> {
    if run == [] then []
    else
      var front, e := run[..|run| - 1], run[|run| - 1];
      Signals(cfg, front)
      + (if !Enabled(After(cfg, front), e) then []
         else if e.SocketOpened? then [Backoff.Opened]
         else if e.TimerFired? && After(cfg, front).timers[e.t].Reconnect? then [Backoff.TimerFired] else [])
  }

  /** The owner has called `disconnect`, and nothing has connected since. */
  ghost predicate ClosedOnPurpose(cfg: Config, run: seq<Event>) {
    run != [] &&
    var front, e := run[..|run| - 1], run[|run| - 1];
    if e.Disconnect? then true
    else if e.Connect? then false
    else if e.TimerFired? && Enabled(After(cfg, front), e) && After(cfg, front).timers[e.t].Reconnect? then false
    else ClosedOnPurpose(cfg, front)
  }

  /** Only an open and a reconnect timer change the delay, and only connecting and disconnecting change
      whether the client is closed on purpose. */
  lemma StepSettings(cfg: Config, st: State, e: Event)
    requires Enabled(st, e)
    ensures var after := Step(cfg, st, e);
            var fired := e.TimerFired? && st.timers[e.t].Reconnect?;
            && after.currentDelay == (if e.SocketOpened? then cfg.base
                                      else if fired then Backoff.Doubled(st.currentDelay, cfg.cap)
                                      else st.currentDelay)
            && (after.intentionallyClosed <==> e.Disconnect? || (!e.Connect? && !fired && st.intentionallyClosed))
  {
    hide Backoff.Doubled, RejectAll;
    match e
    case Disconnect => RejectRest(ClearReconnect(st.(intentionallyClosed := true)), Disconnected);
    case SocketClose(k) => RejectRest(st.(sockets := st.sockets[k := Closed], inClose := true), SocketClosed);
    case _ =>
  }

  lemma {:induction false} ClosedIff(cfg: Config, run: seq<Event>)
    ensures After(cfg, run).intentionallyClosed <==> ClosedOnPurpose(cfg, run)
    decreases |run|
  {
    if run == [] {
    } else {
      var front, e := run[..|run| - 1], run[|run| - 1];
      ClosedIff(cfg, front);
      if Enabled(After(cfg, front), e) {
        StepSettings(cfg, After(cfg, front), e);
      }
      hide Step;
    }
  }

  lemma {:induction false} DelayIsRun(cfg: Config, run: seq<Event>)
    ensures After(cfg, run).currentDelay == Backoff.Run(cfg.base, cfg.cap, Signals(cfg, run))
    decreases |run|
  {
    if run == [] {
    } else {
      hide Step;
      var front, e := run[..|run| - 1], run[|run| - 1];
      DelayIsRun(cfg, front);
      if Enabled(After(cfg, front), e) {
        StepSettings(cfg, After(cfg, front), e);
      }
      var before := Signals(cfg, front);
      assert before + [] == before;
      assert (before + [Backoff.Opened])[..|before|] == before;
      assert (before + [Backoff.TimerFired])[..|before|] == before;
    }
  }

  /** After k timer fires since the last successful open the delay is the base, doubled k times and
      capped: in every run, disciplined or not. */
  lemma DelayClosedForm(cfg: Config, run: seq<Event>)
    ensures After(cfg, run).currentDelay == Backoff.After(cfg.base, cfg.cap, Backoff.Failures(Signals(cfg, run)))
    ensures cfg.base <= cfg.cap ==> cfg.base <= After(cfg, run).currentDelay <= cfg.cap
  {
    DelayIsRun(cfg, run);
    Backoff.ClosedForm(cfg.base, cfg.cap, Signals(cfg, run));
    if cfg.base <= cfg.cap {
      Backoff.DelayInRange(cfg.base, cfg.cap, Backoff.Failures(Signals(cfg, run)));
    }
  }

  /** When a close callback returns, exactly one more timer is armed, with that delay, and it is the one
      remembered; and none when the client was closed on purpose or told not to reconnect. */
  lemma ReturnArmsTimer(cfg: Config, run: seq<Event>)
    requires Enabled(After(cfg, run), CloseReturned)
    ensures var st, after := After(cfg, run), After(cfg, run + [CloseReturned]);
            var delay := Backoff.After(cfg.base, cfg.cap, Backoff.Failures(Signals(cfg, run)));
            if ClosedOnPurpose(cfg, run) || !cfg.autoReconnect then after.timers == st.timers
            else exists t: nat ::
                   && t !in st.timers && after.timers == st.timers[t := Reconnect(delay)]
                   && after.reconnectTimer == Some(t)
  {
    AfterSnoc(cfg, run, CloseReturned);
    ClosedIff(cfg, run);
    DelayClosedForm(cfg, run);
    LedgerHolds(cfg, run);
    var st := After(cfg, run);
    assert st.nextTimer !in st.timers;
    hide After, Signals, ClosedOnPurpose, Ledger;
  }

  /** A reconnect timer that fires opens exactly one more socket, which the client holds. */
  lemma TimerConnects(cfg: Config, run: seq<Event>, t: nat)
    requires t in Armed(After(cfg, run)) && !After(cfg, run).inClose
    ensures var st, after := After(cfg, run), After(cfg, run + [TimerFired(t)]);
            && after.sockets == st.sockets + [Connecting] && after.ws == Some(|st.sockets|)
            && !after.intentionallyClosed && t !in after.timers
  {
    AfterSnoc(cfg, run, TimerFired(t));
    hide After;
  }
}

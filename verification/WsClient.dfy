/** The WebSocket RPC client.  `State` is everything the client and its environment hold: the sockets
    it opened, its fields, the live timers, and the record of what was settled and handed on.  The
    class runs the client's methods and handlers; each is one step of the state machine. */
module WsClient {
  import opened Text
  import Backoff

  datatype ReadyState = Connecting | Open | Closing | Closed
  datatype Purpose = RpcTimeout(id: string) | Reconnect(delay: nat)

  /** A received frame: not JSON, the JSON value null, which has no fields to read, or a message with the
      fields the client reads.  A missing or empty `id` or `error` is the empty string. */
  datatype Frame = NotJson | Null | Message(isRpcResponse: bool, id: string, error: string, result: string)

  /** An attempt to settle a call's promise, of which the first counts: `Resolved` resolves it, all others
      reject it.  `Unsendable`: serialising the call's message threw. */
  datatype Outcome =
    | Resolved(frame: Frame)
    | Failed(frame: Frame)
    | TimedOut
    | SocketClosed
    | Disconnected
    | NotConnected
    | Unsendable
  {
    predicate Answered() {
      Resolved? || Failed?
    }
  }

  datatype Config = Config(base: nat, cap: nat, autoReconnect: bool)

  datatype State = State(
    sockets: seq<ReadyState>,
    ws: Option<nat>,
    currentDelay: nat,
    reconnectTimer: Option<nat>,
    intentionallyClosed: bool,
    inClose: bool,
    pending: map<string, nat>,
    timers: map<nat, Purpose>,
    nextTimer: nat,
    settled: map<string, seq<Outcome>>,
    parsed: seq<Frame>,
    handled: seq<Frame>)

  function Init(cfg: Config): State {
    State([], None, cfg.base, None, false, false, map[], map[], 0, map[], [], [])
  }

  // ---------------------------------------------------------------- the parts of a step

  function Settle(settled: map<string, seq<Outcome>>, id: string, outcome: Outcome): map<string, seq<Outcome>> {
    settled[id := (if id in settled then settled[id] else []) + [outcome]]
  }

  function ClearReconnect(st: State): State {
    match st.reconnectTimer
    case None => st
    case Some(t) => st.(timers := st.timers - {t}, reconnectTimer := None)
  }

  function ScheduleReconnect(cfg: Config, st: State): State {
    if st.intentionallyClosed || !cfg.autoReconnect then st
    else
      st.(timers := st.timers[st.nextTimer := Reconnect(st.currentDelay)],
          reconnectTimer := Some(st.nextTimer),
          nextTimer := st.nextTimer + 1)
  }

  function SettleMany(settled: map<string, seq<Outcome>>, ids: set<string>, outcome: Outcome)
    : map<string, seq<Outcome>>
  {
    map id | id in settled.Keys + ids :: if id in ids then Settle(settled, id, outcome)[id] else settled[id]
  }

  function TimersOf(pending: map<string, nat>, ids: set<string>): set<nat> {
    set id | id in ids && id in pending :: pending[id]
  }

  /** Reject every pending call, clearing its timer, and forget it. */
  function RejectAll(st: State, outcome: Outcome): State {
    st.(settled := SettleMany(st.settled, st.pending.Keys, outcome),
        timers := st.timers - TimersOf(st.pending, st.pending.Keys),
        pending := map[])
  }

  lemma SettleOneMore(settled: map<string, seq<Outcome>>, ids: set<string>, id: string, outcome: Outcome)
    requires id !in ids
    ensures Settle(SettleMany(settled, ids, outcome), id, outcome) == SettleMany(settled, ids + {id}, outcome)
    ensures SettleMany(settled, {}, outcome) == settled
  {
  }

  lemma ClearOneMore(timers: map<nat, Purpose>, pending: map<string, nat>, ids: set<string>, id: string)
    requires id in pending
    ensures timers - TimersOf(pending, ids) - {pending[id]} == timers - TimersOf(pending, ids + {id})
    ensures timers - TimersOf(pending, {}) == timers
  {
    assert TimersOf(pending, ids + {id}) == TimersOf(pending, ids) + {pending[id]};
  }

  // ---------------------------------------------------------------- the steps

  datatype Event =
    | Connect
    | Disconnect
    | Rpc(id: string, sendable: bool)
    | SocketOpened(k: nat)
    | SocketMessage(k: nat, frame: Frame)
    | SocketClosing(k: nat)
    | SocketClose(k: nat)
    | CloseReturned
    | TimerFired(t: nat)

  /** What the owner may call at any time, also from inside the close callback. */
  predicate ByOwner(e: Event) {
    e.Connect? || e.Disconnect? || e.Rpc?
  }

  /** What the environment can do: sockets go through their life cycle (the closing handshake has no
      handler; it only shows in the ready state), messages arrive on open sockets, live timers fire, and
      call ids are fresh.  While the close callback runs, only the owner acts, until it returns. */
  ghost predicate Enabled(st: State, e: Event) {
    (ByOwner(e) || st.inClose == e.CloseReturned?) &&
    match e
    case Connect => true
    case Disconnect => true
    case CloseReturned => true
    case Rpc(id, _) => id != "" && id !in st.pending && id !in st.settled
    case SocketOpened(k) => k < |st.sockets| && st.sockets[k] == Connecting
    case SocketMessage(k, _) => k < |st.sockets| && st.sockets[k] == Open
    case SocketClosing(k) => k < |st.sockets| && (st.sockets[k] == Connecting || st.sockets[k] == Open)
    case SocketClose(k) => k < |st.sockets| && st.sockets[k] != Closed
    case TimerFired(t) => t in st.timers
  }

  function OnConnect(st: State): State {
    var st1 := ClearReconnect(st.(intentionallyClosed := false));
    st1.(sockets := st1.sockets + [Connecting], ws := Some(|st1.sockets|))
  }

  /** `close()` on a socket: no effect once it is closing. */
  function CloseSocket(sockets: seq<ReadyState>, k: nat): seq<ReadyState> {
    if k < |sockets| && (sockets[k] == Connecting || sockets[k] == Open) then sockets[k := Closing] else sockets
  }

  function OnDisconnect(st: State): State {
    var st1 := RejectAll(ClearReconnect(st.(intentionallyClosed := true)), Disconnected);
    match st1.ws
    case None => st1
    case Some(k) => st1.(sockets := CloseSocket(st1.sockets, k), ws := None)
  }

  predicate IsOpen(st: State) {
    match st.ws
    case None => false
    case Some(k) => k < |st.sockets| && st.sockets[k] == Open
  }

  /** A call whose message cannot be serialised is rejected after it was entered in the table. */
  function OnRpc(st: State, id: string, sendable: bool): State {
    if !IsOpen(st) then st.(settled := Settle(st.settled, id, NotConnected))
    else
      st.(timers := st.timers[st.nextTimer := RpcTimeout(id)],
          pending := st.pending[id := st.nextTimer],
          nextTimer := st.nextTimer + 1,
          settled := if sendable then st.settled else Settle(st.settled, id, Unsendable))
  }

  function OnOpened(cfg: Config, st: State, k: nat): State
    requires k < |st.sockets|
  {
    st.(sockets := st.sockets[k := Open], currentDelay := cfg.base)
  }

  function OnMessage(st: State, frame: Frame): State {
    if frame.NotJson? then st
    else if frame.Null? then st.(parsed := st.parsed + [frame])
    else if frame.isRpcResponse && frame.id != "" && frame.id in st.pending then
      st.(parsed := st.parsed + [frame],
          pending := st.pending - {frame.id},
          timers := st.timers - {st.pending[frame.id]},
          settled := Settle(st.settled, frame.id, if frame.error != "" then Failed(frame) else Resolved(frame)))
    else
      st.(parsed := st.parsed + [frame], handled := st.handled + [frame])
  }

  /** The close handler up to its callback. */
  function OnClose(st: State, k: nat): State
    requires k < |st.sockets|
  {
    RejectAll(st.(sockets := st.sockets[k := Closed], inClose := true), SocketClosed)
  }

  /** The rest of the close handler. */
  function OnCloseReturned(cfg: Config, st: State): State {
    ScheduleReconnect(cfg, st.(inClose := false))
  }

  function OnTimer(cfg: Config, st: State, t: nat): State
    requires t in st.timers
  {
    var fired := st.(timers := st.timers - {t});
    match st.timers[t]
    case RpcTimeout(id) =>
      fired.(pending := st.pending - {id}, settled := Settle(st.settled, id, TimedOut))
    case Reconnect(_) =>
      OnConnect(fired.(currentDelay := Backoff.Doubled(st.currentDelay, cfg.cap)))
  }

  function OwnerStep(st: State, e: Event): State
    requires ByOwner(e)
  {
    match e
    case Connect => OnConnect(st)
    case Disconnect => OnDisconnect(st)
    case Rpc(id, sendable) => OnRpc(st, id, sendable)
  }

  function OwnerSteps(st: State, calls: seq<Event>): State
    requires forall i :: 0 <= i < |calls| ==> ByOwner(calls[i])
  {
    if calls == [] then st else OwnerStep(OwnerSteps(st, calls[..|calls| - 1]), calls[|calls| - 1])
  }

  function Step(cfg: Config, st: State, e: Event): State
    requires Enabled(st, e)
  {
    match e
    case Connect => OnConnect(st)
    case Disconnect => OnDisconnect(st)
    case Rpc(id, sendable) => OnRpc(st, id, sendable)
    case SocketOpened(k) => OnOpened(cfg, st, k)
    case SocketMessage(_, frame) => OnMessage(st, frame)
    case SocketClosing(k) => st.(sockets := CloseSocket(st.sockets, k))
    case SocketClose(k) => OnClose(st, k)
    case CloseReturned => OnCloseReturned(cfg, st)
    case TimerFired(t) => OnTimer(cfg, st, t)
  }

  // ---------------------------------------------------------------- the client

  class WebSocketClient {
    const cfg: Config
    var ws: Option<nat>
    var currentDelay: nat
    var reconnectTimer: Option<nat>
    var intentionallyClosed: bool
    var pendingRpcs: map<string, nat>
    // The environment's side: whether the close handler runs, sockets by age, live timers, and what
    // callbacks were invoked with.
    var inClose: bool
    var sockets: seq<ReadyState>
    var timers: map<nat, Purpose>
    var nextTimer: nat
    var settled: map<string, seq<Outcome>>
    var parsed: seq<Frame>
    var handled: seq<Frame>

    ghost function View(): State
      reads this
    {
      State(sockets, ws, currentDelay, reconnectTimer, intentionallyClosed, inClose, pendingRpcs, timers, nextTimer,
            settled, parsed, handled)
    }

    constructor (cfg: Config)
      ensures this.cfg == cfg && View() == Init(cfg)
    {
      this.cfg := cfg;
      ws, currentDelay, reconnectTimer, intentionallyClosed := None, cfg.base, None, false;
      pendingRpcs, sockets, timers, nextTimer := map[], [], map[], 0;
      inClose, settled, parsed, handled := false, map[], [], [];
    }

    method SetTimeout(purpose: Purpose) returns (t: nat)
      modifies `timers, `nextTimer
      ensures t == old(nextTimer) && nextTimer == t + 1 && timers == old(timers)[t := purpose]
    {
      t := nextTimer;
      timers := timers[t := purpose];
      nextTimer := nextTimer + 1;
    }

    method ClearTimeout(t: nat)
      modifies `timers
      ensures timers == old(timers) - {t}
    {
      timers := timers - {t};
    }

    method SettleCall(id: string, outcome: Outcome)
      modifies `settled
      ensures settled == Settle(old(settled), id, outcome)
    {
      settled := settled[id := (if id in settled then settled[id] else []) + [outcome]];
    }

    method ClearReconnectTimer()
      modifies `timers, `reconnectTimer
      ensures View() == ClearReconnect(old(View()))
    {
      if reconnectTimer.Some? {
        ClearTimeout(reconnectTimer.value);
        reconnectTimer := None;
      }
    }

    method ScheduleReconnectTimer()
      modifies `timers, `nextTimer, `reconnectTimer
      ensures View() == ScheduleReconnect(cfg, old(View()))
    {
      if intentionallyClosed || !cfg.autoReconnect {
        return;
      }
      var t := SetTimeout(Reconnect(currentDelay));
      reconnectTimer := Some(t);
    }

    /** `connect`. */
    method Open()
      modifies this
      ensures View() == OnConnect(old(View()))
    {
      intentionallyClosed := false;
      ClearReconnectTimer();
      ws := Some(|sockets|);
      sockets := sockets + [Connecting];
    }

    method HandleOpen(k: nat)
      requires k < |sockets|
      modifies this
      ensures View() == OnOpened(cfg, old(View()), k)
    {
      sockets := sockets[k := ReadyState.Open];
      currentDelay := cfg.base;
    }

    method HandleMessage(frame: Frame)
      modifies this
      ensures View() == OnMessage(old(View()), frame)
    {
      if frame.NotJson? {
        return;
      }
      parsed := parsed + [frame];
      if frame.Null? {
        // Reading a field throws, and the handler ignores what is thrown.
        return;
      }
      if frame.isRpcResponse && frame.id != "" {
        if frame.id in pendingRpcs {
          var timer := pendingRpcs[frame.id];
          pendingRpcs := pendingRpcs - {frame.id};
          ClearTimeout(timer);
          if frame.error != "" {
            SettleCall(frame.id, Failed(frame));
          } else {
            SettleCall(frame.id, Resolved(frame));
          }
          return;
        }
      }
      handled := handled + [frame];
    }

    /** The loop over the pending table, in any order, and the clearing of the table. */
    method RejectPending(outcome: Outcome)
      modifies `settled, `timers, `pendingRpcs
      ensures View() == RejectAll(old(View()), outcome)
    {
      ghost var done: set<string> := {};
      var todo := pendingRpcs.Keys;
      assert settled == SettleMany(settled, {}, outcome);
      assert timers == timers - TimersOf(pendingRpcs, {});
      hide SettleMany, TimersOf, Settle;
      while todo != {}
        invariant todo !! done && todo + done == pendingRpcs.Keys && pendingRpcs == old(pendingRpcs)
        invariant settled == SettleMany(old(settled), done, outcome)
        invariant timers == old(timers) - TimersOf(pendingRpcs, done)
        decreases todo
      {
        var id :| id in todo;
        SettleOneMore(old(settled), done, id, outcome);
        ClearOneMore(old(timers), pendingRpcs, done, id);
        ClearTimeout(pendingRpcs[id]);
        SettleCall(id, outcome);
        todo, done := todo - {id}, done + {id};
      }
      assert done == pendingRpcs.Keys;
      pendingRpcs := map[];
    }

    /** `rpc`, for the call that `id` names. */
    method Call(id: string, sendable: bool)
      modifies this
      ensures View() == OnRpc(old(View()), id, sendable)
    {
      if ws.None? || ws.value >= |sockets| || sockets[ws.value] != ReadyState.Open {
        SettleCall(id, NotConnected);
        return;
      }
      var timer := SetTimeout(RpcTimeout(id));
      pendingRpcs := pendingRpcs[id := timer];
      if !sendable {
        // The promise's executor throws.
        SettleCall(id, Unsendable);
      }
    }

    /** `disconnect`. */
    method Close()
      modifies this
      ensures View() == OnDisconnect(old(View()))
    {
      intentionallyClosed := true;
      ClearReconnectTimer();
      RejectPending(Disconnected);
      if ws.Some? {
        sockets := CloseSocket(sockets, ws.value);
        ws := None;
      }
    }

    /** The close handler; `calls` is what its callback calls on the client. */
    method HandleClose(k: nat, calls: seq<Event>)
      requires k < |sockets| && forall i :: 0 <= i < |calls| ==> ByOwner(calls[i])
      modifies this
      ensures View() == OnCloseReturned(cfg, OwnerSteps(OnClose(old(View()), k), calls))
    {
      hide OnConnect, OnDisconnect, OnRpc, RejectAll, ScheduleReconnect;
      sockets := sockets[k := Closed];
      inClose := true;
      RejectPending(SocketClosed);
      for i := 0 to |calls|
        invariant View() == OwnerSteps(OnClose(old(View()), k), calls[..i])
      {
        assert calls[..i + 1][..i] == calls[..i];
        match calls[i] {
          case Connect => Open();
          case Disconnect => Close();
          case Rpc(id, sendable) => Call(id, sendable);
        }
      }
      assert calls[..|calls|] == calls;
      inClose := false;
      ScheduleReconnectTimer();
    }

    method HandleTimer(t: nat)
      requires t in timers
      modifies this
      ensures View() == OnTimer(cfg, old(View()), t)
    {
      var purpose := timers[t];
      timers := timers - {t};
      match purpose
      case RpcTimeout(id) =>
        pendingRpcs := pendingRpcs - {id};
        SettleCall(id, TimedOut);
      case Reconnect(_) =>
        currentDelay := Backoff.Min(currentDelay * 2, cfg.cap);
        Open();
    }
  }
}

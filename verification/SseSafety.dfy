/** What holds in every run of the server-sent-events client: attempts to connect never overlap under the
    right discipline, what outlives a disconnect, and the delay in closed form.  A run is any sequence of
    calls and happenings; one that is not enabled when its turn comes does nothing. */
module SseSafety {
  import opened Text
  import opened Sse
  import Backoff

  datatype Happening =
    | Connect
    | Disconnect
    | Response(k: nat)
    | Ended(k: nat)
    | Fired(t: nat)

  /** The owner calls at any time; an attempt that goes on may get its response, or end other than by being
      aborted; a live timer may fire. */
  predicate Enabled(c: Client, h: Happening) {
    match h
    case Connect => true
    case Disconnect => true
    case Response(k) => k < |c.attempts| && c.attempts[k]
    case Ended(k) => k < |c.attempts| && c.attempts[k]
    case Fired(t) => t in c.timers
  }

  function Next(cfg: Config, c: Client, h: Happening): Client {
    if !Enabled(c, h) then c
    else
      match h
      case Connect => OnConnect(c)
      case Disconnect => OnDisconnect(c)
      case Response(_) => OnResponse(cfg, c)
      case Ended(k) => OnEnded(cfg, c, k)
      case Fired(t) => OnTimer(cfg, c, t)
  }

  function After(cfg: Config, run: seq<Happening>): Client {
    if run == [] then Init(cfg) else Next(cfg, After(cfg, run[..|run| - 1]), run[|run| - 1])
  }

  lemma AfterSnoc(cfg: Config, run: seq<Happening>, h: Happening)
    ensures After(cfg, run + [h]) == Next(cfg, After(cfg, run), h)
  {
    assert (run + [h])[..|run|] == run;
  }

  // ---------------------------------------------------------------- attempts and timers

  ghost function Live(c: Client): set<nat> {
    set k | 0 <= k < |c.attempts| && c.attempts[k]
  }

  ghost predicate Sound(c: Client) {
    && (forall t :: t in c.timers ==> t < c.nextTimer)
    && (c.reconnectTimer.Some? ==> c.reconnectTimer.value < c.nextTimer)
    && (c.controller.Some? ==> c.controller.value < |c.attempts|)
  }

  /** At most one attempt goes on or one timer is live, never both. */
  ghost predicate Exclusive(c: Client) {
    |Live(c)| + |c.timers| <= 1
  }

  /** Every live timer is the one the client remembers. */
  ghost predicate Tracked(c: Client) {
    forall t :: t in c.timers ==> c.reconnectTimer == Some(t)
  }

  /** Every live timer was armed with the current delay. */
  ghost predicate Fresh(c: Client) {
    forall t :: t in c.timers ==> c.timers[t] == c.currentDelay
  }

  /** Every attempt that goes on is the one whose controller the client holds. */
  ghost predicate Held(c: Client) {
    forall k :: k in Live(c) ==> c.controller == Some(k)
  }

  lemma NextIsSound(cfg: Config, c: Client, h: Happening)
    requires Sound(c)
    ensures Sound(Next(cfg, c, h))
  {
  }

  lemma {:induction false} AlwaysSound(cfg: Config, run: seq<Happening>)
    ensures Sound(After(cfg, run))
    decreases |run|
  {
    if run == [] {
    } else {
      AlwaysSound(cfg, run[..|run| - 1]);
      NextIsSound(cfg, After(cfg, run[..|run| - 1]), run[|run| - 1]);
    }
  }

  lemma Sizes(c: Client)
    ensures Exclusive(c) && Live(c) != {} ==>
              c.timers == map[] && forall j, k :: j in Live(c) && k in Live(c) ==> j == k
    ensures Exclusive(c) && c.timers != map[] ==>
              Live(c) == {} && forall s, t :: s in c.timers && t in c.timers ==> s == t
  {
    if Exclusive(c) {
      if k :| k in Live(c) {
        assert Live(c) == {k} + (Live(c) - {k});
      }
      if t :| t in c.timers {
        assert c.timers.Keys == {t} + (c.timers.Keys - {t});
        assert |c.timers| == |c.timers.Keys|;
      }
    }
  }

  lemma ConnectAlone(c: Client)
    requires Sound(c) && Tracked(c) && Live(c) == {}
    ensures Exclusive(OnConnect(c)) && Tracked(OnConnect(c)) && Held(OnConnect(c)) && Fresh(OnConnect(c))
  {
    var after := OnConnect(c);
    assert after.timers == map[];
    assert Live(after) == {|c.attempts|};
  }

  lemma ConnectOverlaps(c: Client)
    requires Live(c) != {}
    ensures !Exclusive(OnConnect(c))
  {
    var k :| k in Live(c);
    var pair := {k, |c.attempts|};
    assert pair <= Live(OnConnect(c));
    assert Live(OnConnect(c)) == pair + (Live(OnConnect(c)) - pair);
  }

  lemma NoneLive(c: Client, t: nat)
    requires Live(c) == {} && forall s :: s in c.timers ==> s == t
    ensures Exclusive(c)
  {
    assert c.timers.Keys == {} || c.timers.Keys == {t};
    assert |c.timers| == |c.timers.Keys|;
  }

  lemma DisconnectAlone(c: Client)
    requires Tracked(c) && Held(c)
    ensures var after := OnDisconnect(c); Exclusive(after) && Tracked(after) && Held(after) && Fresh(after)
  {
    var after := OnDisconnect(c);
    assert after.timers.Keys == {};
    forall k | k in Live(after)
      ensures k in Live(c) && c.controller != Some(k)
    {
    }
    NoneLive(after, 0);
  }

  lemma EndedAlone(cfg: Config, c: Client, k: nat)
    requires Sound(c) && Exclusive(c) && k in Live(c)
    ensures var after := OnEnded(cfg, c, k); Exclusive(after) && Tracked(after) && Held(after) && Fresh(after)
  {
    Sizes(c);
    hide Exclusive;
    var after := OnEnded(cfg, c, k);
    forall j | j in Live(after)
      ensures j in Live(c) && j != k
    {
    }
    assert Live(after) == {};
    NoneLive(after, c.nextTimer);
  }

  lemma FiredAlone(cfg: Config, c: Client, t: nat)
    requires Sound(c) && Exclusive(c) && t in c.timers
    ensures var after := OnTimer(cfg, c, t); Exclusive(after) && Tracked(after) && Held(after) && Fresh(after)
  {
    Sizes(c);
    hide Exclusive;
    var fired := c.(timers := c.timers - {t},
                    currentDelay := Backoff.Doubled(c.currentDelay, cfg.maxReconnectDelay));
    assert Live(fired) == Live(c) && fired.timers == map[];
    ConnectAlone(fired);
  }

  lemma SameLive(a: Client, b: Client)
    requires Exclusive(a) && Tracked(a) && Held(a) && Live(a) != {}
    requires b.attempts == a.attempts && b.timers == a.timers
    requires b.reconnectTimer == a.reconnectTimer && b.controller == a.controller
    ensures Exclusive(b) && Tracked(b) && Held(b) && Fresh(b)
  {
    Sizes(a);
    assert Live(b) == Live(a);
  }

  lemma NextKeepsExclusive(cfg: Config, c: Client, h: Happening)
    requires Sound(c) && Exclusive(c) && Tracked(c) && Held(c) && Fresh(c)
    requires h.Connect? ==> Live(c) == {}
    ensures var after := Next(cfg, c, h); Exclusive(after) && Tracked(after) && Held(after) && Fresh(after)
  {
    if Enabled(c, h) {
      match h
      case Connect => ConnectAlone(c);
      case Disconnect => DisconnectAlone(c);
      case Response(k) =>
        assert k in Live(c);
        hide Exclusive, Tracked, Held;
        SameLive(c, OnResponse(cfg, c));
      case Ended(k) => EndedAlone(cfg, c, k);
      case Fired(t) => FiredAlone(cfg, c, t);
    }
  }

  /** The owner calls `connect` only while no attempt goes on. */
  ghost predicate Disciplined(cfg: Config, run: seq<Happening>) {
    forall i :: 0 <= i < |run| && run[i].Connect? ==> Live(After(cfg, run[..i])) == {}
  }

  lemma {:induction false} DisciplineSuffices(cfg: Config, run: seq<Happening>)
    requires Disciplined(cfg, run)
    ensures var c := After(cfg, run); Exclusive(c) && Tracked(c) && Held(c) && Fresh(c)
    decreases |run|
  {
    if run == [] {
      assert Live(Init(cfg)) == {};
    } else {
      var front := run[..|run| - 1];
      assert forall i :: 0 <= i < |front| ==> front[..i] == run[..i];
      DisciplineSuffices(cfg, front);
      AlwaysSound(cfg, front);
      hide Exclusive, Tracked, Held, Fresh, Next;
      NextKeepsExclusive(cfg, After(cfg, front), run[|run| - 1]);
    }
  }

  lemma NextConnect(cfg: Config, c: Client)
    ensures Next(cfg, c, Connect) == OnConnect(c)
  {
  }

  /** Attempts and timers never overlap, at any point of a run, exactly when the owner never calls
      `connect` while an attempt goes on. */
  lemma ExclusiveIffDisciplined(cfg: Config, run: seq<Happening>)
    ensures (forall i :: 0 <= i <= |run| ==> Exclusive(After(cfg, run[..i]))) <==> Disciplined(cfg, run)
  {
    hide After, Next, Exclusive, Tracked, Held, OnConnect;
    if Disciplined(cfg, run) {
      forall i | 0 <= i <= |run|
        ensures Exclusive(After(cfg, run[..i]))
      {
        assert forall j :: 0 <= j < i ==> run[..i][..j] == run[..j];
        DisciplineSuffices(cfg, run[..i]);
      }
    } else {
      var i :| 0 <= i < |run| && run[i].Connect? && Live(After(cfg, run[..i])) != {};
      AfterSnoc(cfg, run[..i], run[i]);
      assert run[..i + 1] == run[..i] + [run[i]];
      ConnectOverlaps(After(cfg, run[..i]));
      NextConnect(cfg, After(cfg, run[..i]));
      assert !Exclusive(After(cfg, run[..i + 1]));
    }
  }

  // ---------------------------------------------------------------- after a disconnect

  /** No happening after `disconnect`, other than a `connect`, starts an attempt. */
  ghost predicate StaysClosed(cfg: Config, run: seq<Happening>) {
    forall later: seq<Happening> :: (forall h :: h in later ==> !h.Connect?) ==>
      |After(cfg, run + [Disconnect] + later).attempts| == |After(cfg, run).attempts|
  }

  lemma AfterDisconnect(cfg: Config, run: seq<Happening>)
    ensures var c, after := After(cfg, run), After(cfg, run + [Disconnect]);
            && after.intentionallyClosed && |after.attempts| == |c.attempts|
            && (after.timers == map[] <==> Tracked(c))
            && after.timers.Keys == (set t | t in c.timers && c.reconnectTimer != Some(t))
            && Live(after) == (set k | k in Live(c) && c.controller != Some(k))
  {
    AfterSnoc(cfg, run, Disconnect);
    AlwaysSound(cfg, run);
    var c, after := After(cfg, run), After(cfg, run + [Disconnect]);
    hide After;
    assert after.timers.Keys == (set t | t in c.timers && c.reconnectTimer != Some(t));
    if Tracked(c) {
      assert after.timers.Keys == {};
    } else {
      var t :| t in c.timers && c.reconnectTimer != Some(t);
      assert t in after.timers;
    }
  }

  lemma {:induction false} RestLasts(cfg: Config, run: seq<Happening>, later: seq<Happening>)
    requires After(cfg, run).intentionallyClosed && After(cfg, run).timers == map[]
    requires forall h :: h in later ==> !h.Connect?
    ensures var after := After(cfg, run + later);
            after.intentionallyClosed && after.timers == map[] && |after.attempts| == |After(cfg, run).attempts|
    decreases |later|
  {
    if later == [] {
      assert run + later == run;
    } else {
      var front, h := later[..|later| - 1], later[|later| - 1];
      RestLasts(cfg, run, front);
      assert run + later == run + front + [h];
      AfterSnoc(cfg, run + front, h);
    }
  }

  /** A disconnect is final exactly when every live timer is the one the client remembers. */
  lemma DisconnectFinalIff(cfg: Config, run: seq<Happening>)
    ensures StaysClosed(cfg, run) <==> Tracked(After(cfg, run))
  {
    AfterDisconnect(cfg, run);
    var start := run + [Disconnect];
    hide After;
    if Tracked(After(cfg, run)) {
      forall later: seq<Happening> | forall h :: h in later ==> !h.Connect?
        ensures |After(cfg, start + later).attempts| == |After(cfg, run).attempts|
      {
        RestLasts(cfg, start, later);
      }
    } else {
      var t :| t in After(cfg, start).timers;
      AfterSnoc(cfg, start, Fired(t));
      assert |After(cfg, start + [Fired(t)]).attempts| == |After(cfg, run).attempts| + 1;
      assert !StaysClosed(cfg, run) by {
        assert forall h: Happening :: h in [Fired(t)] ==> !h.Connect?;
      }
    }
  }

  /** It ends all attempts exactly when the only one that goes on is that of the controller held. */
  lemma DisconnectSilencesIff(cfg: Config, run: seq<Happening>)
    ensures Live(After(cfg, run + [Disconnect])) == {} <==> Held(After(cfg, run))
  {
    AfterDisconnect(cfg, run);
    var c := After(cfg, run);
    hide After, Live;
    if !Held(c) {
      var k :| k in Live(c) && c.controller != Some(k);
      assert k in Live(After(cfg, run + [Disconnect]));
    }
  }

  /** For an owner who connects only while no attempt goes on, it does both. */
  lemma DisciplinedDisconnect(cfg: Config, run: seq<Happening>)
    requires Disciplined(cfg, run)
    ensures StaysClosed(cfg, run) && Live(After(cfg, run + [Disconnect])) == {}
  {
    DisciplineSuffices(cfg, run);
    DisconnectFinalIff(cfg, run);
    DisconnectSilencesIff(cfg, run);
  }

  lemma TwoAttempts(cfg: Config)
    ensures After(cfg, [Connect, Connect]) == Init(cfg).(attempts := [true, true], controller := Some(1))
  {
    AfterSnoc(cfg, [], Connect);
    AfterSnoc(cfg, [Connect], Connect);
    assert [] + [Connect] == [Connect] && [Connect] + [Connect] == [Connect, Connect];
  }

  /** Connecting twice by hand: the first stream outlives a disconnect, and when both end, so does the
      first timer. */
  lemma ConnectingTwice(cfg: Config)
    ensures Live(After(cfg, [Connect, Connect, Disconnect])) == {0}
    ensures cfg.autoReconnect ==> !StaysClosed(cfg, [Connect, Connect, Ended(0), Ended(1)])
  {
    var twice := [Connect, Connect];
    TwoAttempts(cfg);
    hide After;
    AfterSnoc(cfg, twice, Disconnect);
    assert twice + [Disconnect] == [Connect, Connect, Disconnect];
    AfterSnoc(cfg, twice, Ended(0));
    AfterSnoc(cfg, twice + [Ended(0)], Ended(1));
    var run := [Connect, Connect, Ended(0), Ended(1)];
    assert twice + [Ended(0)] + [Ended(1)] == run;
    DisconnectFinalIff(cfg, run);
    if cfg.autoReconnect {
      assert 0 in After(cfg, run).timers && After(cfg, run).reconnectTimer == Some(1);
    }
  }

  // ---------------------------------------------------------------- backoff

  /** What in a run has a bearing on the delay. */
  function Signals(cfg: Config, run: seq<Happening>): seq<Backoff.Signal> {
    if run == [] then []
    else
      var front, h := run[..|run| - 1], run[|run| - 1];
      Signals(cfg, front)
      + (if !Enabled(After(cfg, front), h) then []
         else if h.Response? then [Backoff.Opened]
         else if h.Fired? then [Backoff.TimerFired] else [])
  }

  /** The owner has called `disconnect`, and nothing has connected since. */
  function ClosedOnPurpose(cfg: Config, run: seq<Happening>): bool {
    if run == [] then false
    else
      var front, h := run[..|run| - 1], run[|run| - 1];
      if h.Disconnect? then true
      else if h.Connect? || (h.Fired? && Enabled(After(cfg, front), h)) then false
      else ClosedOnPurpose(cfg, front)
  }

  lemma {:induction false} ClosedIff(cfg: Config, run: seq<Happening>)
    ensures After(cfg, run).intentionallyClosed <==> ClosedOnPurpose(cfg, run)
    decreases |run|
  {
    if run == [] {
    } else {
      ClosedIff(cfg, run[..|run| - 1]);
    }
  }

  lemma NextDelay(cfg: Config, c: Client, h: Happening)
    requires Enabled(c, h)
    ensures Next(cfg, c, h).currentDelay ==
              if h.Response? then cfg.reconnectDelay
              else if h.Fired? then Backoff.Doubled(c.currentDelay, cfg.maxReconnectDelay)
              else c.currentDelay
  {
    hide Backoff.Doubled;
  }

  lemma NotEnabled(cfg: Config, c: Client, h: Happening)
    requires !Enabled(c, h)
    ensures Next(cfg, c, h) == c
  {
  }

  lemma {:induction false} DelayIsRun(cfg: Config, run: seq<Happening>)
    ensures After(cfg, run).currentDelay ==
              Backoff.Run(cfg.reconnectDelay, cfg.maxReconnectDelay, Signals(cfg, run))
    decreases |run|
  {
    if run == [] {
    } else {
      hide Next, Enabled;
      var front, h := run[..|run| - 1], run[|run| - 1];
      DelayIsRun(cfg, front);
      if Enabled(After(cfg, front), h) {
        NextDelay(cfg, After(cfg, front), h);
      } else {
        NotEnabled(cfg, After(cfg, front), h);
      }
      var before := Signals(cfg, front);
      assert before + [] == before;
      assert (before + [Backoff.Opened])[..|before|] == before;
      assert (before + [Backoff.TimerFired])[..|before|] == before;
    }
  }

  /** After k timer fires since the last response with status ok the delay is the base, doubled k times
      and capped: in every run. */
  lemma DelayClosedForm(cfg: Config, run: seq<Happening>)
    ensures After(cfg, run).currentDelay ==
              Backoff.After(cfg.reconnectDelay, cfg.maxReconnectDelay, Backoff.Failures(Signals(cfg, run)))
    ensures cfg.reconnectDelay <= cfg.maxReconnectDelay ==>
              cfg.reconnectDelay <= After(cfg, run).currentDelay <= cfg.maxReconnectDelay
  {
    DelayIsRun(cfg, run);
    Backoff.ClosedForm(cfg.reconnectDelay, cfg.maxReconnectDelay, Signals(cfg, run));
    if cfg.reconnectDelay <= cfg.maxReconnectDelay {
      Backoff.DelayInRange(cfg.reconnectDelay, cfg.maxReconnectDelay, Backoff.Failures(Signals(cfg, run)));
    }
  }

  /** When an attempt ends, exactly one more timer is armed, with that delay, and it is the one remembered;
      and none when the client was closed on purpose or told not to reconnect. */
  lemma EndArmsTimer(cfg: Config, run: seq<Happening>, k: nat)
    requires Enabled(After(cfg, run), Ended(k))
    ensures var c, after := After(cfg, run), After(cfg, run + [Ended(k)]);
            var delay := Backoff.After(cfg.reconnectDelay, cfg.maxReconnectDelay, Backoff.Failures(Signals(cfg, run)));
            if ClosedOnPurpose(cfg, run) || !cfg.autoReconnect then after.timers == c.timers
            else exists t: nat ::
                   t !in c.timers && after.timers == c.timers[t := delay] && after.reconnectTimer == Some(t)
  {
    AfterSnoc(cfg, run, Ended(k));
    ClosedIff(cfg, run);
    DelayClosedForm(cfg, run);
    AlwaysSound(cfg, run);
    hide After, Signals, ClosedOnPurpose;
    var c := After(cfg, run);
    assert c.nextTimer !in c.timers;
  }

  /** A timer that fires connects: it starts exactly one more attempt. */
  lemma TimerConnects(cfg: Config, run: seq<Happening>, t: nat)
    requires t in After(cfg, run).timers
    ensures var c, after := After(cfg, run), After(cfg, run + [Fired(t)]);
            && after.attempts == c.attempts + [true] && after.controller == Some(|c.attempts|)
            && !after.intentionallyClosed && t !in after.timers
  {
    AfterSnoc(cfg, run, Fired(t));
    hide After;
  }
}

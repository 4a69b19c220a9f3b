/** The server-sent-events client: an incremental frame splitter over arbitrary network reads, and a
    field parser for each frame. */
module Sse {
  import opened Text
  import Backoff

  const SEPARATOR := "\n\n"

  /** What reaches the JSON stage for one frame: the event name and the joined data lines. */
  datatype Event = Event(name: string, data: string)

  /** What JSON.parse makes of a text that a `type` can be assigned to: its own `type`, unless that is
      missing or null, and the rest. */
  datatype Json = Json(kind: Option<string>, rest: string)

  /** None where JSON.parse throws, and for null, numbers, strings and booleans, where the assignment
      of a `type` does. */
  type JsonParser = string -> Option<Json>

  /** What the event handler is called with. */
  datatype SseEvent = Parsed(kind: string, rest: string) | Raw(kind: string, data: string)

  function Deliver(json: JsonParser, e: Event): SseEvent {
    match json(e.data)
    case Some(Json(Some(kind), rest)) => Parsed(kind, rest)
    case Some(Json(None, rest)) => Parsed(e.name, rest)
    case None => Raw(e.name, e.data)
  }

  function DeliverAll(json: JsonParser, events: seq<Event>): (r: seq<SseEvent>)
    ensures |r| == |events| && forall i :: 0 <= i < |r| ==> r[i] == Deliver(json, events[i])
  {
    seq(|events|, i requires 0 <= i < |events| => Deliver(json, events[i]))
  }

  lemma DeliverOne(json: JsonParser, e: Event)
    ensures DeliverAll(json, []) == [] && DeliverAll(json, [e]) == [Deliver(json, e)]
  {
  }

  lemma DeliverConcat(json: JsonParser, a: seq<Event>, b: seq<Event>)
    ensures DeliverAll(json, a + b) == DeliverAll(json, a) + DeliverAll(json, b)
    ensures DeliverAll(json, []) == []
  {
  }

  // ---------------------------------------------------------------- one frame

  predicate StartsWith(s: string, prefix: string) {
    |prefix| <= |s| && s[..|prefix|] == prefix
  }

  function LineName(line: string): Option<string> {
    if StartsWith(line, "event:") then Some(Trim(JsBlank, line[6..])) else None
  }

  function LineData(line: string): Option<string> {
    if !StartsWith(line, "event:") && StartsWith(line, "data:") then Some(Trim(JsBlank, line[5..])) else None
  }

  /** The last `event:` line names the event. */
  function EventName(lines: seq<string>): string {
    if lines == [] then "message"
    else
      match LineName(lines[|lines| - 1])
      case Some(name) => name
      case None => EventName(lines[..|lines| - 1])
  }

  function DataLines(lines: seq<string>): seq<string> {
    if lines == [] then []
    else
      DataLines(lines[..|lines| - 1]) +
      (match LineData(lines[|lines| - 1]) case Some(data) => [data] case None => [])
  }

  /** At most one event per frame; none without a data line. */
  function FrameEvents(raw: string): seq<Event> {
    var lines := Split(raw, "\n");
    if DataLines(lines) == [] then [] else [Event(EventName(lines), Join(DataLines(lines), "\n"))]
  }

  function EventsOf(frames: seq<string>): seq<Event> {
    if frames == [] then [] else EventsOf(frames[..|frames| - 1]) + FrameEvents(frames[|frames| - 1])
  }

  // ---------------------------------------------------------------- the stream, read by read

  datatype Fed = Fed(frames: seq<string>, carry: string)

  /** Frames completed by a list of reads, and the text carried over, starting from a carry. */
  function Feed(carry: string, chunks: seq<string>): Fed
    decreases |chunks|
  {
    if chunks == [] then Fed([], carry)
    else
      var parts := Split(carry + chunks[0], SEPARATOR);
      var later := Feed(parts[|parts| - 1], chunks[1..]);
      Fed(parts[..|parts| - 1] + later.frames, later.carry)
  }

  // ---------------------------------------------------------------- the event handler

  /** Whether the event handler throws, given all calls of it up to the one in question. */
  type Handler = seq<SseEvent> -> bool

  /** The calls of the handler, and whether the last of them threw. */
  datatype Handed = Handed(calls: seq<SseEvent>, threw: bool)

  /** Hand events on until the handler throws. */
  function HandOn(throws: Handler, calls: seq<SseEvent>, events: seq<SseEvent>): Handed
    decreases |events|
  {
    if events == [] then Handed(calls, false)
    else
      var now := calls + [events[0]];
      if throws(now) then Handed(now, true) else HandOn(throws, now, events[1..])
  }

  lemma HandOne(throws: Handler, calls: seq<SseEvent>, e: SseEvent)
    ensures HandOn(throws, calls, [e]) == Handed(calls + [e], throws(calls + [e]))
    ensures HandOn(throws, calls, []) == Handed(calls, false)
  {
  }

  lemma {:induction false} HandConcat(throws: Handler, calls: seq<SseEvent>, a: seq<SseEvent>, b: seq<SseEvent>)
    ensures var first := HandOn(throws, calls, a);
            HandOn(throws, calls, a + b) == if first.threw then first else HandOn(throws, first.calls, b)
    decreases |a|
  {
    if a == [] {
      assert a + b == b;
    } else {
      assert (a + b)[1..] == a[1..] + b;
      HandConcat(throws, calls + [a[0]], a[1..], b);
    }
  }

  /** A prefix of the events is handed on: all of them exactly when the handler throws at none but
      possibly the last. */
  lemma {:induction false} HandedPrefix(throws: Handler, calls: seq<SseEvent>, events: seq<SseEvent>) returns (k: nat)
    ensures k <= |events| && HandOn(throws, calls, events).calls == calls + events[..k]
    ensures forall i :: 0 < i < k ==> !throws(calls + events[..i])
    ensures HandOn(throws, calls, events).threw <==> k > 0 && throws(calls + events[..k])
    ensures !HandOn(throws, calls, events).threw ==> k == |events|
    decreases |events|
  {
    if events == [] {
      k := 0;
      assert calls + events[..0] == calls;
    } else {
      var now := calls + [events[0]];
      assert calls + events[..1] == now;
      if throws(now) {
        k := 1;
      } else {
        var later := HandedPrefix(throws, now, events[1..]);
        k := later + 1;
        forall i | 1 <= i <= k
          ensures calls + events[..i] == now + events[1..][..i - 1]
        {
        }
      }
    }
  }

  // ---------------------------------------------------------------- connections

  datatype Config = Config(reconnectDelay: nat, maxReconnectDelay: nat, autoReconnect: bool)

  /** What decides about connections: the client's fields, and on the environment's side which of the
      attempts made so far still goes on, and the live timers with their delays. */
  datatype Client = Client(
    currentDelay: nat,
    intentionallyClosed: bool,
    controller: Option<nat>,
    reconnectTimer: Option<nat>,
    attempts: seq<bool>,
    timers: map<nat, nat>,
    nextTimer: nat)

  function Init(cfg: Config): Client {
    Client(cfg.reconnectDelay, false, None, None, [], map[], 0)
  }

  function Clear(c: Client): Client {
    match c.reconnectTimer
    case None => c
    case Some(t) => c.(reconnectTimer := None, timers := c.timers - {t})
  }

  function Schedule(cfg: Config, c: Client): Client {
    if c.intentionallyClosed || !cfg.autoReconnect then c
    else
      c.(reconnectTimer := Some(c.nextTimer), timers := c.timers[c.nextTimer := c.currentDelay],
         nextTimer := c.nextTimer + 1)
  }

  /** `connect`: a new attempt, with a controller of its own; the one before it is not aborted. */
  function OnConnect(c: Client): Client {
    var c1 := Clear(c.(intentionallyClosed := false));
    c1.(controller := Some(|c1.attempts|), attempts := c1.attempts + [true])
  }

  /** The attempt is over. */
  function Over(attempts: seq<bool>, k: nat): seq<bool> {
    if k < |attempts| then attempts[k := false] else attempts
  }

  /** `disconnect` aborts the attempt whose controller the client holds. */
  function OnDisconnect(c: Client): Client {
    var c1 := Clear(c.(intentionallyClosed := true));
    match c1.controller
    case None => c1
    case Some(k) => c1.(controller := None, attempts := Over(c1.attempts, k))
  }

  function OnResponse(cfg: Config, c: Client): Client {
    c.(currentDelay := cfg.reconnectDelay)
  }

  /** An attempt ends, but not by being aborted. */
  function OnEnded(cfg: Config, c: Client, k: nat): Client {
    Schedule(cfg, c.(attempts := Over(c.attempts, k)))
  }

  function OnTimer(cfg: Config, c: Client, t: nat): Client {
    OnConnect(c.(timers := c.timers - {t}, currentDelay := Backoff.Doubled(c.currentDelay, cfg.maxReconnectDelay)))
  }

  // ---------------------------------------------------------------- the client

  /** How reading a response ends: at its end, by the client's own abort, or with another error. */
  datatype Ending = Done | Aborted | Failed

  /** The frames parsed and the carry held after the first `i` reads lead to the final outcome. */
  ghost predicate FedSoFar(frames: seq<string>, carry: string, chunks: seq<string>, i: nat) {
    && i <= |chunks|
    && frames + Feed(carry, chunks[i..]).frames == Feed("", chunks).frames
    && Feed(carry, chunks[i..]).carry == Feed("", chunks).carry
  }

  lemma FeedStart(chunks: seq<string>)
    ensures FedSoFar([], "", chunks, 0)
  {
    assert chunks[0..] == chunks;
    hide Feed;
    assert [] + Feed("", chunks).frames == Feed("", chunks).frames;
  }

  lemma FeedDone(frames: seq<string>, carry: string, chunks: seq<string>)
    requires FedSoFar(frames, carry, chunks, |chunks|)
    ensures Feed("", chunks) == Fed(frames, carry)
  {
    assert frames + [] == frames;
  }

  lemma FeedStep(frames: seq<string>, carry: string, chunks: seq<string>, i: nat)
    requires i < |chunks| && FedSoFar(frames, carry, chunks, i)
    ensures var parts := Split(carry + chunks[i], SEPARATOR);
            FedSoFar(frames + parts[..|parts| - 1], parts[|parts| - 1], chunks, i + 1)
  {
    hide Split;
    assert chunks[i..][1..] == chunks[i + 1..];
    var parts := Split(carry + chunks[i], SEPARATOR);
    var later := Feed(parts[|parts| - 1], chunks[i + 1..]).frames;
    assert frames + (parts[..|parts| - 1] + later) == frames + parts[..|parts| - 1] + later;
  }

  lemma EventsNil()
    ensures EventsOf([]) == []
  {
  }

  lemma EventsSnoc(frames: seq<string>, frame: string)
    ensures EventsOf(frames + [frame]) == EventsOf(frames) + FrameEvents(frame)
  {
    assert (frames + [frame])[..|frames|] == frames;
  }

  lemma {:induction false} EventsConcat(a: seq<string>, b: seq<string>)
    ensures EventsOf(a + b) == EventsOf(a) + EventsOf(b)
    decreases |b|
  {
    hide FrameEvents, EventsOf;
    if b == [] {
      EventsNil();
      assert a + b == a && EventsOf(a) + [] == EventsOf(a);
    } else {
      var front, last := b[..|b| - 1], b[|b| - 1];
      EventsConcat(a, front);
      EventsSnoc(a + front, last);
      EventsSnoc(front, last);
      assert a + front + [last] == a + b && front + [last] == b;
    }
  }

  lemma FeedLater(frames: seq<string>, carry: string, chunks: seq<string>, i: nat) returns (later: seq<string>)
    requires FedSoFar(frames, carry, chunks, i)
    ensures Feed("", chunks).frames == frames + later
  {
    later := Feed(carry, chunks[i..]).frames;
  }

  /** What becomes of a list of frames: parsed, through the JSON stage, and to the handler. */
  function FramesHanded(json: JsonParser, throws: Handler, calls: seq<SseEvent>, frames: seq<string>): Handed {
    HandOn(throws, calls, DeliverAll(json, EventsOf(frames)))
  }

  lemma FramesNil(json: JsonParser, throws: Handler, calls: seq<SseEvent>)
    ensures FramesHanded(json, throws, calls, []) == Handed(calls, false)
  {
    EventsNil();
    DeliverConcat(json, [], []);
  }

  lemma FramesOne(json: JsonParser, throws: Handler, calls: seq<SseEvent>, frame: string)
    ensures FramesHanded(json, throws, calls, [frame]) == HandOn(throws, calls, DeliverAll(json, FrameEvents(frame)))
  {
    hide FrameEvents, EventsOf, HandOn;
    EventsNil();
    EventsSnoc([], frame);
    assert [] + [frame] == [frame];
    assert [] + FrameEvents(frame) == FrameEvents(frame);
  }

  lemma FramesConcat(json: JsonParser, throws: Handler, calls: seq<SseEvent>, a: seq<string>, b: seq<string>)
    ensures var first := FramesHanded(json, throws, calls, a);
            FramesHanded(json, throws, calls, a + b) ==
              if first.threw then first else FramesHanded(json, throws, first.calls, b)
  {
    hide EventsOf, HandOn, DeliverAll;
    EventsConcat(a, b);
    DeliverConcat(json, EventsOf(a), EventsOf(b));
    HandConcat(throws, calls, DeliverAll(json, EventsOf(a)), DeliverAll(json, EventsOf(b)));
  }

  class SseClient {
    const cfg: Config
    const json: JsonParser
    const throws: Handler
    var currentDelay: nat
    var intentionallyClosed: bool
    var controller: Option<nat>
    var reconnectTimer: Option<nat>
    // The environment's side: attempts that go on, live timers, and the calls of the event and error
    // handlers so far.
    var attempts: seq<bool>
    var timers: map<nat, nat>
    var nextTimer: nat
    var delivered: seq<SseEvent>
    var errors: nat

    ghost function View(): Client
      reads this
    {
      Client(currentDelay, intentionallyClosed, controller, reconnectTimer, attempts, timers, nextTimer)
    }

    constructor (cfg: Config, json: JsonParser, throws: Handler)
      ensures this.cfg == cfg && this.json == json && this.throws == throws
      ensures View() == Init(cfg) && delivered == [] && errors == 0
    {
      this.cfg, this.json, this.throws := cfg, json, throws;
      currentDelay, intentionallyClosed, controller, reconnectTimer := cfg.reconnectDelay, false, None, None;
      attempts, timers, nextTimer, delivered, errors := [], map[], 0, [], 0;
    }

    method ScheduleReconnect()
      modifies `reconnectTimer, `timers, `nextTimer
      ensures View() == Schedule(cfg, old(View()))
    {
      if intentionallyClosed || !cfg.autoReconnect {
        return;
      }
      timers := timers[nextTimer := currentDelay];
      reconnectTimer := Some(nextTimer);
      nextTimer := nextTimer + 1;
    }

    method ClearReconnectTimer()
      modifies `reconnectTimer, `timers
      ensures View() == Clear(old(View()))
    {
      if reconnectTimer.Some? {
        timers := timers - {reconnectTimer.value};
        reconnectTimer := None;
      }
    }

    /** `connect`, up to the fetch. */
    method Connect()
      modifies `intentionallyClosed, `reconnectTimer, `timers, `controller, `attempts
      ensures View() == OnConnect(old(View()))
    {
      intentionallyClosed := false;
      ClearReconnectTimer();
      controller := Some(|attempts|);
      attempts := attempts + [true];
    }

    method Disconnect()
      modifies `intentionallyClosed, `reconnectTimer, `timers, `controller, `attempts
      ensures View() == OnDisconnect(old(View()))
    {
      intentionallyClosed := true;
      ClearReconnectTimer();
      if controller.Some? {
        attempts := Over(attempts, controller.value);
        controller := None;
      }
    }

    /** A response arrived with status ok. */
    method HandleResponse()
      modifies `currentDelay
      ensures View() == OnResponse(cfg, old(View()))
    {
      currentDelay := cfg.reconnectDelay;
    }

    /** The fetch failed. */
    method HandleFailure(k: nat, ending: Ending)
      modifies this
      ensures View() == if ending.Aborted? then old(View()).(attempts := Over(old(attempts), k))
                        else OnEnded(cfg, old(View()), k)
      ensures errors == old(errors) + (if ending.Aborted? then 0 else 1) && delivered == old(delivered)
    {
      attempts := Over(attempts, k);
      if ending.Aborted? {
        return;
      }
      errors := errors + 1;
      ScheduleReconnect();
    }

    /** The callback of a live timer. */
    method HandleTimer(t: nat)
      modifies this
      ensures View() == OnTimer(cfg, old(View()), t) && delivered == old(delivered) && errors == old(errors)
    {
      timers := timers - {t};
      currentDelay := Backoff.Min(currentDelay * 2, cfg.maxReconnectDelay);
      Connect();
    }

    method ParseEvent(raw: string) returns (threw: bool)
      modifies `delivered
      ensures HandOn(throws, old(delivered), DeliverAll(json, FrameEvents(raw))) == Handed(delivered, threw)
    {
      var eventType := "message";
      var dataLines: seq<string> := [];
      var lines := Split(raw, "\n");
      for i := 0 to |lines|
        invariant eventType == EventName(lines[..i]) && dataLines == DataLines(lines[..i])
        invariant delivered == old(delivered)
      {
        var line := lines[i];
        assert lines[..i + 1][..i] == lines[..i];
        if StartsWith(line, "event:") {
          eventType := Trim(JsBlank, line[6..]);
        } else if StartsWith(line, "data:") {
          dataLines := dataLines + [Trim(JsBlank, line[5..])];
        }
      }
      assert lines[..|lines|] == lines;
      ghost var e := Event(eventType, Join(dataLines, "\n"));
      assert FrameEvents(raw) == if dataLines == [] then [] else [e];
      DeliverOne(json, e);
      HandOne(throws, delivered, Deliver(json, e));
      if |dataLines| == 0 {
        return false;
      }
      var dataStr := Join(dataLines, "\n");
      var value := json(dataStr);
      if value.Some? {
        var kind := if value.value.kind.Some? then value.value.kind.value else eventType;
        delivered := delivered + [Parsed(kind, value.value.rest)];
      } else {
        delivered := delivered + [Raw(eventType, dataStr)];
      }
      threw := throws(delivered);
    }

    method ParseEvents(parts: seq<string>) returns (threw: bool)
      modifies `delivered
      ensures FramesHanded(json, throws, old(delivered), parts) == Handed(delivered, threw)
    {
      hide FrameEvents, FramesHanded;
      threw := false;
      FramesNil(json, throws, delivered);
      assert parts[..0] == [];
      for j := 0 to |parts|
        invariant !threw && FramesHanded(json, throws, old(delivered), parts[..j]) == Handed(delivered, false)
      {
        FramesConcat(json, throws, old(delivered), parts[..j], [parts[j]]);
        FramesOne(json, throws, delivered, parts[j]);
        assert parts[..j] + [parts[j]] == parts[..j + 1];
        threw := ParseEvent(parts[j]);
        if threw {
          FramesConcat(json, throws, old(delivered), parts[..j + 1], parts[j + 1..]);
          assert parts[..j + 1] + parts[j + 1..] == parts;
          return;
        }
      }
      assert parts[..|parts|] == parts;
    }

    /** Consume the decoded reads of the response to attempt `k`.  What is left in the buffer at the end is
        dropped, and an event handler that throws ends the stream like a failed read. */
    method ConsumeStream(k: nat, chunks: seq<string>, ending: Ending) returns (buffer: string)
      modifies this
      ensures var handed := FramesHanded(json, throws, old(delivered), Feed("", chunks).frames);
              && delivered == handed.calls
              && errors == old(errors) + (if handed.threw || ending.Failed? then 1 else 0)
              && (!handed.threw ==> buffer == Feed("", chunks).carry)
              && View() == if !handed.threw && ending.Aborted? then old(View()).(attempts := Over(old(attempts), k))
                           else OnEnded(cfg, old(View()), k)
    {
      hide Split, Find, FramesHanded, Feed, FedSoFar;
      attempts := Over(attempts, k);
      buffer := "";
      ghost var frames: seq<string> := [];
      FramesNil(json, throws, delivered);
      FeedStart(chunks);
      for i := 0 to |chunks|
        invariant FedSoFar(frames, buffer, chunks, i)
        invariant FramesHanded(json, throws, old(delivered), frames) == Handed(delivered, false)
        invariant View() == old(View()).(attempts := Over(old(attempts), k)) && errors == old(errors)
      {
        FeedStep(frames, buffer, chunks, i);
        buffer := buffer + chunks[i];
        var parts := Split(buffer, SEPARATOR);
        buffer := parts[|parts| - 1];
        parts := parts[..|parts| - 1];
        FramesConcat(json, throws, old(delivered), frames, parts);
        var threw := ParseEvents(parts);
        frames := frames + parts;
        if threw {
          ghost var later := FeedLater(frames, buffer, chunks, i + 1);
          FramesConcat(json, throws, old(delivered), frames, later);
          errors := errors + 1;
          ScheduleReconnect();
          return;
        }
      }
      FeedDone(frames, buffer, chunks);
      if ending.Aborted? {
        return;
      }
      if ending.Failed? {
        errors := errors + 1;
      }
      ScheduleReconnect();
    }
  }

  // ---------------------------------------------------------------- chunk invariance

  /** One leftmost split: complete frames, and the rest. */
  function SplitOnce(text: string): Fed {
    var whole := Split(text, SEPARATOR);
    Fed(whole[..|whole| - 1], whole[|whole| - 1])
  }

  lemma SplitOnceNone(text: string)
    requires !Contains(text, SEPARATOR)
    ensures SplitOnce(text) == Fed([], text)
  {
  }

  lemma AllButLast(a: seq<string>, b: seq<string>)
    requires b != []
    ensures var s := a + b; s[..|s| - 1] == a + b[..|b| - 1] && s[|s| - 1] == b[|b| - 1]
  {
  }

  /** Text that comes in two parts: the complete frames of the first stand, the rest is carried over. */
  lemma SplitOnceAppend(now: string, rest: string)
    ensures var parts := Split(now, SEPARATOR);
            var last := parts[|parts| - 1];
            && !Contains(last, SEPARATOR)
            && SplitOnce(now + rest) ==
                 Fed(parts[..|parts| - 1] + SplitOnce(last + rest).frames, SplitOnce(last + rest).carry)
  {
    hide Split, Contains;
    var parts := Split(now, SEPARATOR);
    var last := parts[|parts| - 1];
    SplitPiecesFree(now, SEPARATOR);
    assert last in parts;
    SplitAppend(now, rest, SEPARATOR);
    AllButLast(parts[..|parts| - 1], Split(last + rest, SEPARATOR));
  }

  lemma {:induction false} FeedFromCarry(carry: string, chunks: seq<string>)
    requires !Contains(carry, SEPARATOR)
    ensures Feed(carry, chunks) == SplitOnce(carry + Concat(chunks))
    decreases |chunks|
  {
    hide Split, Contains, SplitOnce;
    if chunks == [] {
      assert carry + Concat(chunks) == carry;
      SplitOnceNone(carry);
    } else {
      var now, rest := carry + chunks[0], Concat(chunks[1..]);
      var parts := Split(now, SEPARATOR);
      SplitOnceAppend(now, rest);
      FeedFromCarry(parts[|parts| - 1], chunks[1..]);
      assert carry + Concat(chunks) == now + rest;
    }
  }

  /** However the text is cut into reads, the frames parsed and the final buffer are those of one
      leftmost split of the whole text. */
  lemma ChunkInvariance(chunks: seq<string>)
    ensures Feed("", chunks) == SplitOnce(Concat(chunks))
  {
    assert !Contains("", SEPARATOR);
    FeedFromCarry("", chunks);
    assert "" + Concat(chunks) == Concat(chunks);
  }

  // ---------------------------------------------------------------- a server's side

  datatype Field = Name(value: string) | Data(value: string) | Other(line: string)

  function PrintField(f: Field): string {
    match f
    case Name(v) => "event:" + v
    case Data(v) => "data:" + v
    case Other(line) => line
  }

  /** Values hold no newline; other lines (comments, ids) are not empty and are neither of the two
      fields the client reads. */
  ghost predicate ValidField(f: Field) {
    && '\n' !in PrintField(f)
    && (f.Other? ==> f.line != "" && !StartsWith(f.line, "event:") && !StartsWith(f.line, "data:"))
  }

  function PrintLines(fields: seq<Field>): (lines: seq<string>)
    ensures |lines| == |fields|
    ensures forall i :: 0 <= i < |fields| ==> lines[i] == PrintField(fields[i])
  {
    if fields == [] then [] else PrintLines(fields[..|fields| - 1]) + [PrintField(fields[|fields| - 1])]
  }

  function PrintFrame(fields: seq<Field>): string {
    Join(PrintLines(fields), "\n")
  }

  function PrintStream(frames: seq<seq<Field>>): string {
    if frames == [] then "" else PrintFrame(frames[0]) + "\n\n" + PrintStream(frames[1..])
  }

  function NameOf(fields: seq<Field>): string {
    if fields == [] then "message"
    else if fields[|fields| - 1].Name? then Trim(JsBlank, fields[|fields| - 1].value)
    else NameOf(fields[..|fields| - 1])
  }

  function DataOf(fields: seq<Field>): seq<string> {
    if fields == [] then []
    else
      DataOf(fields[..|fields| - 1]) +
      (if fields[|fields| - 1].Data? then [Trim(JsBlank, fields[|fields| - 1].value)] else [])
  }

  function Expected(frames: seq<seq<Field>>): seq<Event> {
    if frames == [] then []
    else
      (if DataOf(frames[0]) == [] then [] else [Event(NameOf(frames[0]), Join(DataOf(frames[0]), "\n"))])
      + Expected(frames[1..])
  }

  lemma FirstCharOf(s: string, prefix: string)
    requires prefix != ""
    ensures StartsWith(s, prefix) ==> s != "" && s[0] == prefix[0]
  {
    if StartsWith(s, prefix) {
      assert s[..|prefix|][0] == s[0];
    }
  }

  lemma FieldParses(f: Field)
    requires ValidField(f)
    ensures LineName(PrintField(f)) == if f.Name? then Some(Trim(JsBlank, f.value)) else None
    ensures LineData(PrintField(f)) == if f.Data? then Some(Trim(JsBlank, f.value)) else None
  {
    var line := PrintField(f);
    if f.Name? {
      assert line[..6] == "event:" && line[6..] == f.value;
    } else if f.Data? {
      FirstCharOf(line, "event:");
      assert line[..5] == "data:" && line[5..] == f.value;
    }
  }

  lemma {:induction false} LinesParse(fields: seq<Field>)
    requires forall f :: f in fields ==> ValidField(f)
    ensures EventName(PrintLines(fields)) == NameOf(fields)
    ensures DataLines(PrintLines(fields)) == DataOf(fields)
    decreases |fields|
  {
    if fields == [] {
    } else {
      var front, f := fields[..|fields| - 1], fields[|fields| - 1];
      LinesParse(front);
      assert PrintLines(fields)[..|front|] == PrintLines(front);
      FieldParses(f);
    }
  }

  lemma EmptyFrameParses()
    ensures FrameEvents("") == []
  {
    FindChar("", '\n');
    assert Split("", "\n") == [""];
    assert [""][..0] == [];
    assert LineData("") == None;
  }

  lemma FrameLines(fields: seq<Field>)
    requires fields != [] && forall f :: f in fields ==> ValidField(f)
    ensures Split(PrintFrame(fields), "\n") == PrintLines(fields)
  {
    hide Split;
    forall p | p in PrintLines(fields)
      ensures '\n' !in p
    {
      var i :| 0 <= i < |fields| && p == PrintField(fields[i]);
      assert fields[i] in fields;
    }
    SplitOfJoinChar(PrintLines(fields), '\n');
  }

  lemma FrameParses(fields: seq<Field>)
    requires forall f :: f in fields ==> ValidField(f)
    ensures FrameEvents(PrintFrame(fields)) ==
              if DataOf(fields) == [] then [] else [Event(NameOf(fields), Join(DataOf(fields), "\n"))]
  {
    LinesParse(fields);
    if fields == [] {
      EmptyFrameParses();
    } else {
      FrameLines(fields);
      hide Split, EventName, DataLines, NameOf, DataOf;
    }
  }

  /** Every newline in the text is followed by another character, not a newline. */
  ghost predicate NoBlankLine(s: string) {
    forall j :: 0 <= j < |s| && s[j] == '\n' ==> j + 1 < |s| && s[j + 1] != '\n'
  }

  lemma {:induction false} JoinedHasNoBlankLine(lines: seq<string>)
    requires forall i :: 0 <= i < |lines| ==> lines[i] != "" && '\n' !in lines[i]
    ensures NoBlankLine(Join(lines, "\n"))
    ensures lines != [] ==> Join(lines, "\n") != "" && Join(lines, "\n")[0] != '\n'
    decreases |lines|
  {
    if |lines| <= 1 {
    } else {
      var later := Join(lines[1..], "\n");
      JoinedHasNoBlankLine(lines[1..]);
      var s := lines[0] + "\n" + later;
      assert s[|lines[0]|] == '\n';
      assert forall j :: 0 <= j < |lines[0]| ==> s[j] == lines[0][j];
      assert forall j :: |lines[0]| < j < |s| ==> s[j] == later[j - |lines[0]| - 1];
    }
  }

  lemma NoBlankLineSeparable(s: string)
    requires NoBlankLine(s)
    ensures Separable(s, SEPARATOR)
  {
    var t := s + SEPARATOR;
    assert t[|s|..|s| + 2] == SEPARATOR;
    forall j: nat | j < |s|
      ensures !MatchesAt(t, SEPARATOR, j)
    {
      assert t[j] == s[j];
      if j + 2 <= |t| {
        assert t[j..j + 2][0] == t[j] && t[j..j + 2][1] == t[j + 1];
      }
    }
    FindIs(t, SEPARATOR, |s|);
  }

  lemma FrameSeparable(fields: seq<Field>)
    requires forall f :: f in fields ==> ValidField(f)
    ensures Separable(PrintFrame(fields), SEPARATOR)
  {
    var lines := PrintLines(fields);
    forall i | 0 <= i < |lines|
      ensures lines[i] != "" && '\n' !in lines[i]
    {
      assert fields[i] in fields;
    }
    JoinedHasNoBlankLine(lines);
    NoBlankLineSeparable(PrintFrame(fields));
  }

  function PrintFrames(frames: seq<seq<Field>>): (r: seq<string>)
    ensures |r| == |frames|
  {
    if frames == [] then [] else [PrintFrame(frames[0])] + PrintFrames(frames[1..])
  }

  lemma {:induction false} StreamSplits(frames: seq<seq<Field>>)
    requires forall i, f :: 0 <= i < |frames| && f in frames[i] ==> ValidField(f)
    ensures Split(PrintStream(frames), SEPARATOR) == PrintFrames(frames) + [""]
    decreases |frames|
  {
    hide Find, PrintFrame;
    if frames == [] {
      assert !Contains("", SEPARATOR);
    } else {
      FrameSeparable(frames[0]);
      SeparableSplit(PrintFrame(frames[0]), PrintStream(frames[1..]), SEPARATOR);
      StreamSplits(frames[1..]);
    }
  }

  lemma {:induction false} FramesDeliver(frames: seq<seq<Field>>)
    requires forall i, f :: 0 <= i < |frames| && f in frames[i] ==> ValidField(f)
    ensures EventsOf(PrintFrames(frames)) == Expected(frames)
    decreases |frames|
  {
    EventsNil();
    hide FrameEvents, EventsOf, PrintFrame, DataOf, NameOf, Join;
    if frames == [] {
    } else {
      FramesDeliver(frames[1..]);
      FrameParses(frames[0]);
      EventsConcat([PrintFrame(frames[0])], PrintFrames(frames[1..]));
      EventsSnoc([], PrintFrame(frames[0]));
      assert [] + [PrintFrame(frames[0])] == [PrintFrame(frames[0])];
    }
  }

  /** End to end: whatever list of frames a server prints and however the network cuts the text, the
      client hands on exactly one event per frame that has data, in order, with its name and its
      joined data, and nothing is left over. */
  lemma EndToEnd(frames: seq<seq<Field>>, chunks: seq<string>)
    requires forall i, f :: 0 <= i < |frames| && f in frames[i] ==> ValidField(f)
    requires Concat(chunks) == PrintStream(frames)
    ensures Feed("", chunks).carry == ""
    ensures EventsOf(Feed("", chunks).frames) == Expected(frames)
  {
    hide Split, Feed, EventsOf;
    ChunkInvariance(chunks);
    StreamSplits(frames);
    FramesDeliver(frames);
    var whole := PrintFrames(frames) + [""];
    assert whole[..|whole| - 1] == PrintFrames(frames);
  }

  /** What the handler is to be called with for an event: JSON keeps its own type or gets the event's name,
      and what is not JSON comes as it is. */
  ghost predicate CallFor(json: JsonParser, e: Event, call: SseEvent) {
    match json(e.data)
    case None => call == Raw(e.name, e.data)
    case Some(value) =>
      && call.Parsed? && call.rest == value.rest
      && (value.kind.Some? ==> call.kind == value.kind.value)
      && (value.kind.None? ==> call.kind == e.name)
  }

  lemma DeliveredFits(json: JsonParser, e: Event)
    ensures CallFor(json, e, Deliver(json, e))
  {
  }

  /** From the server to the handler: whatever frames are printed and however the text is cut, the handler
      is called for the events with data, in order, one call each, until it throws. */
  lemma ServerToHandler(frames: seq<seq<Field>>, chunks: seq<string>, json: JsonParser, throws: Handler,
                        calls: seq<SseEvent>) returns (k: nat)
    requires forall i, f :: 0 <= i < |frames| && f in frames[i] ==> ValidField(f)
    requires Concat(chunks) == PrintStream(frames)
    ensures var handed := FramesHanded(json, throws, calls, Feed("", chunks).frames);
            && k <= |Expected(frames)| && |handed.calls| == |calls| + k && calls <= handed.calls
            && (forall i :: 0 <= i < k ==> CallFor(json, Expected(frames)[i], handed.calls[|calls| + i]))
            && (handed.threw <==> k > 0 && throws(handed.calls))
            && (!handed.threw ==> k == |Expected(frames)|)
            && (forall i :: |calls| < i < |calls| + k ==> !throws(handed.calls[..i]))
  {
    hide Feed, EventsOf, Expected, HandOn, PrintStream, Deliver, CallFor;
    EndToEnd(frames, chunks);
    var events := DeliverAll(json, Expected(frames));
    k := HandedPrefix(throws, calls, events);
    var handed := HandOn(throws, calls, events);
    forall i | 0 <= i < k
      ensures CallFor(json, Expected(frames)[i], handed.calls[|calls| + i])
    {
      DeliveredFits(json, Expected(frames)[i]);
    }
    forall i | |calls| < i < |calls| + k
      ensures !throws(handed.calls[..i])
    {
      assert handed.calls[..i] == calls + events[..i - |calls|];
    }
  }

  /** A stream completes no frame exactly when it has no two newlines in a row; it is then all left in the
      buffer. */
  lemma NothingDeliveredIff(chunks: seq<string>)
    ensures Feed("", chunks).frames == [] <==> !Contains(Concat(chunks), "\n\n")
    ensures Feed("", chunks).frames == [] ==> Feed("", chunks).carry == Concat(chunks)
  {
    ChunkInvariance(chunks);
  }

  /** A stream whose lines end in CR LF never delivers anything. */
  lemma CrlfDeliversNothing(chunks: seq<string>)
    requires var text := Concat(chunks); forall j :: 0 <= j < |text| && text[j] == '\n' ==> j > 0 && text[j - 1] == '\r'
    ensures Feed("", chunks) == Fed([], Concat(chunks))
  {
    var text := Concat(chunks);
    forall j: nat
      ensures !MatchesAt(text, SEPARATOR, j)
    {
      if j + 2 <= |text| {
        var i := j + 1;
        assert text[i] == '\n' ==> text[i - 1] == '\r';
        assert text[j..j + 2][0] == text[j] && text[j..j + 2][1] == text[i];
      }
    }
    NothingDeliveredIff(chunks);
  }
}

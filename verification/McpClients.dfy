/** The request/response correlator of the browser extension: numbered requests, a table of pending
  ones, one timeout each, and reconnection with a growing delay.  Every callback is one atomic step. */
module McpClients {
  import opened Wrappers

  const MAX_RECONNECT_ATTEMPTS := 5
  const RECONNECT_DELAY := 1000

  /** How the promise of a request was settled. */
  datatype Verdict = Answered | Refused | TimedOut | PostFailed

  datatype Settlement = Settlement(id: nat, verdict: Verdict)

  /** `timers` are the armed request timeouts and `settlements` the promises settled so far, in
      order; `reconnects` lists the delays of the reconnections scheduled. */
  datatype State = State(
    connected: bool,
    hasPort: bool,
    messageId: nat,
    pending: set<nat>,
    timers: set<nat>,
    settlements: seq<Settlement>,
    reconnectAttempts: nat,
    reconnects: seq<nat>)

  const INIT := State(false, false, 0, {}, {}, [], 0, [])

  datatype Event =
    | Connect(portOpens: bool, posted: bool)  // and send the handshake
    | Send(posted: bool)
    | Message(reply: Option<nat>, error: bool)
    | Timeout(id: nat)
    | PortDisconnected
    | ConnectionError
    | Disconnect

  function Pow2(n: nat): nat
  {
    if n == 0 then 1 else 2 * Pow2(n - 1)
  }

  function Reconnecting(s: State): State
  {
    if s.reconnectAttempts >= MAX_RECONNECT_ATTEMPTS then s
    else s.(reconnectAttempts := s.reconnectAttempts + 1,
            reconnects := s.reconnects + [RECONNECT_DELAY * Pow2(s.reconnectAttempts)])
  }

  /** Sending without a connection throws and changes nothing. */
  function Sent(s: State, posted: bool): State
  {
    if !s.connected || !s.hasPort then s
    else
      var id := s.messageId + 1;
      if posted then s.(messageId := id, pending := s.pending + {id}, timers := s.timers + {id})
      else s.(messageId := id, pending := s.pending - {id}, timers := s.timers - {id},
              settlements := s.settlements + [Settlement(id, PostFailed)])
  }

  function Settled(s: State, id: nat, verdict: Verdict): State
  {
    s.(pending := s.pending - {id}, timers := s.timers - {id},
       settlements := s.settlements + [Settlement(id, verdict)])
  }

  function Step(s: State, e: Event): State
  {
    match e
    case Connect(portOpens, posted) =>
      if portOpens then Sent(s.(connected := true, hasPort := true, reconnectAttempts := 0), posted)
      else Reconnecting(s.(connected := false))
    case Send(posted) => Sent(s, posted)
    case Message(reply, error) =>
      if reply.Some? && reply.value != 0 && reply.value in s.pending
      then Settled(s, reply.value, if error then Refused else Answered) else s
    case Timeout(id) => if id in s.timers then Settled(s, id, TimedOut) else s
    case PortDisconnected => Reconnecting(s.(connected := false, hasPort := false))
    case ConnectionError => Reconnecting(s.(connected := false))
    case Disconnect => s.(connected := false, hasPort := false)
  }

  function Run(events: seq<Event>): State
  {
    if events == [] then INIT
    else Step(Run(events[..|events| - 1]), events[|events| - 1])
  }

  class MCPClient {
    var connected: bool
    var hasPort: bool
    var messageId: nat
    var pendingRequests: set<nat>
    var timers: set<nat>
    var settlements: seq<Settlement>
    var reconnectAttempts: nat
    var reconnects: seq<nat>

    ghost function View(): State
      reads this
    {
      State(connected, hasPort, messageId, pendingRequests, timers, settlements, reconnectAttempts, reconnects)
    }

    constructor ()
      ensures View() == INIT
    {
      connected, hasPort, messageId := false, false, 0;
      pendingRequests, timers, settlements := {}, {}, [];
      reconnectAttempts, reconnects := 0, [];
    }

    method ConnectClient(portOpens: bool, posted: bool)
      modifies this
      ensures View() == Step(old(View()), Connect(portOpens, posted))
    {
      if !portOpens {
        HandleConnectionError();
        return;
      }
      hasPort := true;
      connected := true;
      reconnectAttempts := 0;
      var _ := SendMessage(posted);
    }

    /** The number of the request, or nothing when the client is not connected. */
    method SendMessage(posted: bool) returns (id: Option<nat>)
      modifies this
      ensures View() == Step(old(View()), Send(posted))
      ensures id == if old(connected && hasPort) then Some(old(messageId) + 1) else None
    {
      if !connected || !hasPort { return None; }
      messageId := messageId + 1;
      timers := timers + {messageId};
      pendingRequests := pendingRequests + {messageId};
      if !posted {
        timers := timers - {messageId};
        pendingRequests := pendingRequests - {messageId};
        Settle(messageId, PostFailed);
      }
      id := Some(messageId);
    }

    method HandleMessage(id: Option<nat>, error: bool)
      modifies this
      ensures View() == Step(old(View()), Message(id, error))
    {
      if id.Some? && id.value != 0 && id.value in pendingRequests {
        pendingRequests := pendingRequests - {id.value};
        timers := timers - {id.value};
        Settle(id.value, if error then Refused else Answered);
      }
    }

    method HandleTimeout(id: nat)
      modifies this
      ensures View() == Step(old(View()), Timeout(id))
    {
      if id in timers {
        timers := timers - {id};
        pendingRequests := pendingRequests - {id};
        Settle(id, TimedOut);
      }
    }

    method Settle(id: nat, verdict: Verdict)
      modifies this`settlements
      ensures settlements == old(settlements) + [Settlement(id, verdict)]
    {
      settlements := settlements + [Settlement(id, verdict)];
    }

    method HandleDisconnect()
      modifies this
      ensures View() == Step(old(View()), PortDisconnected)
    {
      connected := false;
      hasPort := false;
      AttemptReconnect();
    }

    method HandleConnectionError()
      modifies this
      ensures View() == Step(old(View()), ConnectionError)
    {
      connected := false;
      AttemptReconnect();
    }

    method AttemptReconnect()
      modifies this`reconnectAttempts, this`reconnects
      ensures View() == Reconnecting(old(View()))
    {
      if reconnectAttempts >= MAX_RECONNECT_ATTEMPTS { return; }
      reconnectAttempts := reconnectAttempts + 1;
      reconnects := reconnects + [RECONNECT_DELAY * Pow2(reconnectAttempts - 1)];
    }

    method DisconnectClient()
      modifies this
      ensures View() == Step(old(View()), Disconnect)
    {
      if hasPort { hasPort := false; }
      connected := false;
    }
  }

  // ---------------------------------------------------------------------------------------------
  // Exactly-once settlement
  // ---------------------------------------------------------------------------------------------

  function SettledIds(settlements: seq<Settlement>): set<nat>
  {
    set x | x in settlements :: x.id
  }

  /** The numbers given out so far. */
  function Issued(n: nat): (ids: set<nat>)
    ensures forall id :: id in ids <==> 1 <= id <= n
  {
    if n == 0 then {} else Issued(n - 1) + {n}
  }

  ghost predicate Accounted(s: State)
  {
    && s.pending == s.timers
    && s.pending !! SettledIds(s.settlements)
    && s.pending + SettledIds(s.settlements) == Issued(s.messageId)
    && (forall i, j :: 0 <= i < j < |s.settlements| ==> s.settlements[i].id != s.settlements[j].id)
    && s.reconnectAttempts <= MAX_RECONNECT_ATTEMPTS
  }

  lemma SettleKeepsAccount(s: State, id: nat, verdict: Verdict)
    requires Accounted(s) && id in s.pending
    ensures Accounted(Settled(s, id, verdict))
  {
  }

  lemma SettledAppend(settlements: seq<Settlement>, x: Settlement)
    ensures SettledIds(settlements + [x]) == SettledIds(settlements) + {x.id}
  {
  }

  lemma SendKeepsAccount(s: State, posted: bool)
    requires Accounted(s)
    ensures Accounted(Sent(s, posted))
  {
    SettledAppend(s.settlements, Settlement(s.messageId + 1, PostFailed));
    assert forall i :: 0 <= i < |s.settlements| ==> s.settlements[i].id in SettledIds(s.settlements);
    assert Issued(s.messageId + 1) == Issued(s.messageId) + {s.messageId + 1};
    assert s.messageId + 1 !in Issued(s.messageId);
  }

  lemma StepKeepsAccount(s: State, e: Event)
    requires Accounted(s)
    ensures Accounted(Step(s, e))
  {
    match e
    case Connect(portOpens, posted) =>
      if portOpens { SendKeepsAccount(s.(connected := true, hasPort := true, reconnectAttempts := 0), posted); }
    case Send(posted) => SendKeepsAccount(s, posted);
    case Message(reply, error) =>
      if Step(s, e) != s { SettleKeepsAccount(s, reply.value, if error then Refused else Answered); }
    case Timeout(id) => if id in s.timers { SettleKeepsAccount(s, id, TimedOut); }
    case _ =>
  }

  /** After any interleaving, every issued number is pending or settled, never both and never twice;
      the pending ones are exactly those with an armed timer, and no other number was ever used. */
  lemma {:induction false} EveryRequestAccounted(events: seq<Event>)
    ensures Accounted(Run(events))
  {
    if events == [] {
    } else {
      EveryRequestAccounted(events[..|events| - 1]);
      StepKeepsAccount(Run(events[..|events| - 1]), events[|events| - 1]);
    }
  }

  /** What a step does to the settled promises: at most one more is settled, by the event that names
      it; whatever was settled stays as it was, and a message for anything but a pending request
      settles nothing. */
  lemma StepSettlesItsOwn(s: State, e: Event)
    requires Accounted(s)
    ensures var before, after := s.settlements, Step(s, e).settlements;
            && s.messageId <= Step(s, e).messageId <= s.messageId + 1
            && (after == before || exists x :: after == before + [x] && Names(s, e, x))
            && (e.Message? ==> (after != before <==> e.reply.Some? && e.reply.value in s.pending))
            && (e.Timeout? ==> (after != before <==> e.id in s.pending))
  {
  }

  /** The event settles this promise: by its answer, by its timeout, or by failing to post the next
      number. */
  ghost predicate Names(s: State, e: Event, x: Settlement)
  {
    match e
    case Message(reply, error) => reply == Some(x.id) && x.verdict == if error then Refused else Answered
    case Timeout(id) => x == Settlement(id, TimedOut)
    case Send(posted) => !posted && x == Settlement(s.messageId + 1, PostFailed)
    case Connect(portOpens, posted) => portOpens && !posted && x == Settlement(s.messageId + 1, PostFailed)
    case _ => false
  }

  /** The verdict on request `id` after one more event, given how many requests were issued before
      and after it. */
  function NextVerdict(before: Option<Verdict>, issued: nat, e: Event, issuedAfter: nat, id: nat): Option<Verdict>
  {
    if before.Some? then before
    else if 1 <= id <= issued then
      if e.Message? && e.reply == Some(id) then Some(if e.error then Refused else Answered)
      else if e == Timeout(id) then Some(TimedOut)
      else None
    else if issued < id <= issuedAfter && (e.Send? || e.Connect?) && !e.posted then Some(PostFailed)
    else None
  }

  /** The verdict on a request read off the events: the first answer or timeout that names it after it
      was issued, or the failure to post it.  Pending requests and timers play no part in it. */
  function VerdictOf(events: seq<Event>, id: nat): Option<Verdict>
  {
    if events == [] then None
    else
      var init, e := events[..|events| - 1], events[|events| - 1];
      NextVerdict(VerdictOf(init, id), Run(init).messageId, e, Run(events).messageId, id)
  }

  ghost predicate Shows(settlements: seq<Settlement>, id: nat, verdict: Option<Verdict>)
  {
    forall v :: Settlement(id, v) in settlements <==> verdict == Some(v)
  }

  lemma VerdictStep(s: State, e: Event, id: nat, before: Option<Verdict>)
    requires Accounted(s) && Shows(s.settlements, id, before)
    ensures Shows(Step(s, e).settlements, id, NextVerdict(before, s.messageId, e, Step(s, e).messageId, id))
  {
    SettledWhenShown(s.settlements, id, before);
    assert id in s.pending <==> 1 <= id <= s.messageId && before.None? by {
      assert id in Issued(s.messageId) <==> 1 <= id <= s.messageId;
      assert id in s.pending + SettledIds(s.settlements) <==> id in Issued(s.messageId);
    }
    StepSettlesItsOwn(s, e);
  }

  lemma SettledWhenShown(settlements: seq<Settlement>, id: nat, verdict: Option<Verdict>)
    requires Shows(settlements, id, verdict)
    ensures id in SettledIds(settlements) <==> verdict.Some?
  {
  }

  /** Each promise is settled by the first event that names it, and by nothing else; a request is
      pending exactly until then. */
  lemma {:induction false} FirstVerdictCounts(events: seq<Event>, id: nat)
    ensures Shows(Run(events).settlements, id, VerdictOf(events, id))
    ensures id in Run(events).pending <==> 1 <= id <= Run(events).messageId && VerdictOf(events, id).None?
  {
    if events == [] {
    } else {
      var init, e := events[..|events| - 1], events[|events| - 1];
      EveryRequestAccounted(init);
      FirstVerdictCounts(init, id);
      VerdictStep(Run(init), e, id, VerdictOf(init, id));
      EveryRequestAccounted(events);
    }
    SettledWhenShown(Run(events).settlements, id, VerdictOf(events, id));
    assert id in Run(events).pending + SettledIds(Run(events).settlements) <==> id in Issued(Run(events).messageId);
  }

  function FireAll(s: State, ids: seq<nat>): State
    decreases |ids|
  {
    if ids == [] then s else FireAll(Step(s, Timeout(ids[0])), ids[1..])
  }

  /** Once every armed timer has fired, in any order, nothing is pending and every issued request is
      settled. */
  lemma {:induction false} AllSettleInTheEnd(s: State, ids: seq<nat>)
    requires Accounted(s) && forall id :: id in s.timers ==> id in ids
    ensures var after := FireAll(s, ids);
            && Accounted(after) && after.pending == {} && after.messageId == s.messageId
            && SettledIds(after.settlements) == Issued(s.messageId)
    decreases |ids|
  {
    if ids == [] {
      assert s.pending == {} && s.pending + SettledIds(s.settlements) == SettledIds(s.settlements);
    } else {
      StepKeepsAccount(s, Timeout(ids[0]));
      var next := Step(s, Timeout(ids[0]));
      forall id | id in next.timers ensures id in ids[1..] {
        assert id in ids && id != ids[0];
      }
      AllSettleInTheEnd(next, ids[1..]);
    }
  }

  ghost predicate Delays(reconnects: seq<nat>)
  {
    forall d :: d in reconnects ==> d in {1000, 2000, 4000, 8000, 16000}
  }

  lemma ReconnectingKeepsDelays(s: State)
    requires Delays(s.reconnects)
    ensures Delays(Reconnecting(s).reconnects)
  {
    assert Pow2(0) == 1 && Pow2(1) == 2 && Pow2(2) == 4 && Pow2(3) == 8 && Pow2(4) == 16;
  }

  lemma StepKeepsDelays(s: State, e: Event)
    requires Delays(s.reconnects)
    ensures Delays(Step(s, e).reconnects)
  {
    ReconnectingKeepsDelays(s);
    ReconnectingKeepsDelays(s.(connected := false));
    ReconnectingKeepsDelays(s.(connected := false, hasPort := false));
  }

  /** Reconnections wait 1, 2, 4, 8 or 16 seconds. */
  lemma {:induction false} DelaysAreBounded(events: seq<Event>)
    ensures Delays(Run(events).reconnects)
  {
    if events == [] {
    } else {
      DelaysAreBounded(events[..|events| - 1]);
      StepKeepsDelays(Run(events[..|events| - 1]), events[|events| - 1]);
    }
  }

  predicate Opens(e: Event)
  {
    e.Connect? && e.portOpens
  }

  /** The connection is lost or does not come about. */
  predicate Loses(e: Event)
  {
    e.PortDisconnected? || e.ConnectionError? || (e.Connect? && !e.portOpens)
  }

  /** How often the connection was lost since it was last opened. */
  function LossesSinceOpening(events: seq<Event>): nat
  {
    if events == [] then 0
    else
      var init, e := events[..|events| - 1], events[|events| - 1];
      if Opens(e) then 0 else LossesSinceOpening(init) + if Loses(e) then 1 else 0
  }

  /** The delays that had been scheduled when it was last opened. */
  function DelaysBeforeOpening(events: seq<Event>): seq<nat>
  {
    if events == [] then []
    else
      var init, e := events[..|events| - 1], events[|events| - 1];
      if Opens(e) then Run(init).reconnects else DelaysBeforeOpening(init)
  }

  /** One second, doubled each time, up to sixteen. */
  const DELAYS: seq<nat> := [1000, 2000, 4000, 8000, 16000]

  lemma LossSchedules(s: State, e: Event)
    ensures Opens(e) ==> Step(s, e).reconnectAttempts == 0 && Step(s, e).reconnects == s.reconnects
    ensures Loses(e) && s.reconnectAttempts < MAX_RECONNECT_ATTEMPTS ==>
              && Step(s, e).reconnectAttempts == s.reconnectAttempts + 1
              && Step(s, e).reconnects == s.reconnects + [RECONNECT_DELAY * Pow2(s.reconnectAttempts)]
    ensures !Opens(e) && (Loses(e) ==> s.reconnectAttempts >= MAX_RECONNECT_ATTEMPTS) ==>
              Step(s, e).reconnectAttempts == s.reconnectAttempts && Step(s, e).reconnects == s.reconnects
  {
  }

  /** Since the last opening, each of the first five losses scheduled one retry, with delays doubling from
      one second on, and later losses none. */
  lemma {:induction false} DelaysDouble(events: seq<Event>)
    ensures var s, n := Run(events), if LossesSinceOpening(events) < 5 then LossesSinceOpening(events) else 5;
            s.reconnectAttempts == n && s.reconnects == DelaysBeforeOpening(events) + DELAYS[..n]
  {
    if events == [] {
    } else {
      var init := events[..|events| - 1];
      DelaysDouble(init);
      LossSchedules(Run(init), events[|events| - 1]);
      assert Pow2(0) == 1 && Pow2(1) == 2 && Pow2(2) == 4 && Pow2(3) == 8 && Pow2(4) == 16;
      var n := Run(init).reconnectAttempts;
      if n < 5 { assert DELAYS[..n + 1] == DELAYS[..n] + [RECONNECT_DELAY * Pow2(n)]; }
    }
  }

  // ---------------------------------------------------------------------------------------------
  // Being connected
  // ---------------------------------------------------------------------------------------------

  predicate Closes(e: Event)
  {
    Loses(e) || e.Disconnect?
  }

  /** The connection was opened and has not been lost or closed since. */
  ghost predicate OpenAfter(events: seq<Event>)
  {
    exists i :: 0 <= i < |events| && Opens(events[i]) && forall j :: i < j < |events| ==> !Closes(events[j])
  }

  lemma OpenAppend(init: seq<Event>, e: Event)
    ensures OpenAfter(init + [e]) <==> Opens(e) || (OpenAfter(init) && !Closes(e))
  {
    var events := init + [e];
    if Opens(e) {
      assert Opens(events[|init|]);
    } else {
      if OpenAfter(init) && !Closes(e) {
        var i :| 0 <= i < |init| && Opens(init[i]) && forall j :: i < j < |init| ==> !Closes(init[j]);
        assert Opens(events[i]);
        forall j | i < j < |events| ensures !Closes(events[j]) {
          if j < |init| { assert events[j] == init[j]; }
        }
      }
      if OpenAfter(events) {
        var i :| 0 <= i < |events| && Opens(events[i]) && forall j :: i < j < |events| ==> !Closes(events[j]);
        assert i < |init| && Opens(init[i]) && !Closes(events[|init|]);
        forall j | i < j < |init| ensures !Closes(init[j]) { assert !Closes(events[j]); }
      }
    }
  }

  /** A client is connected exactly while its connection is open, and then it has a port. */
  lemma {:induction false} ConnectedExactly(events: seq<Event>)
    ensures Run(events).connected <==> OpenAfter(events)
    ensures Run(events).connected ==> Run(events).hasPort
  {
    if events == [] {
    } else {
      var init, e := events[..|events| - 1], events[|events| - 1];
      ConnectedExactly(init);
      OpenAppend(init, e);
      assert events == init + [e];
    }
  }

  /** The requests a run sends out: one with every opening, and one for every sending while the connection
      is open. */
  ghost function Requests(events: seq<Event>): nat
  {
    if events == [] then 0
    else
      var init, e := events[..|events| - 1], events[|events| - 1];
      Requests(init) + if Opens(e) || (e.Send? && OpenAfter(init)) then 1 else 0
  }

  /** Each of them gets the next number; sending without a connection throws and changes nothing. */
  lemma {:induction false} NumbersExactly(events: seq<Event>)
    ensures Run(events).messageId == Requests(events)
    ensures forall posted :: !OpenAfter(events) ==> Step(Run(events), Send(posted)) == Run(events)
  {
    ConnectedExactly(events);
    if events == [] {
    } else {
      NumbersExactly(events[..|events| - 1]);
      ConnectedExactly(events[..|events| - 1]);
    }
  }
}

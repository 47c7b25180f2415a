/**
 Requests and responses between cloned client handles and the registry server
 (crates/service-registry/src/client.rs and websocket.rs). The wire may delay, reorder, repeat or lose
 whatever was sent, and carry texts that do not parse.
 */
module Correlation {
  import opened Common

  datatype Json = Null | Value(text: string)

  datatype Message =
    | Request(id: string, action: string, params: Json)
    | Response(id: string, data: Option<Json>, error: Option<string>)
    | Event(event: string, payload: Json)

  /** What arrives as one text frame. */
  datatype Text = Says(message: Message) | Garbage

  /** A null in an optional field is read back as an absent field. */
  function OnWire(m: Message): Message {
    if m.Response? && m.data == Some(Null) then m.(data := None) else m
  }

  // ----- The client -----

  datatype Failure = ServerError(message: string) | EmptyResponse | NotSent | Cancelled

  type Outcome = Result<Json, Failure>

  /** One call of `request`; its position among the calls stands for its one-shot channel. */
  datatype Call = Call(id: string, action: string, params: Json, outcome: Option<Outcome>) {
    function Message(): Message {
      Request(id, action, params)
    }
  }

  /** The shared pending map, the calls so far, what was queued, and whether the handler still runs. */
  datatype Client = Client(pending: map<string, nat>, calls: seq<Call>, outbox: seq<Message>, open: bool)

  /** What a response tells the caller: its error if it has one, else its data. */
  function OutcomeOf(m: Message): Outcome
    requires m.Response?
  {
    if m.error.Some? then Err(ServerError(m.error.value))
    else if m.data.Some? then Ok(m.data.value)
    else Err(EmptyResponse)
  }

  predicate IsFresh(c: Client, id: string) {
    id != "" && forall k :: 0 <= k < |c.calls| ==> c.calls[k].id != id
  }

  function AfterRequest(c: Client, id: string, action: string, params: Json): Client {
    var call := Call(id, action, params, if c.open then None else Some(Err(NotSent)));
    Client(c.pending[id := |c.calls|], c.calls + [call],
           if c.open then c.outbox + [call.Message()] else c.outbox, c.open)
  }

  function Complete(calls: seq<Call>, k: nat, outcome: Outcome): seq<Call> {
    if k < |calls| then calls[k := calls[k].(outcome := Some(outcome))] else calls
  }

  function AfterText(c: Client, text: Text): Client {
    if text.Says? && text.message.Response? && text.message.id in c.pending then
      c.(pending := c.pending - {text.message.id},
         calls := Complete(c.calls, c.pending[text.message.id], OutcomeOf(text.message)))
    else c
  }

  /** The sender of the call's channel is gone although nothing was sent: what wakes a waiting request with an error. */
  predicate IsDropped(c: Client, k: nat)
    requires k < |c.calls|
  {
    c.calls[k].outcome.None? && k !in c.pending.Values
  }

  class WsClient {
    var pending: map<string, nat>
    var calls: seq<Call>
    var outbox: seq<Message>
    var open: bool

    function View(): Client
      reads this
    {
      Client(pending, calls, outbox, open)
    }

    constructor ()
      ensures View() == Client(map[], [], [], true)
    {
      pending, calls, outbox, open := map[], [], [], true;
    }

    /** The part of `request` before the wait. A request that cannot be queued fails, but stays pending. */
    method Request(id: string, action: string, params: Json)
      requires IsFresh(View(), id)
      modifies this
      ensures View() == AfterRequest(old(View()), id, action, params)
      ensures pending == old(pending)[id := |old(calls)|] && open == old(open)
      ensures open ==>
                && outbox == old(outbox) + [Message.Request(id, action, params)]
                && calls == old(calls) + [Call(id, action, params, None)]
      ensures !open ==>
                outbox == old(outbox) && calls == old(calls) + [Call(id, action, params, Some(Err(NotSent)))]
    {
      var channel := |calls|;
      calls := calls + [Call(id, action, params, None)];
      pending := pending[id := channel];
      if open {
        outbox := outbox + [Message.Request(id, action, params)];
      } else {
        calls := calls[channel := calls[channel].(outcome := Some(Err(NotSent)))];
      }
    }

    /** The part of `request` after a wait that failed: clean up, and fail. */
    method Cancel(channel: nat)
      requires channel < |calls| && IsDropped(View(), channel)
      modifies this
      ensures View() == old(View()).(pending := old(pending) - {old(calls)[channel].id},
                                     calls := Complete(old(calls), channel, Err(Cancelled)))
    {
      pending := pending - {calls[channel].id};
      calls := Complete(calls, channel, Err(Cancelled));
    }

    method HandleMessage(text: Text)
      modifies this
      ensures View() == AfterText(old(View()), text)
      ensures outbox == old(outbox) && open == old(open) && |calls| == |old(calls)|
      ensures !(text.Says? && text.message.Response? && text.message.id in old(pending)) ==> View() == old(View())
      ensures text.Says? && text.message.Response? && text.message.id in old(pending) ==>
                var Response(id, data, error) := text.message;
                var channel := old(pending)[id];
                && pending == old(pending) - {id}
                && (forall k :: 0 <= k < |calls| && k != channel ==> calls[k] == old(calls)[k])
                && (channel < |calls| ==>
                      calls[channel] == old(calls)[channel].(outcome := Some(
                        if error.Some? then Err(ServerError(error.value))
                        else if data.Some? then Ok(data.value)
                        else Err(EmptyResponse))))
    {
      if text.Garbage? {
        return;
      }
      match text.message {
        case Response(id, data, error) =>
          if id in pending {
            var channel := pending[id];
            pending := pending - {id};
            if error.Some? {
              calls := Complete(calls, channel, Err(ServerError(error.value)));
            } else if data.Some? {
              calls := Complete(calls, channel, Ok(data.value));
            } else {
              calls := Complete(calls, channel, Err(EmptyResponse));
            }
          }
        case _ =>
      }
    }

    /** The handler's loop is left: on a close, an error or the end of the connection. */
    method Stop()
      modifies this
      ensures View() == old(View()).(open := false)
    {
      open := false;
    }
  }

  // ----- The server -----

  /** What the handler of an action returned. */
  type Answer = Result<Json, string>

  /** A message the server sent, and the request it answers, if any. */
  datatype Sent = Sent(to: Option<Message>, message: Message)

  /** The server's response to a request with this answer. */
  function ResponseTo(id: string, answer: Answer): Message {
    match answer
    case Ok(data) => Response(id, Some(data), None)
    case Err(error) => Response(id, None, Some(error))
  }

  class ConnectionHandler {
    var sent: seq<Sent>
    var subscriptions: set<string>

    constructor ()
      ensures sent == [] && subscriptions == {}
    {
      sent, subscriptions := [], {};
    }

    /** One turn of the message loop, and what the action's handler would answer. */
    method HandleText(text: Text, answer: Answer, parseError: string)
      modifies this`sent
      ensures text.Garbage? ==> sent == old(sent) + [Sent(None, ResponseTo("", Err(parseError)))]
      ensures text.Says? && text.message.Request? ==>
                sent == old(sent) + [Sent(Some(text.message), ResponseTo(text.message.id, answer))]
      ensures text.Says? && !text.message.Request? ==> sent == old(sent)
      ensures sent == old(sent) + Replies(text, answer, parseError)
    {
      if text.Garbage? {
        SendErrorResponse("", None, parseError);
        return;
      }
      match text.message {
        case Request(id, action, params) =>
          match answer {
            case Ok(data) => SendResponse(id, Some(text.message), data);
            case Err(error) => SendErrorResponse(id, Some(text.message), error);
          }
        case _ =>
      }
    }

    method SendResponse(id: string, to: Option<Message>, data: Json)
      modifies this`sent
      ensures sent == old(sent) + [Sent(to, ResponseTo(id, Ok(data)))]
    {
      sent := sent + [Sent(to, Response(id, Some(data), None))];
    }

    method SendErrorResponse(id: string, to: Option<Message>, error: string)
      modifies this`sent
      ensures sent == old(sent) + [Sent(to, ResponseTo(id, Err(error)))]
    {
      sent := sent + [Sent(to, Response(id, None, Some(error)))];
    }

    /** The first message of a connection. */
    method SendInitialState(services: Json)
      modifies this`sent
      ensures sent == old(sent) + [Sent(None, Event("registry_loaded", services))]
    {
      sent := sent + [Sent(None, Event("registry_loaded", services))];
    }

    /** An event is sent exactly to a connection that has subscribed to it. */
    method SendEvent(event: string, data: Json)
      modifies this`sent
      ensures sent == old(sent) + if event in subscriptions then [Sent(None, Event(event, data))] else []
    {
      if event in subscriptions {
        sent := sent + [Sent(None, Event(event, data))];
      }
    }

    /** The connection's part of handling a Subscribe request. */
    method Subscribe(events: seq<string>)
      modifies this`subscriptions
      ensures subscriptions == old(subscriptions) + Elems(events)
    {
      for i := 0 to |events|
        invariant subscriptions == old(subscriptions) + Elems(events[..i])
      {
        assert events[..i + 1] == events[..i] + [events[i]];
        subscriptions := subscriptions + {events[i]};
      }
      assert events[..|events|] == events;
    }

    /** The connection's part of handling an Unsubscribe request. */
    method Unsubscribe(events: seq<string>)
      modifies this`subscriptions
      ensures subscriptions == old(subscriptions) - Elems(events)
    {
      for i := 0 to |events|
        invariant subscriptions == old(subscriptions) - Elems(events[..i])
      {
        assert events[..i + 1] == events[..i] + [events[i]];
        subscriptions := subscriptions - {events[i]};
      }
      assert events[..|events|] == events;
    }
  }

  function Replies(text: Text, answer: Answer, parseError: string): seq<Sent> {
    if text.Garbage? then [Sent(None, ResponseTo("", Err(parseError)))]
    else if text.message.Request? then [Sent(Some(text.message), ResponseTo(text.message.id, answer))]
    else []
  }

  // ----- The protocol -----

  datatype System = System(client: Client, server: seq<Sent>)

  datatype Step =
    | Requests(id: string, action: string, params: Json)
    | Stops
    | ServerGets(text: Text, answer: Answer, parseError: string)
    | ServerSends(event: string, payload: Json)  // any event, so also every one that a subscription lets through
    | ClientGets(text: Text)

  const INITIAL := System(Client(map[], [], [], true), [])

  /** Has the server sent this message, as it is read off the wire? */
  ghost predicate WasSent(server: seq<Sent>, m: Message) {
    exists i :: 0 <= i < |server| && OnWire(server[i].message) == m
  }

  ghost predicate Enabled(s: System, step: Step) {
    match step
    case Requests(id, _, _) => IsFresh(s.client, id)
    case ServerGets(text, _, _) => text.Says? ==> text.message in s.client.outbox
    case ClientGets(text) => s.client.open && (text.Says? ==> WasSent(s.server, text.message))
    case _ => true
  }

  function Next(s: System, step: Step): System {
    match step
    case Requests(id, action, params) => s.(client := AfterRequest(s.client, id, action, params))
    case Stops => s.(client := s.client.(open := false))
    case ServerGets(text, answer, parseError) => s.(server := s.server + Replies(text, answer, parseError))
    case ServerSends(event, data) => s.(server := s.server + [Sent(None, Event(event, data))])
    case ClientGets(text) => s.(client := AfterText(s.client, text))
  }

  function Run(steps: seq<Step>): System {
    if steps == [] then INITIAL else Next(Run(steps[..|steps| - 1]), steps[|steps| - 1])
  }

  /** Every step of the run is enabled where it is taken. */
  ghost predicate IsRun(steps: seq<Step>) {
    steps == [] || (IsRun(steps[..|steps| - 1]) && Enabled(Run(steps[..|steps| - 1]), steps[|steps| - 1]))
  }

  // ----- What every run keeps -----

  /** A call is pending until a response is delivered for it: also when it could not be sent. */
  predicate Unanswered(call: Call) {
    call.outcome.None? || call.outcome.value == Err(NotSent)
  }

  /** The pending map holds exactly the unanswered calls, each under its own id; ids are not shared. */
  ghost predicate PendingIsUnanswered(c: Client) {
    && (forall id :: id in c.pending ==> c.pending[id] < |c.calls| && c.calls[c.pending[id]].id == id)
    && (forall k :: 0 <= k < |c.calls| ==> (c.calls[k].id in c.pending <==> Unanswered(c.calls[k])))
    && (forall k :: 0 <= k < |c.calls| ==> c.calls[k].id != "")
    && (forall j, k :: 0 <= j < k < |c.calls| ==> c.calls[j].id != c.calls[k].id)
  }

  /** The messages queued are the requests of calls. */
  ghost predicate OutboxIsCalls(c: Client) {
    forall m :: m in c.outbox ==> IsCall(c, m)
  }

  ghost predicate IsCall(c: Client, m: Message) {
    exists k :: 0 <= k < |c.calls| && c.calls[k].Message() == m
  }

  /** While the handler runs every call could be sent. */
  predicate OpenSends(c: Client) {
    c.open ==> forall k :: 0 <= k < |c.calls| ==> c.calls[k].outcome != Some(Err(NotSent))
  }

  /** The server answers only requests that were queued, each under its own id; its other responses carry no id. */
  ghost predicate IsReply(c: Client, sent: Sent) {
    match sent.to
    case None => sent.message.Response? ==> sent.message.id == ""
    case Some(request) => request in c.outbox && request.Request? && exists answer ::
        sent.message == ResponseTo(request.id, answer)
  }

  ghost predicate RepliesToOutbox(s: System) {
    forall i :: 0 <= i < |s.server| ==> IsReply(s.client, s.server[i])
  }

  /** The call's outcome is what a response of the server to its very request says. */
  ghost predicate Told(server: seq<Sent>, call: Call, outcome: Outcome) {
    exists i :: 0 <= i < |server| && Tells(server[i], call, outcome)
  }

  ghost predicate Tells(sent: Sent, call: Call, outcome: Outcome) {
    && sent.to == Some(call.Message()) && sent.message.Response? && sent.message.id == call.id
    && outcome == OutcomeOf(OnWire(sent.message))
  }

  ghost predicate OutcomesAreTold(s: System) {
    forall k :: 0 <= k < |s.client.calls| && s.client.calls[k].outcome.Some? && !Unanswered(s.client.calls[k]) ==>
      Told(s.server, s.client.calls[k], s.client.calls[k].outcome.value)
  }

  ghost predicate Inv(s: System) {
    && PendingIsUnanswered(s.client) && OutboxIsCalls(s.client) && OpenSends(s.client)
    && RepliesToOutbox(s) && OutcomesAreTold(s)
  }

  lemma RequestKeepsPending(c: Client, id: string, action: string, params: Json)
    requires PendingIsUnanswered(c) && IsFresh(c, id)
    ensures PendingIsUnanswered(AfterRequest(c, id, action, params))
  {
    assert forall i :: i in c.pending ==> i != id;
  }

  lemma TextKeepsPending(c: Client, text: Text)
    requires PendingIsUnanswered(c)
    ensures PendingIsUnanswered(AfterText(c, text))
  {
  }

  lemma StepKeepsPending(s: System, step: Step)
    requires PendingIsUnanswered(s.client) && Enabled(s, step)
    ensures PendingIsUnanswered(Next(s, step).client)
  {
    hide AfterRequest, AfterText;
    match step
    case Requests(id, action, params) => RequestKeepsPending(s.client, id, action, params);
    case ClientGets(text) => TextKeepsPending(s.client, text);
    case _ =>
  }

  lemma StepKeepsOutbox(s: System, step: Step)
    requires OutboxIsCalls(s.client) && OpenSends(s.client) && Enabled(s, step)
    ensures OutboxIsCalls(Next(s, step).client) && OpenSends(Next(s, step).client)
  {
    var c, d := s.client, Next(s, step).client;
    assert |c.calls| <= |d.calls| && forall k :: 0 <= k < |c.calls| ==> d.calls[k].Message() == c.calls[k].Message();
    forall m | m in d.outbox
      ensures IsCall(d, m)
    {
      if m in c.outbox {
        var k :| 0 <= k < |c.calls| && c.calls[k].Message() == m;
        assert d.calls[k].Message() == m;
      } else {
        assert d.calls[|c.calls|].Message() == m;
      }
    }
  }

  lemma StepKeepsReplies(s: System, step: Step)
    requires OutboxIsCalls(s.client) && RepliesToOutbox(s) && Enabled(s, step)
    ensures RepliesToOutbox(Next(s, step))
  {
    var t := Next(s, step);
    forall i | 0 <= i < |t.server|
      ensures IsReply(t.client, t.server[i])
    {
      if i < |s.server| {
        assert IsReply(s.client, s.server[i]) && t.server[i] == s.server[i];
        assert forall m :: m in s.client.outbox ==> m in t.client.outbox;
      } else if step.ServerGets? && step.text.Says? {
        assert IsCall(s.client, step.text.message);
      }
    }
  }

  /** A response on its way under the id of a call was sent by the server to the request of that call. */
  lemma ResponseBelongsToCall(s: System, m: Message, k: nat)
    requires PendingIsUnanswered(s.client) && OutboxIsCalls(s.client) && RepliesToOutbox(s)
    requires WasSent(s.server, m) && m.Response? && k < |s.client.calls| && m.id == s.client.calls[k].id
    ensures Told(s.server, s.client.calls[k], OutcomeOf(m))
  {
    var i :| 0 <= i < |s.server| && OnWire(s.server[i].message) == m;
    assert IsReply(s.client, s.server[i]);
    var request := s.server[i].to.value;
    assert IsCall(s.client, request);
    assert Tells(s.server[i], s.client.calls[k], OutcomeOf(m));
  }

  lemma TellsForLonger(server: seq<Sent>, more: seq<Sent>, call: Call, outcome: Outcome)
    requires Told(server, call, outcome)
    ensures Told(server + more, call, outcome)
  {
    var i :| 0 <= i < |server| && Tells(server[i], call, outcome);
    assert (server + more)[i] == server[i];
  }

  lemma StepKeepsOutcomes(s: System, step: Step)
    requires Inv(s) && Enabled(s, step)
    ensures OutcomesAreTold(Next(s, step))
  {
    hide PendingIsUnanswered, OutboxIsCalls, RepliesToOutbox, Told, WasSent, OnWire;
    var t := Next(s, step);
    forall k | 0 <= k < |t.client.calls| && t.client.calls[k].outcome.Some? && !Unanswered(t.client.calls[k])
      ensures Told(t.server, t.client.calls[k], t.client.calls[k].outcome.value)
    {
      if step.ClientGets? {
        CompletedByItsResponse(s, step.text, k);
      } else if step.ServerGets? {
        TellsForLonger(s.server, Replies(step.text, step.answer, step.parseError), s.client.calls[k],
            s.client.calls[k].outcome.value);
      } else if step.ServerSends? {
        TellsForLonger(s.server, [Sent(None, Event(step.event, step.payload))], s.client.calls[k],
            s.client.calls[k].outcome.value);
      }
    }
  }

  lemma CompletedByItsResponse(s: System, text: Text, k: nat)
    requires Inv(s) && Enabled(s, ClientGets(text)) && k < |s.client.calls|
    ensures var call := AfterText(s.client, text).calls[k];
      call.outcome.Some? && !Unanswered(call) ==> Told(s.server, call, call.outcome.value)
  {
    hide Told;
    if text.Says? && text.message.Response? && text.message.id in s.client.pending
       && s.client.pending[text.message.id] == k {
      ResponseBelongsToCall(s, text.message, k);
      SameRequest(s.server, s.client.calls[k], AfterText(s.client, text).calls[k], OutcomeOf(text.message));
    }
  }

  lemma SameRequest(server: seq<Sent>, call: Call, after: Call, outcome: Outcome)
    requires Told(server, call, outcome) && after == call.(outcome := Some(outcome))
    ensures Told(server, after, outcome)
  {
    var i :| 0 <= i < |server| && Tells(server[i], call, outcome);
    assert Tells(server[i], after, outcome);
  }

  /**
   In every run, each completed call was told what the server responded to that same request, and the
   pending ids are exactly those of the unanswered calls.
   */
  lemma {:induction false} RunsKeepInv(steps: seq<Step>)
    requires IsRun(steps)
    ensures Inv(Run(steps))
    decreases |steps|
  {
    if steps == [] {
    } else {
      var s, step := Run(steps[..|steps| - 1]), steps[|steps| - 1];
      RunsKeepInv(steps[..|steps| - 1]);
      StepKeepsPending(s, step);
      StepKeepsOutbox(s, step);
      StepKeepsReplies(s, step);
      StepKeepsOutcomes(s, step);
    }
  }

  // ----- What a run's steps say of its calls -----

  predicate Carries(step: Step, id: string) {
    step.ClientGets? && step.text.Says? && step.text.message.Response? && step.text.message.id == id
  }

  /** The first response under the id that is delivered to the client. */
  function FirstResponse(steps: seq<Step>, id: string): (m: Option<Message>)
    ensures m.Some? ==> m.value.Response?
  {
    if steps == [] then None
    else
      var earlier, step := FirstResponse(steps[..|steps| - 1], id), steps[|steps| - 1];
      if earlier.Some? then earlier else if Carries(step, id) then Some(step.text.message) else None
  }

  /** Is there a request under the id after the handler has stopped? */
  predicate AskedLate(steps: seq<Step>, id: string) {
    exists j :: 0 <= j < |steps| && steps[j].Requests? && steps[j].id == id && Stops in steps[..j]
  }

  lemma AskedLateGrows(steps: seq<Step>, step: Step, id: string)
    ensures AskedLate(steps + [step], id) <==>
            AskedLate(steps, id) || (step.Requests? && step.id == id && Stops in steps)
  {
    var all := steps + [step];
    assert all[..|steps|] == steps;
    assert forall j :: 0 <= j < |steps| ==> all[j] == steps[j] && all[..j] == steps[..j];
    if step.Requests? && step.id == id && Stops in steps {
      assert all[|steps|].Requests? && Stops in all[..|steps|];
    }
  }

  /** What the steps of the run say of a call's outcome. */
  function OutcomeBy(steps: seq<Step>, id: string): Option<Outcome> {
    if AskedLate(steps, id) then Some(Err(NotSent))
    else match FirstResponse(steps, id)
         case None => None
         case Some(m) => Some(OutcomeOf(m))
  }

  /** The requests of a run, in order. */
  function Asked(steps: seq<Step>): seq<Message> {
    if steps == [] then []
    else
      Asked(steps[..|steps| - 1])
      + match steps[|steps| - 1] { case Requests(id, action, params) => [Request(id, action, params)] case _ => [] }
  }

  ghost predicate FollowsSteps(c: Client, steps: seq<Step>) {
    && |c.calls| == |Asked(steps)| && (c.open <==> Stops !in steps)
    && (forall k :: 0 <= k < |c.calls| ==> c.calls[k].Message() == Asked(steps)[k])
    && (forall k :: 0 <= k < |c.calls| ==> c.calls[k].outcome == OutcomeBy(steps, c.calls[k].id))
    && (forall id :: id != "" && (FirstResponse(steps, id).Some? || AskedLate(steps, id)) ==> IdUsed(c, id))
  }

  ghost predicate IdUsed(c: Client, id: string) {
    exists k :: 0 <= k < |c.calls| && c.calls[k].id == id
  }

  lemma RequestFollows(s: System, steps: seq<Step>, step: Step)
    requires Inv(s) && FollowsSteps(s.client, steps) && step.Requests? && Enabled(s, step)
    ensures FollowsSteps(Next(s, step).client, steps + [step])
  {
    hide Inv;
    var c, d, all := s.client, Next(s, step).client, steps + [step];
    assert all[..|steps|] == steps;
    assert !IdUsed(c, step.id);
    forall id
      ensures AskedLate(all, id) <==> AskedLate(steps, id) || (step.id == id && Stops in steps)
      ensures FirstResponse(all, id) == FirstResponse(steps, id)
    {
      AskedLateGrows(steps, step, id);
    }
    forall id | IdUsed(c, id) || id == step.id
      ensures IdUsed(d, id)
    {
      if id == step.id {
        assert d.calls[|c.calls|].id == id;
      } else {
        var k :| 0 <= k < |c.calls| && c.calls[k].id == id;
        assert d.calls[k].id == id;
      }
    }
  }

  lemma IdsStayUsed(c: Client, d: Client, id: string)
    requires |c.calls| <= |d.calls| && forall k :: 0 <= k < |c.calls| ==> d.calls[k].id == c.calls[k].id
    requires IdUsed(c, id)
    ensures IdUsed(d, id)
  {
    var k :| 0 <= k < |c.calls| && c.calls[k].id == id;
    assert d.calls[k].id == id;
  }

  lemma TextUsesIds(s: System, steps: seq<Step>, step: Step, id: string)
    requires Inv(s) && FollowsSteps(s.client, steps) && step.ClientGets? && Enabled(s, step)
    requires id != "" && (FirstResponse(steps + [step], id).Some? || AskedLate(steps, id))
    ensures IdUsed(s.client, id)
  {
    hide Inv, AskedLate, WasSent, IdUsed;
    assert (steps + [step])[..|steps|] == steps;
    if !FirstResponse(steps, id).Some? && !AskedLate(steps, id) {
      DeliveredIdIsUsed(s, step.text.message);
    }
  }

  lemma TextFollows(s: System, steps: seq<Step>, step: Step)
    requires Inv(s) && FollowsSteps(s.client, steps) && step.ClientGets? && Enabled(s, step)
    ensures FollowsSteps(Next(s, step).client, steps + [step])
  {
    hide OutboxIsCalls, RepliesToOutbox, OutcomesAreTold, WasSent, PendingIsUnanswered, AskedLate, IdUsed;
    hide FirstResponse, OutcomeOf;
    var c, d, all := s.client, Next(s, step).client, steps + [step];
    assert all[..|steps|] == steps && Asked(all) == Asked(steps) + [];
    forall id
      ensures AskedLate(all, id) <==> AskedLate(steps, id)
    {
      AskedLateGrows(steps, step, id);
    }
    TextCompletes(c, steps, step);
    forall id | id != "" && (FirstResponse(all, id).Some? || AskedLate(all, id))
      ensures IdUsed(d, id)
    {
      TextUsesIds(s, steps, step, id);
      IdsStayUsed(c, d, id);
    }
  }

  lemma TextCompletes(c: Client, steps: seq<Step>, step: Step)
    requires PendingIsUnanswered(c) && OpenSends(c) && FollowsSteps(c, steps) && step.ClientGets? && c.open
    requires forall id :: AskedLate(steps + [step], id) <==> AskedLate(steps, id)
    ensures var d := AfterText(c, step.text);
      |d.calls| == |c.calls| && forall k :: 0 <= k < |c.calls| ==>
          d.calls[k].outcome == OutcomeBy(steps + [step], c.calls[k].id)
  {
    hide AskedLate, Asked, IdUsed;
    var d, all := AfterText(c, step.text), steps + [step];
    assert all[..|steps|] == steps;
    forall k | 0 <= k < |c.calls|
      ensures d.calls[k].outcome == OutcomeBy(all, c.calls[k].id)
    {
      assert c.calls[k].outcome == OutcomeBy(steps, c.calls[k].id);
      assert Carries(step, c.calls[k].id) && c.calls[k].outcome.None? ==> c.pending[c.calls[k].id] == k;
    }
  }

  lemma DeliveredIdIsUsed(s: System, m: Message)
    requires Inv(s) && WasSent(s.server, m) && m.Response? && m.id != ""
    ensures IdUsed(s.client, m.id)
  {
    var i :| 0 <= i < |s.server| && OnWire(s.server[i].message) == m;
    assert IsReply(s.client, s.server[i]);
    assert IsCall(s.client, s.server[i].to.value);
  }

  lemma OtherStepFollows(s: System, steps: seq<Step>, step: Step)
    requires Inv(s) && FollowsSteps(s.client, steps) && !step.ClientGets? && !step.Requests?
    ensures FollowsSteps(Next(s, step).client, steps + [step])
  {
    hide Inv;
    var c, d, all := s.client, Next(s, step).client, steps + [step];
    assert all[..|steps|] == steps;
    assert d == c || d == c.(open := false);
    assert forall id :: IdUsed(c, id) ==> IdUsed(d, id);
    forall id
      ensures AskedLate(all, id) <==> AskedLate(steps, id)
      ensures FirstResponse(all, id) == FirstResponse(steps, id)
    {
      AskedLateGrows(steps, step, id);
    }
  }

  lemma {:induction false} RunsFollowSteps(steps: seq<Step>)
    requires IsRun(steps)
    ensures FollowsSteps(Run(steps).client, steps)
    decreases |steps|
  {
    if steps == [] {
    } else {
      var init, step := steps[..|steps| - 1], steps[|steps| - 1];
      RunsFollowSteps(init);
      RunsKeepInv(init);
      assert steps == init + [step];
      match step
      case Requests(_, _, _) => RequestFollows(Run(init), init, step);
      case ClientGets(_) => TextFollows(Run(init), init, step);
      case _ => OtherStepFollows(Run(init), init, step);
    }
  }

  /**
   With fresh ids no channel is ever dropped, so no request is cancelled: every uncompleted call is pending
   under its id.
   */
  lemma NoneIsCancelled(steps: seq<Step>, k: nat)
    requires IsRun(steps) && k < |Run(steps).client.calls|
    ensures !IsDropped(Run(steps).client, k)
    ensures Run(steps).client.calls[k].outcome.None? ==>
              var c := Run(steps).client;
              c.calls[k].id in c.pending && c.pending[c.calls[k].id] == k
    ensures Run(steps).client.calls[k].outcome != Some(Err(Cancelled))
  {
    RunsKeepInv(steps);
    RunsFollowSteps(steps);
    var c := Run(steps).client;
    if c.calls[k].outcome.None? {
      assert c.calls[k].id in c.pending;
      assert c.pending[c.calls[k].id] in c.pending.Values;
    }
    assert c.calls[k].outcome == OutcomeBy(steps, c.calls[k].id);
  }

  /**
   The calls of any run are its requests, and each call's outcome is that of the first response
   delivered under its id: repeated deliveries and responses under other ids change nothing, and a
   request made after the handler has stopped fails at once.
   */
  lemma CompletedByFirstResponse(steps: seq<Step>, k: nat)
    requires IsRun(steps) && k < |Run(steps).client.calls|
    ensures |Run(steps).client.calls| == |Asked(steps)|
    ensures Run(steps).client.calls[k].Message() == Asked(steps)[k]
    ensures Run(steps).client.calls[k].outcome == OutcomeBy(steps, Run(steps).client.calls[k].id)
  {
    RunsFollowSteps(steps);
  }

  /** A call completes at most once: later steps never change an outcome. */
  lemma {:induction false} CompletedOnce(steps: seq<Step>, n: nat, k: nat)
    requires IsRun(steps) && n <= |steps| && k < |Run(steps[..n]).client.calls|
    requires Run(steps[..n]).client.calls[k].outcome.Some?
    ensures k < |Run(steps).client.calls| && Run(steps).client.calls[k] == Run(steps[..n]).client.calls[k]
    decreases |steps|
  {
    hide OutboxIsCalls, RepliesToOutbox, OutcomesAreTold, WasSent;
    if n < |steps| {
      var init := steps[..|steps| - 1];
      assert init[..n] == steps[..n];
      CompletedOnce(init, n, k);
      RunsKeepInv(init);
    } else {
      assert steps[..n] == steps;
    }
  }

  lemma PendingFollowsSteps(c: Client, steps: seq<Step>)
    requires PendingIsUnanswered(c) && FollowsSteps(c, steps)
    requires forall id :: AskedLate(steps, id) ==> id != ""
    ensures (forall id :: id in c.pending ==> c.calls[c.pending[id]].outcome.None?) <==>
            !exists id :: AskedLate(steps, id)
  {
    hide AskedLate, FirstResponse, Asked;
    if id :| AskedLate(steps, id) {
      assert IdUsed(c, id);
      var k :| 0 <= k < |c.calls| && c.calls[k].id == id;
      assert c.calls[k].outcome == OutcomeBy(steps, id);
      assert id in c.pending && c.pending[id] == k;
    } else {
      forall id | id in c.pending
        ensures c.calls[c.pending[id]].outcome.None?
      {
        assert c.calls[c.pending[id]].outcome == OutcomeBy(steps, id);
      }
    }
  }

  /**
   A pending id belongs to a call that has not completed, unless a request was made after the handler
   stopped: exactly then the map keeps the id of a call that has already failed.
   */
  lemma PendingIsUncompletedExactlyWhen(steps: seq<Step>)
    requires IsRun(steps)
    ensures PendingIsUnanswered(Run(steps).client)
    ensures var c := Run(steps).client;
      (forall id :: id in c.pending ==> c.calls[c.pending[id]].outcome.None?)
      <==> !exists id :: AskedLate(steps, id)
  {
    hide AskedLate, FollowsSteps, Run, PendingIsUnanswered, IsRun;
    RunsKeepInv(steps);
    RunsFollowSteps(steps);
    forall id | AskedLate(steps, id)
      ensures id != ""
    {
      LateIdIsFresh(steps, id);
    }
    PendingFollowsSteps(Run(steps).client, steps);
  }

  /** No request of a run has the empty id, under which the server reports texts it cannot parse. */
  lemma {:induction false} LateIdIsFresh(steps: seq<Step>, id: string)
    requires IsRun(steps) && AskedLate(steps, id)
    ensures id != ""
    decreases |steps|
  {
    var init, step := steps[..|steps| - 1], steps[|steps| - 1];
    assert steps == init + [step];
    AskedLateGrows(init, step, id);
    if AskedLate(init, id) {
      LateIdIsFresh(init, id);
    }
  }

  /** A run in which a pending id belongs to a failed call. */
  lemma FailedCallStaysPending(id: string, action: string, params: Json)
    requires id != ""
    ensures var steps := [Stops, Requests(id, action, params)];
      IsRun(steps) && id in Run(steps).client.pending && Run(steps).client.calls[0].outcome == Some(Err(NotSent))
  {
    var steps := [Stops, Requests(id, action, params)];
    assert steps[..1] == [Stops] && [Stops][..0] == [];
    assert Run([]) == INITIAL && Run([Stops]) == Next(INITIAL, Stops);
    assert IsRun([]) && IsRun([Stops]);
  }

  /** A caller is told the server's answer, except that an answer of null is told as an empty response. */
  lemma ToldTheAnswer(id: string, answer: Answer)
    ensures var told := OutcomeOf(OnWire(ResponseTo(id, answer)));
      && (answer.Err? ==> told == Err(ServerError(answer.error)))
      && (answer.Ok? ==> (told == Ok(answer.value) <==> answer.value != Null))
  {
  }

  // ----- What is sent -----

  /** The steps before the handler stops. */
  function BeforeStop(steps: seq<Step>): seq<Step> {
    if steps == [] || steps[0].Stops? then [] else [steps[0]] + BeforeStop(steps[1..])
  }

  lemma {:induction false} BeforeStopAppend(steps: seq<Step>, step: Step)
    ensures BeforeStop(steps + [step]) ==
            if Stops in steps || step.Stops? then BeforeStop(steps) else BeforeStop(steps) + [step]
    ensures Stops !in steps ==> BeforeStop(steps) == steps
    decreases |steps|
  {
    var all := steps + [step];
    if steps == [] {
      assert all[1..] == [] && BeforeStop([]) == [];
      assert !step.Stops? ==> [step] + [] == [] + [step];
    } else {
      assert all[1..] == steps[1..] + [step];
      BeforeStopAppend(steps[1..], step);
      assert Stops in steps <==> steps[0] == Stops || Stops in steps[1..];
      assert [steps[0]] + (BeforeStop(steps[1..]) + [step]) == [steps[0]] + BeforeStop(steps[1..]) + [step];
    }
  }

  lemma AskedAppend(steps: seq<Step>, step: Step)
    ensures Asked(steps + [step]) ==
            Asked(steps) + if step.Requests? then [Request(step.id, step.action, step.params)] else []
  {
    assert (steps + [step])[..|steps|] == steps;
  }

  /** In every run, what is queued for the server is exactly the requests made before the handler stopped, in order. */
  lemma {:induction false} QueuedExactly(steps: seq<Step>)
    requires IsRun(steps)
    ensures Run(steps).client.outbox == Asked(BeforeStop(steps))
    ensures Run(steps).client.open <==> Stops !in steps
    decreases |steps|
  {
    hide Enabled, Asked, BeforeStop;
    if steps == [] {
      NothingQueued();
    } else {
      var init, step := steps[..|steps| - 1], steps[|steps| - 1];
      assert steps == init + [step];
      QueuedExactly(init);
      BeforeStopAppend(init, step);
      AskedAppend(BeforeStop(init), step);
      assert Asked(BeforeStop(init)) + [] == Asked(BeforeStop(init));
    }
  }

  lemma NothingQueued()
    ensures Asked(BeforeStop([])) == []
  {
  }

  /** Every call that did not fail to be sent is queued just once, and its request may reach the server at any time. */
  lemma SentCallsAreQueuedOnce(steps: seq<Step>, k: nat, answer: Answer)
    requires IsRun(steps) && k < |Run(steps).client.calls|
    ensures var c := Run(steps).client;
      var request := c.calls[k].Message();
      && (c.calls[k].outcome != Some(Err(NotSent)) <==> request in c.outbox)
      && NoDuplicates(c.outbox)
      && (request in c.outbox ==> IsRun(steps + [ServerGets(Says(request), answer, "")]))
  {
    var c, request := Run(steps).client, Run(steps).client.calls[k].Message();
    RunsKeepInv(steps);
    QueuesOfRuns(steps);
    if request in c.outbox {
      var all := steps + [ServerGets(Says(request), answer, "")];
      assert all[..|steps|] == steps;
    }
  }

  /** The queue is the messages of the calls that could be sent, in order, and ids differ. */
  ghost predicate QueueIsSent(c: Client) {
    && (forall k :: 0 <= k < |c.calls| ==>
       (c.calls[k].Message() in c.outbox <==> c.calls[k].outcome != Some(Err(NotSent))))
    && NoDuplicates(c.outbox)
  }

  lemma {:induction false} QueuesOfRuns(steps: seq<Step>)
    requires IsRun(steps)
    ensures QueueIsSent(Run(steps).client)
    decreases |steps|
  {
    hide RepliesToOutbox, OutcomesAreTold, WasSent;
    if steps == [] {
    } else {
      var init, step := steps[..|steps| - 1], steps[|steps| - 1];
      QueuesOfRuns(init);
      RunsKeepInv(init);
      match step {
        case Requests(id, action, params) => RequestQueues(Run(init).client, id, action, params);
        case ClientGets(text) => TextQueues(Run(init).client, text);
        case _ =>
      }
    }
  }

  lemma RequestQueues(c: Client, id: string, action: string, params: Json)
    requires QueueIsSent(c) && OutboxIsCalls(c) && IsFresh(c, id)
    ensures QueueIsSent(AfterRequest(c, id, action, params))
  {
    var request := Request(id, action, params);
    assert request in c.outbox ==> IsCall(c, request);
    assert forall k :: 0 <= k < |c.calls| ==> c.calls[k].Message() != request;
  }

  lemma TextQueues(c: Client, text: Text)
    requires QueueIsSent(c) && PendingIsUnanswered(c) && OpenSends(c) && c.open
    ensures QueueIsSent(AfterText(c, text))
  {
  }
}

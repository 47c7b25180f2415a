/**
 The service registry (crates/service-registry/src/registry.rs) over a backend that is a finite map.
 Each operation is one atomic step. Of an entry only its name and state are kept, of an event its kind
 and the service data that subscribers are sent.
 */
module Registries {
  import opened Common

  datatype ServiceState = Registered | Starting | Running | Stopping | Stopped | Failed

  datatype ServiceEntry = ServiceEntry(name: string, state: ServiceState)

  datatype EventType =
    | ServiceRegistered | ServiceUpdated | ServiceDeregistered | ServiceStateChanged
    | EndpointUpdated | DeploymentProgress | HealthCheckResult | RegistryLoaded

  datatype Event =
    | RegisteredEvent(service: string)
    | StateChangedEvent(service: string, oldState: ServiceState, newState: ServiceState)
    | DeregisteredEvent(service: string)
  {
    function Kind(): EventType {
      match this
      case RegisteredEvent(_) => ServiceRegistered
      case StateChangedEvent(_, _, _) => ServiceStateChanged
      case DeregisteredEvent(_) => ServiceDeregistered
    }
  }

  datatype RegistryError =
    | ServiceExists
    | ServiceNotFound
    | InvalidStateTransition(from: ServiceState, to: ServiceState)

  type Address = string

  predicate IsBlank(s: string) {
    forall i :: 0 <= i < |s| ==> IsWhitespace(s[i])
  }

  /** `ServiceEntry::new`: blank names and versions are refused, and the state is Registered. */
  function NewEntry(name: string, version: string): (entry: Option<ServiceEntry>)
    ensures entry.None? <==>
            (forall c :: c in name ==> IsWhitespace(c)) || (forall c :: c in version ==> IsWhitespace(c))
    ensures entry.Some? ==> entry.value.name == name && entry.value.state.Registered?
  {
    if IsBlank(name) || IsBlank(version) then None else Some(ServiceEntry(name, Registered))
  }

  predicate IsValidTransition(from: ServiceState, to: ServiceState) {
    match (from, to)
    case (_, Failed) => true
    case (Registered, Starting) => true
    case (Stopped, Starting) => true
    case (Failed, Starting) => true
    case (Starting, Running) => true
    case (Running, Stopping) => true
    case (Starting, Stopping) => true
    case (Stopping, Stopped) => true
    case _ => false
  }

  /** The states that a service may enter the given one from. */
  function Predecessors(s: ServiceState): set<ServiceState> {
    match s
    case Registered => {}
    case Starting => {Registered, Stopped, Failed}
    case Running => {Starting}
    case Stopping => {Starting, Running}
    case Stopped => {Stopping}
    case Failed => {Registered, Starting, Running, Stopping, Stopped, Failed}
  }

  lemma ValidFromPredecessors(from: ServiceState, to: ServiceState)
    ensures IsValidTransition(from, to) <==> from in Predecessors(to)
  {
  }

  // ----- Specification on values -----

  datatype State = State(services: map<string, ServiceState>, subscribers: map<Address, set<EventType>>)

  datatype Op =
    | Register(entry: ServiceEntry)
    | UpdateState(name: string, newState: ServiceState)
    | Deregister(name: string)
    | Subscribe(addr: Address, kinds: set<EventType>)
    | Unsubscribe(addr: Address, kinds: set<EventType>)
    | RemoveSubscriber(addr: Address)

  predicate Accepts(st: State, op: Op) {
    match op
    case Register(entry) => entry.name !in st.services
    case UpdateState(name, newState) => name in st.services && IsValidTransition(st.services[name], newState)
    case Deregister(name) => name in st.services
    case _ => true
  }

  function Apply(st: State, op: Op): State {
    if !Accepts(st, op) then st
    else match op
         case Register(entry) => st.(services := st.services[entry.name := entry.state])
         case UpdateState(name, newState) => st.(services := st.services[name := newState])
         case Deregister(name) => st.(services := st.services - {name})
         case Subscribe(addr, kinds) => st.(subscribers := st.subscribers[addr := kinds])
         case Unsubscribe(addr, kinds) => st.(subscribers := WithoutKinds(st.subscribers, addr, kinds))
         case RemoveSubscriber(addr) => st.(subscribers := st.subscribers - {addr})
  }

  function WithoutKinds(subscribers: map<Address, set<EventType>>, addr: Address,
                        kinds: set<EventType>): map<Address, set<EventType>>
  {
    if addr !in subscribers then subscribers
    else if subscribers[addr] - kinds == {} then subscribers - {addr}
    else subscribers[addr := subscribers[addr] - kinds]
  }

  /** The event an operation announces. */
  function Announces(st: State, op: Op): Option<Event> {
    if !Accepts(st, op) then None
    else match op
         case Register(entry) => Some(RegisteredEvent(entry.name))
         case UpdateState(name, newState) => Some(StateChangedEvent(name, st.services[name], newState))
         case Deregister(name) => Some(DeregisteredEvent(name))
         case _ => None
  }

  predicate IsSubscribed(st: State, addr: Address, kind: EventType) {
    addr in st.subscribers && kind in st.subscribers[addr]
  }

  /** The events an operation returns for one address. */
  function EventsTo(addr: Address, st: State, op: Op): seq<Event> {
    match Announces(st, op)
    case None => []
    case Some(e) => if IsSubscribed(st, addr, e.Kind()) then [e] else []
  }

  // ----- The registry -----

  /** The messages for one address, in order. */
  function MessagesTo(addr: Address, messages: seq<(Address, Event)>): seq<Event> {
    if messages == [] then []
    else (if messages[0].0 == addr then [messages[0].1] else []) + MessagesTo(addr, messages[1..])
  }

  lemma {:induction false} MessagesToAppend(addr: Address, a: seq<(Address, Event)>, b: seq<(Address, Event)>)
    ensures MessagesTo(addr, a + b) == MessagesTo(addr, a) + MessagesTo(addr, b)
    decreases |a|
  {
    if a == [] {
      assert a + b == b;
    } else {
      assert (a + b)[0] == a[0] && (a + b)[1..] == a[1..] + b;
      MessagesToAppend(addr, a[1..], b);
      var head := if a[0].0 == addr then [a[0].1] else [];
      assert head + (MessagesTo(addr, a[1..]) + MessagesTo(addr, b)) ==
             head + MessagesTo(addr, a[1..]) + MessagesTo(addr, b);
    }
  }

  /** Each subscriber of the kind is sent the event, once, and no one else is sent anything. */
  ghost predicate IsSentToSubscribers(subscribers: map<Address, set<EventType>>, kind: EventType, event: Event,
                                      messages: seq<(Address, Event)>)
  {
    forall a :: MessagesTo(a, messages) == if a in subscribers && kind in subscribers[a] then [event] else []
  }

  class Registry {
    var backend: map<string, ServiceEntry>
    var subscribers: map<Address, set<EventType>>

    ghost predicate Valid()
      reads this
    {
      forall n :: n in backend ==> backend[n].name == n
    }

    function View(): State
      reads this
    {
      State(map n | n in backend :: backend[n].state, subscribers)
    }

    constructor ()
      ensures Valid() && View() == State(map[], map[])
    {
      backend, subscribers := map[], map[];
    }

    method Register(entry: ServiceEntry) returns (r: Result<seq<(Address, Event)>, RegistryError>)
      requires Valid()
      modifies this
      ensures Valid() && View() == Apply(old(View()), Op.Register(entry))
      ensures r.Ok? <==> Accepts(old(View()), Op.Register(entry))
      ensures r.Ok? ==> forall a :: MessagesTo(a, r.value) == EventsTo(a, old(View()), Op.Register(entry))
      ensures r.Err? ==> r.error == ServiceExists
      ensures r.Ok? <==> entry.name !in old(backend)
      ensures backend == (if r.Ok? then old(backend)[entry.name := entry] else old(backend))
      ensures subscribers == old(subscribers)
      ensures r.Ok? ==> IsSentToSubscribers(subscribers, ServiceRegistered, RegisteredEvent(entry.name), r.value)
    {
      if entry.name in backend {
        return Err(ServiceExists);
      }
      backend := backend[entry.name := entry];
      var events := EmitEvent(RegisteredEvent(entry.name));
      return Ok(events);
    }

    method UpdateState(name: string, newState: ServiceState)
      returns (r: Result<(ServiceState, seq<(Address, Event)>), RegistryError>)
      requires Valid()
      modifies this
      ensures Valid() && View() == Apply(old(View()), Op.UpdateState(name, newState))
      ensures r.Ok? <==> Accepts(old(View()), Op.UpdateState(name, newState))
      ensures r.Ok? ==> r.value.0 == old(View()).services[name]
      ensures r.Ok? ==> forall a :: MessagesTo(a, r.value.1) == EventsTo(a, old(View()), Op.UpdateState(name, newState))
      ensures r.Err? ==> r.error == if name !in old(backend) then ServiceNotFound
                                    else InvalidStateTransition(old(backend)[name].state, newState)
      ensures r.Ok? <==> name in old(backend) && old(backend)[name].state in Predecessors(newState)
      ensures backend == (if r.Ok? then old(backend)[name := ServiceEntry(name, newState)] else old(backend))
      ensures subscribers == old(subscribers)
      ensures r.Ok? ==> r.value.0 == old(backend)[name].state
                        && IsSentToSubscribers(subscribers, ServiceStateChanged,
                                               StateChangedEvent(name, old(backend)[name].state, newState), r.value.1)
    {
      hide IsValidTransition, Predecessors;
      if name !in backend {
        return Err(ServiceNotFound);
      }
      var entry := backend[name];
      var oldState := entry.state;
      ValidFromPredecessors(oldState, newState);
      if !IsValidTransition(oldState, newState) {
        return Err(InvalidStateTransition(oldState, newState));
      }
      entry := entry.(state := newState);
      backend := backend[entry.name := entry];
      var events := EmitEvent(StateChangedEvent(name, oldState, newState));
      return Ok((oldState, events));
    }

    method Deregister(name: string) returns (r: Result<(ServiceEntry, seq<(Address, Event)>), RegistryError>)
      requires Valid()
      modifies this
      ensures Valid() && View() == Apply(old(View()), Op.Deregister(name))
      ensures r.Ok? <==> Accepts(old(View()), Op.Deregister(name))
      ensures r.Ok? ==> r.value.0 == old(backend)[name]
      ensures r.Ok? ==> forall a :: MessagesTo(a, r.value.1) == EventsTo(a, old(View()), Op.Deregister(name))
      ensures r.Err? ==> r.error == ServiceNotFound
      ensures r.Ok? <==> name in old(backend)
      ensures backend == old(backend) - {name} && subscribers == old(subscribers)
      ensures r.Ok? ==> IsSentToSubscribers(subscribers, ServiceDeregistered, DeregisteredEvent(name), r.value.1)
    {
      if name !in backend {
        return Err(ServiceNotFound);
      }
      var entry := backend[name];
      backend := backend - {name};
      var events := EmitEvent(DeregisteredEvent(name));
      return Ok((entry, events));
    }

    method Subscribe(addr: Address, kinds: seq<EventType>)
      requires Valid()
      modifies this`subscribers
      ensures Valid() && View() == Apply(old(View()), Op.Subscribe(addr, Elems(kinds)))
      ensures addr in subscribers && forall k :: k in subscribers[addr] <==> k in kinds
      ensures forall a :: a != addr ==> (a in subscribers <==> a in old(subscribers))
      ensures forall a :: a != addr && a in subscribers ==> subscribers[a] == old(subscribers)[a]
    {
      subscribers := subscribers[addr := Elems(kinds)];
    }

    method Unsubscribe(addr: Address, kinds: seq<EventType>)
      requires Valid()
      modifies this`subscribers
      ensures Valid() && View() == Apply(old(View()), Op.Unsubscribe(addr, Elems(kinds)))
      ensures addr in subscribers <==>
              addr in old(subscribers) && exists k :: k in old(subscribers)[addr] && k !in kinds
      ensures addr in subscribers ==>
                forall k :: k in subscribers[addr] <==> k in old(subscribers)[addr] && k !in kinds
      ensures forall a :: a != addr ==> (a in subscribers <==> a in old(subscribers))
      ensures forall a :: a != addr && a in subscribers ==> subscribers[a] == old(subscribers)[a]
    {
      if addr in subscribers {
        var events := subscribers[addr];
        for i := 0 to |kinds|
          invariant events == subscribers[addr] - Elems(kinds[..i])
        {
          assert kinds[..i + 1] == kinds[..i] + [kinds[i]];
          events := events - {kinds[i]};
        }
        assert kinds[..|kinds|] == kinds;
        assert forall k :: k in events <==> k in subscribers[addr] && k !in kinds;
        assert events != {} ==> exists k :: k in events;
        subscribers := if events == {} then subscribers - {addr} else subscribers[addr := events];
      }
    }

    method RemoveSubscriber(addr: Address)
      requires Valid()
      modifies this`subscribers
      ensures Valid() && View() == Apply(old(View()), Op.RemoveSubscriber(addr))
      ensures addr !in subscribers
      ensures forall a :: a != addr ==> (a in subscribers <==> a in old(subscribers))
      ensures forall a :: a != addr && a in subscribers ==> subscribers[a] == old(subscribers)[a]
    {
      subscribers := subscribers - {addr};
    }

    /** One message to each subscriber of the event's kind, in arbitrary order. */
    method EmitEvent(event: Event) returns (events: seq<(Address, Event)>)
      ensures forall a :: MessagesTo(a, events) == if IsSubscribed(View(), a, event.Kind()) then [event] else []
    {
      events := [];
      var todo := subscribers.Keys;
      while todo != {}
        invariant todo <= subscribers.Keys
        invariant forall a :: MessagesTo(a, events) ==
                    if a !in todo && IsSubscribed(View(), a, event.Kind()) then [event] else []
        decreases todo
      {
        var addr :| addr in todo;
        todo := todo - {addr};
        if event.Kind() in subscribers[addr] {
          forall a
            ensures MessagesTo(a, events + [(addr, event)]) == MessagesTo(a, events) + if a == addr then [event] else []
          {
            MessagesToAppend(a, events, [(addr, event)]);
            assert [(addr, event)][1..] == [];
          }
          events := events + [(addr, event)];
        }
      }
    }
  }

  // ----- Runs -----

  function Run(st: State, ops: seq<Op>): State {
    if ops == [] then st else Apply(Run(st, ops[..|ops| - 1]), ops[|ops| - 1])
  }

  /** The states a service has had since it was last registered; none when it is not registered. */
  function History(name: string, st: State, ops: seq<Op>): seq<ServiceState> {
    if ops == [] then []
    else
      var before, op, past := Run(st, ops[..|ops| - 1]), ops[|ops| - 1], History(name, st, ops[..|ops| - 1]);
      if !Accepts(before, op) then past
      else match op
           case Register(entry) => if entry.name == name then [entry.state] else past
           case UpdateState(n, newState) => if n == name then past + [newState] else past
           case Deregister(n) => if n == name then [] else past
           case _ => past
  }

  /** A path of valid transitions from Registered. */
  ghost predicate IsLifePath(states: seq<ServiceState>) {
    && (states != [] ==> states[0] == Registered)
    && forall i :: 0 <= i < |states| - 1 ==> IsValidTransition(states[i], states[i + 1])
  }

  /**
   On a life path, a running service was just starting, a stopped one was just stopping, none returns to
   Registered, and a service starts only when it is new, stopped or failed.
   */
  lemma {:induction false} LifePathsExactly(states: seq<ServiceState>)
    ensures IsLifePath(states) <==>
              (states == [] || states[0] == Registered)
              && forall i :: 0 < i < |states| ==> states[i - 1] in Predecessors(states[i])
  {
    if IsLifePath(states) {
      forall i | 0 < i < |states|
        ensures states[i - 1] in Predecessors(states[i])
      {
        assert IsValidTransition(states[i - 1], states[i - 1 + 1]);
      }
    }
  }

  /** Between two times of a life path at which a service runs it starts, and between two starts it stops or fails. */
  lemma LifePathsAlternate(states: seq<ServiceState>, i: nat, j: nat)
    requires IsLifePath(states) && i < j < |states| && states[i] == states[j]
    ensures states[j] == Running ==> exists k :: i < k < j && states[k] == Starting
    ensures states[j] == Starting ==> exists k :: i < k < j && states[k] in {Stopped, Failed}
  {
    LifePathsExactly(states);
    assert states[j - 1] in Predecessors(states[j]);
    assert j > 1 ==> states[j - 2] in Predecessors(states[j - 1]);
  }

  /** Every registered entry was built by `ServiceEntry::new`. */
  ghost predicate RegistersNewEntries(ops: seq<Op>) {
    forall op :: op in ops && op.Register? ==> op.entry.state == Registered
  }

  /** Each service's history is a path of valid transitions from Registered to its current state. */
  lemma {:induction false} HistoriesAreLifePaths(name: string, st: State, ops: seq<Op>)
    requires st.services == map[] && RegistersNewEntries(ops)
    ensures var h, now := History(name, st, ops), Run(st, ops);
            && IsLifePath(h)
            && (h != [] <==> name in now.services)
            && (h != [] ==> h[|h| - 1] == now.services[name])
    decreases |ops|
  {
    if ops == [] {
    } else {
      var init := ops[..|ops| - 1];
      assert forall op :: op in init ==> op in ops;
      HistoriesAreLifePaths(name, st, init);
      assert ops[|ops| - 1] in ops;
    }
  }

  /** What a subscriber makes of an event. */
  function Observe(seen: map<string, ServiceState>, e: Event): map<string, ServiceState> {
    match e
    case RegisteredEvent(s) => seen[s := Registered]
    case StateChangedEvent(s, _, newState) => seen[s := newState]
    case DeregisteredEvent(s) => seen - {s}
  }

  function ObserveAll(seen: map<string, ServiceState>, events: seq<Event>): map<string, ServiceState> {
    if events == [] then seen else Observe(ObserveAll(seen, events[..|events| - 1]), events[|events| - 1])
  }

  /** All events a run returns for one address. */
  function EventsOver(addr: Address, st: State, ops: seq<Op>): seq<Event> {
    if ops == [] then []
    else EventsOver(addr, st, ops[..|ops| - 1]) + EventsTo(addr, Run(st, ops[..|ops| - 1]), ops[|ops| - 1])
  }

  /** The address receives registrations, state changes and deregistrations. */
  ghost predicate Follows(st: State, addr: Address) {
    addr in st.subscribers && {ServiceRegistered, ServiceStateChanged, ServiceDeregistered} <= st.subscribers[addr]
  }

  /** The address is subscribed whenever the run announces something. */
  ghost predicate FollowsThroughout(st: State, ops: seq<Op>, addr: Address) {
    ops == [] ||
    var before := Run(st, ops[..|ops| - 1]);
    && FollowsThroughout(st, ops[..|ops| - 1], addr)
    && (Announces(before, ops[|ops| - 1]).Some? ==> Follows(before, addr))
  }

  /** An operation's event, observed, changes the states as the operation does. */
  lemma ObservedStep(st: State, op: Op, addr: Address)
    requires op.Register? ==> op.entry.state == Registered
    requires Announces(st, op).Some? ==> Follows(st, addr)
    ensures Announces(st, op).None? ==> EventsTo(addr, st, op) == [] && Apply(st, op).services == st.services
    ensures Announces(st, op).Some? ==>
              EventsTo(addr, st, op) == [Announces(st, op).value]
                  && Observe(st.services, Announces(st, op).value) == Apply(st, op).services
  {
  }

  lemma ObserveOneMore(seen: map<string, ServiceState>, events: seq<Event>, e: Event)
    ensures ObserveAll(seen, events + [e]) == Observe(ObserveAll(seen, events), e)
  {
    hide Observe;
    assert (events + [e])[..|events|] == events;
  }

  /** A subscriber throughout can rebuild the states of all services from its events. */
  lemma {:induction false} EventsRebuildStates(st: State, ops: seq<Op>, addr: Address)
    requires RegistersNewEntries(ops) && FollowsThroughout(st, ops, addr)
    ensures ObserveAll(st.services, EventsOver(addr, st, ops)) == Run(st, ops).services
    decreases |ops|
  {
    hide Announces, EventsTo, Apply, Observe, Follows, ObserveAll;
    if ops == [] {
      ObserveNothing(st.services);
    } else {
      var init, op := ops[..|ops| - 1], ops[|ops| - 1];
      assert op in ops && forall o :: o in init ==> o in ops;
      EventsRebuildStates(st, init, addr);
      var before, events := Run(st, init), EventsOver(addr, st, init);
      ObservedStep(before, op, addr);
      if Announces(before, op).Some? {
        ObserveOneMore(st.services, events, Announces(before, op).value);
      } else {
        assert events + [] == events;
      }
    }
  }

  lemma ObserveNothing(seen: map<string, ServiceState>)
    ensures ObserveAll(seen, []) == seen
  {
  }

  /** The operations of a run that the registry accepts, where they are asked for. */
  function AcceptedOps(st: State, ops: seq<Op>): seq<Op> {
    if ops == [] then []
    else
      var init, op := ops[..|ops| - 1], ops[|ops| - 1];
      AcceptedOps(st, init) + if Accepts(Run(st, init), op) then [op] else []
  }

  lemma RunOneMore(st: State, ops: seq<Op>, op: Op, addr: Address)
    ensures Run(st, ops + [op]) == Apply(Run(st, ops), op)
    ensures EventsOver(addr, st, ops + [op]) == EventsOver(addr, st, ops) + EventsTo(addr, Run(st, ops), op)
  {
    hide Apply, EventsTo;
    assert (ops + [op])[..|ops|] == ops;
  }

  /**
   Refused operations leave no trace: without them a run gives the same states and sends every address the
   same events.
   */
  lemma {:induction false} RefusedLeaveNoTrace(st: State, ops: seq<Op>, addr: Address)
    ensures Run(st, AcceptedOps(st, ops)) == Run(st, ops)
    ensures EventsOver(addr, st, AcceptedOps(st, ops)) == EventsOver(addr, st, ops)
    decreases |ops|
  {
    if ops == [] {
    } else {
      var init, op := ops[..|ops| - 1], ops[|ops| - 1];
      RefusedLeaveNoTrace(st, init, addr);
      if Accepts(Run(st, init), op) {
        RunOneMore(st, AcceptedOps(st, init), op, addr);
      } else {
        assert AcceptedOps(st, init) + [] == AcceptedOps(st, init);
        assert EventsOver(addr, st, init) + [] == EventsOver(addr, st, init);
      }
    }
  }
}

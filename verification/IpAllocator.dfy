/**
 Address allocation in a subnet (crates/service-registry/src/network/ip_allocator.rs).

 The two address families differ in the size of their address space only. The original's additions
 must not overflow: a new allocator needs `base + 1`, and the search for an address `base + 2`.
 */
module IpAllocation {
  import opened Common

  datatype Family = V4 | V6

  datatype IpAddr = IpAddr(family: Family, bits: nat)

  datatype Subnet = Subnet(family: Family, base: nat, hostBits: nat)

  const GATEWAY := "gateway"

  function Pow2(n: nat): (p: nat)
    ensures p >= 1
  {
    if n == 0 then 1 else 2 * Pow2(n - 1)
  }

  /** The number of addresses of a family. */
  function Space(f: Family): (n: nat)
    ensures n >= 3
  {
    if f.V4? then 0x1_0000_0000 else 0x1_0000_0000_0000_0000_0000_0000_0000_0000
  }

  /** The number of addresses of a subnet. */
  function Size(net: Subnet): (n: nat)
    ensures n >= 1
  {
    Pow2(net.hostBits)
  }

  /** A subnet whose gateway address exists. */
  predicate HasGateway(net: Subnet) {
    net.base + Size(net) <= Space(net.family) && net.base + 1 < Space(net.family)
  }

  /** A subnet that can be searched. */
  predicate ValidSubnet(net: Subnet) {
    HasGateway(net) && net.base + 2 < Space(net.family)
  }

  predicate Contains(net: Subnet, ip: IpAddr) {
    ip.family == net.family && net.base <= ip.bits < net.base + Size(net)
  }

  function Gateway(net: Subnet): IpAddr {
    IpAddr(net.family, net.base + 1)
  }

  // ----- Specification on values -----

  datatype State = State(
    allocations: map<string, IpAddr>,
    ipToService: map<IpAddr, string>,
    allocatedIps: set<IpAddr>)

  function NewState(net: Subnet): State {
    State(map[], map[Gateway(net) := GATEWAY], {Gateway(net)})
  }

  /** How many increments lead from `base + 2` to the address, wrapping around the address space. */
  function Distance(net: Subnet, ip: IpAddr): int {
    if ip.bits >= net.base + 2 then ip.bits - (net.base + 2) else ip.bits + Space(net.family) - (net.base + 2)
  }

  /** The address k increments after `base + 2`. */
  function At(net: Subnet, k: nat): IpAddr
    requires ValidSubnet(net) && k <= Space(net.family)
  {
    var x := net.base + 2 + k;
    IpAddr(net.family, if x < Space(net.family) then x else x - Space(net.family))
  }

  predicate IsFree(net: Subnet, taken: set<IpAddr>, ip: IpAddr) {
    Contains(net, ip) && ip !in taken
  }

  /** The first free address from the k-th on. */
  function ScanFrom(net: Subnet, taken: set<IpAddr>, k: nat): Option<IpAddr>
    requires ValidSubnet(net) && k <= Space(net.family)
    decreases Space(net.family) - k
  {
    if k == Space(net.family) then None
    else if IsFree(net, taken, At(net, k)) then Some(At(net, k))
    else ScanFrom(net, taken, k + 1)
  }

  function FirstFree(net: Subnet, taken: set<IpAddr>): Option<IpAddr>
    requires ValidSubnet(net)
  {
    ScanFrom(net, taken, 0)
  }

  function Record(st: State, name: string, ip: IpAddr): State {
    State(st.allocations[name := ip], st.ipToService[ip := name], st.allocatedIps + {ip})
  }

  function AfterAllocate(net: Subnet, st: State, name: string): (State, Option<IpAddr>)
    requires name in st.allocations || ValidSubnet(net)
  {
    if name in st.allocations then (st, Some(st.allocations[name]))
    else match FirstFree(net, st.allocatedIps)
         case None => (st, None)
         case Some(ip) => (Record(st, name, ip), Some(ip))
  }

  /** Whether allocate_specific accepts: the address is in the subnet and no other name holds it. */
  predicate AcceptsSpecific(net: Subnet, st: State, name: string, ip: IpAddr) {
    Contains(net, ip) && (ip in st.allocatedIps && ip in st.ipToService ==> st.ipToService[ip] == name)
  }

  function AfterAllocateSpecific(net: Subnet, st: State, name: string, ip: IpAddr): State {
    if AcceptsSpecific(net, st, name, ip) then Record(st, name, ip) else st
  }

  function AfterRelease(st: State, name: string): State {
    if name in st.allocations then
      var ip := st.allocations[name];
      State(st.allocations - {name}, st.ipToService - {ip}, st.allocatedIps - {ip})
    else st
  }

  // ----- The allocator -----

  datatype AllocationError = NoAvailableIps | NotInSubnet | AlreadyAllocated

  class IpAllocator {
    const subnet: Subnet
    var allocations: map<string, IpAddr>
    var ipToService: map<IpAddr, string>
    var allocatedIps: set<IpAddr>

    function View(): State
      reads this
    {
      State(allocations, ipToService, allocatedIps)
    }

    constructor (net: Subnet)
      requires HasGateway(net)
      ensures subnet == net && View() == NewState(net)
      ensures allocations == map[] && allocatedIps == {IpAddr(net.family, net.base + 1)}
      ensures ipToService == map[IpAddr(net.family, net.base + 1) := "gateway"]
    {
      subnet := net;
      allocations, ipToService, allocatedIps := map[], map[], {};
      new;
      var gatewayIp := IpAddr(net.family, net.base + 1);
      allocatedIps := allocatedIps + {gatewayIp};
      ipToService := ipToService[gatewayIp := GATEWAY];
    }

    method Allocate(name: string) returns (r: Result<IpAddr, AllocationError>)
      requires name in allocations || ValidSubnet(subnet)
      modifies this
      ensures View() == AfterAllocate(subnet, old(View()), name).0
      ensures r == match AfterAllocate(subnet, old(View()), name).1
                   case None => Err(NoAvailableIps)
                   case Some(ip) => Ok(ip)
      ensures r.Ok? ==> name in allocations && r.value == allocations[name]
      ensures r.Err? || name in old(allocations) ==> View() == old(View())
      ensures r.Ok? && name !in old(allocations) ==>
                && IsFirstFree(subnet, old(allocatedIps), Some(r.value))
                && Contains(subnet, r.value) && r.value !in old(allocatedIps)
                && allocations == old(allocations)[name := r.value]
                && ipToService == old(ipToService)[r.value := name]
                && allocatedIps == old(allocatedIps) + {r.value}
      ensures r.Err? <==> name !in old(allocations) && forall ip :: Contains(subnet, ip) ==> ip in old(allocatedIps)
    {
      if name in allocations {
        return Ok(allocations[name]);
      }
      var found := FindNextAvailable();
      if found.None? {
        return Err(NoAvailableIps);
      }
      var ip := found.value;
      allocations := allocations[name := ip];
      ipToService := ipToService[ip := name];
      allocatedIps := allocatedIps + {ip};
      return Ok(ip);
    }

    method AllocateSpecific(name: string, ip: IpAddr) returns (r: Result<(), AllocationError>)
      modifies this
      ensures View() == AfterAllocateSpecific(subnet, old(View()), name, ip)
      ensures r.Ok? <==> AcceptsSpecific(subnet, old(View()), name, ip)
      ensures r.Err? ==> r.error == if Contains(subnet, ip) then AlreadyAllocated else NotInSubnet
      ensures r.Err? ==> View() == old(View())
      ensures r.Err? <==> !Contains(subnet, ip)
                          || (ip in old(allocatedIps) && ip in old(ipToService) && old(ipToService)[ip] != name)
      ensures r.Ok? ==>
                && allocations == old(allocations)[name := ip] && ipToService == old(ipToService)[ip := name]
                && allocatedIps == old(allocatedIps) + {ip}
    {
      if !Contains(subnet, ip) {
        return Err(NotInSubnet);
      }
      if ip in allocatedIps {
        if ip in ipToService && ipToService[ip] != name {
          return Err(AlreadyAllocated);
        }
      }
      allocations := allocations[name := ip];
      ipToService := ipToService[ip := name];
      allocatedIps := allocatedIps + {ip};
      return Ok(());
    }

    method Release(name: string) returns (r: Option<IpAddr>)
      modifies this
      ensures View() == AfterRelease(old(View()), name)
      ensures r == if name in old(allocations) then Some(old(allocations)[name]) else None
      ensures r.None? ==> View() == old(View())
      ensures r.Some? ==>
                && allocations == old(allocations) - {name} && ipToService == old(ipToService) - {r.value}
                && allocatedIps == old(allocatedIps) - {r.value}
    {
      if name in allocations {
        var ip := allocations[name];
        allocations := allocations - {name};
        ipToService := ipToService - {ip};
        allocatedIps := allocatedIps - {ip};
        return Some(ip);
      }
      return None;
    }

    method FindNextAvailable() returns (r: Option<IpAddr>)
      requires ValidSubnet(subnet)
      ensures r == FirstFree(subnet, allocatedIps) && IsFirstFree(subnet, allocatedIps, r)
      ensures r.None? <==> forall ip :: Contains(subnet, ip) ==> ip in allocatedIps
    {
      FirstFreeIsFirst(subnet, allocatedIps);
      assert forall ip :: IsFree(subnet, allocatedIps, ip) <==> Contains(subnet, ip) && ip !in allocatedIps;
      var startIp := IpAddr(subnet.family, subnet.base + 2);
      var currentIp := startIp;
      ghost var k := 0;
      while true
        invariant k < Space(subnet.family) && currentIp == At(subnet, k)
        invariant FirstFree(subnet, allocatedIps) == ScanFrom(subnet, allocatedIps, k)
        decreases Space(subnet.family) - k
      {
        if Contains(subnet, currentIp) && currentIp !in allocatedIps {
          return Some(currentIp);
        }
        currentIp := IncrementIp(currentIp);
        k := k + 1;
        if currentIp == startIp {
          assert k == Space(subnet.family);
          return None;
        }
      }
    }

    method AllocatedCount() returns (n: nat)
      ensures n == |allocatedIps|
    {
      n := |allocatedIps|;
    }
  }

  /** `wrapping_add(1)`. */
  function IncrementIp(ip: IpAddr): IpAddr {
    ip.(bits := if ip.bits + 1 == Space(ip.family) then 0 else ip.bits + 1)
  }

  // ----- Which address is handed out -----

  /** r is the free address that comes first after `base + 2`, or None when the subnet has no free address. */
  ghost predicate IsFirstFree(net: Subnet, taken: set<IpAddr>, r: Option<IpAddr>) {
    match r
    case None => forall ip :: !IsFree(net, taken, ip)
    case Some(ip) => IsFree(net, taken, ip) && forall other :: IsFree(net, taken, other) ==>
        Distance(net, ip) <= Distance(net, other)
  }

  lemma DistanceInverts(net: Subnet, ip: IpAddr)
    requires ValidSubnet(net) && ip.family == net.family && ip.bits < Space(net.family)
    ensures 0 <= Distance(net, ip) < Space(net.family) && At(net, Distance(net, ip)) == ip
  {
  }

  lemma AtInverts(net: Subnet, k: nat)
    requires ValidSubnet(net) && k < Space(net.family)
    ensures At(net, k).bits < Space(net.family) && Distance(net, At(net, k)) == k
  {
  }

  /** The search finds the first free address in cyclic order, and fails exactly when there is none. */
  lemma FirstFreeIsFirst(net: Subnet, taken: set<IpAddr>)
    requires ValidSubnet(net)
    ensures IsFirstFree(net, taken, FirstFree(net, taken))
  {
    hide Space, Size;
    ScanIsFirst(net, taken, 0);
  }

  lemma {:induction false} ScanIsFirst(net: Subnet, taken: set<IpAddr>, k: nat)
    requires ValidSubnet(net) && k <= Space(net.family)
    requires forall ip :: IsFree(net, taken, ip) ==> Distance(net, ip) >= k
    ensures IsFirstFree(net, taken, ScanFrom(net, taken, k))
    decreases Space(net.family) - k
  {
    hide Space, Size;
    if k == Space(net.family) {
      forall ip | IsFree(net, taken, ip)
        ensures false
      {
        DistanceInverts(net, ip);
      }
    } else {
      AtInverts(net, k);
      if !IsFree(net, taken, At(net, k)) {
        forall ip | IsFree(net, taken, ip)
          ensures Distance(net, ip) >= k + 1
        {
          DistanceInverts(net, ip);
        }
        ScanIsFirst(net, taken, k + 1);
      }
    }
  }

  /** There is only one first free address. */
  lemma FirstFreeIsUnique(net: Subnet, taken: set<IpAddr>, r: Option<IpAddr>)
    requires ValidSubnet(net) && IsFirstFree(net, taken, r)
    ensures r == FirstFree(net, taken)
  {
    hide Space, Size;
    FirstFreeIsFirst(net, taken);
    var found := FirstFree(net, taken);
    if r.Some? && found.Some? {
      DistanceInverts(net, r.value);
      DistanceInverts(net, found.value);
    }
  }

  // ----- Runs -----

  datatype Op = Allocate(name: string) | AllocateSpecific(name: string, ip: IpAddr) | Release(name: string)

  function Apply(net: Subnet, st: State, op: Op): State
    requires ValidSubnet(net)
  {
    match op
    case Allocate(name) => AfterAllocate(net, st, name).0
    case AllocateSpecific(name, ip) => AfterAllocateSpecific(net, st, name, ip)
    case Release(name) => AfterRelease(st, name)
  }

  /** The state after a run of operations on a new allocator. */
  function RunOps(net: Subnet, ops: seq<Op>): State
    requires ValidSubnet(net)
  {
    if ops == [] then NewState(net) else Apply(net, RunOps(net, ops[..|ops| - 1]), ops[|ops| - 1])
  }

  /** The three collections agree: names and addresses map to each other. */
  ghost predicate Agrees(net: Subnet, st: State) {
    && st.ipToService.Keys == st.allocatedIps
    && forall n :: n in st.allocations ==>
         var ip := st.allocations[n];
         Contains(net, ip) && ip in st.ipToService && st.ipToService[ip] == n
  }

  lemma StepAgrees(net: Subnet, st: State, op: Op)
    requires ValidSubnet(net) && Agrees(net, st)
    ensures Agrees(net, Apply(net, st, op))
  {
    hide Space, Size, FirstFree;
    FirstFreeIsFirst(net, st.allocatedIps);
  }

  /** After every run, names and addresses map to each other, so no two names share an address. */
  lemma {:induction false} RunsAgree(net: Subnet, ops: seq<Op>)
    requires ValidSubnet(net)
    ensures Agrees(net, RunOps(net, ops))
    ensures var a := RunOps(net, ops).allocations; forall m, n :: m in a && n in a && a[m] == a[n] ==> m == n
    decreases |ops|
  {
    hide ValidSubnet, Contains;
    if ops == [] {
    } else {
      RunsAgree(net, ops[..|ops| - 1]);
      StepAgrees(net, RunOps(net, ops[..|ops| - 1]), ops[|ops| - 1]);
    }
  }

  // ----- What the names are told -----

  /** No operation of the run pins the gateway's address. */
  predicate LeavesGateway(net: Subnet, ops: seq<Op>) {
    forall op :: op in ops ==> !PinsGateway(net, op)
  }

  /**
   Whatever run came before, a name is told the address it then holds: an address of the subnet that no
   other name holds, and not the gateway's unless that was pinned. It is told none exactly when it has
   none and all addresses of the subnet are taken.
   */
  lemma AnswersOverRuns(net: Subnet, ops: seq<Op>, name: string)
    requires ValidSubnet(net)
    ensures var st := RunOps(net, ops);
      var (next, answer) := AfterAllocate(net, st, name);
      && (answer.Some? ==>
            && name in next.allocations && next.allocations[name] == answer.value && Contains(net, answer.value)
            && (forall m :: m in next.allocations && m != name ==> next.allocations[m] != answer.value)
            && (LeavesGateway(net, ops) ==> answer.value != Gateway(net)))
      && (answer.None? <==> name !in st.allocations && forall ip :: Contains(net, ip) ==> ip in st.allocatedIps)
  {
    hide Space, Size, FirstFree, Contains, ValidSubnet;
    var all := ops + [Allocate(name)];
    assert all[..|ops|] == ops;
    FirstFreeIsFirst(net, RunOps(net, ops).allocatedIps);
    assert forall ip :: IsFree(net, RunOps(net, ops).allocatedIps, ip) <==>
             Contains(net, ip) && ip !in RunOps(net, ops).allocatedIps;
    RunsAgree(net, all);
    RunsAgree(net, ops);
    if LeavesGateway(net, ops) {
      assert forall op :: op in all ==> !PinsGateway(net, op);
      CountedExactlyWhen(net, all);
    }
  }

  // ----- Conservation -----

  /** Addresses that are marked allocated although no name has them: neither a name's nor the gateway's. */
  function LeftBehind(net: Subnet, st: State): set<IpAddr> {
    st.allocatedIps - st.allocations.Values - {Gateway(net)}
  }

  /** The operation pins the gateway's address under the name "gateway". */
  predicate PinsGateway(net: Subnet, op: Op) {
    op == AllocateSpecific(GATEWAY, Gateway(net))
  }

  /** The operation moves a name that already has another address. */
  predicate Moves(net: Subnet, st: State, op: Op) {
    op.AllocateSpecific? && AcceptsSpecific(net, st, op.name, op.ip) && op.name in st.allocations
        && st.allocations[op.name] != op.ip
  }

  /** The gateway's address is marked allocated, to the gateway only. */
  ghost predicate GatewayReserved(net: Subnet, st: State) {
    && Gateway(net) in st.allocatedIps && Gateway(net) in st.ipToService && st.ipToService[Gateway(net)] == GATEWAY
    && forall n :: n in st.allocations ==> st.allocations[n] != Gateway(net)
  }

  /** What one operation leaves behind: the old address of a name it moves; what it pins is no longer left behind. */
  lemma StepLeavesBehind(net: Subnet, st: State, op: Op)
    requires ValidSubnet(net) && Agrees(net, st) && GatewayReserved(net, st) && !PinsGateway(net, op)
    ensures GatewayReserved(net, Apply(net, st, op))
    ensures LeftBehind(net, Apply(net, st, op)) ==
            if Moves(net, st, op) then LeftBehind(net, st) - {op.ip} + {st.allocations[op.name]}
            else if op.AllocateSpecific? then
              LeftBehind(net, st) - (if AcceptsSpecific(net, st, op.name, op.ip) then {op.ip} else {})
            else LeftBehind(net, st)
  {
    hide Space, Size, FirstFree, Contains, ValidSubnet;
    FirstFreeIsFirst(net, st.allocatedIps);
    var next := Apply(net, st, op);
    match op {
      case Allocate(name) =>
        if name !in st.allocations && FirstFree(net, st.allocatedIps).Some? {
          var ip := FirstFree(net, st.allocatedIps).value;
          assert ip !in st.allocatedIps;
          RecordValues(st, name, ip);
        }
      case AllocateSpecific(name, ip) =>
        if AcceptsSpecific(net, st, name, ip) {
          RecordValues(st, name, ip);
        }
      case Release(name) =>
        if name in st.allocations {
          ReleaseValues(net, st, name);
        }
    }
  }

  lemma RecordValues(st: State, name: string, ip: IpAddr)
    ensures name !in st.allocations ==> Record(st, name, ip).allocations.Values == st.allocations.Values + {ip}
    ensures name in st.allocations
            && (forall n :: n in st.allocations && n != name ==> st.allocations[n] != st.allocations[name]) ==>
              Record(st, name, ip).allocations.Values == st.allocations.Values - {st.allocations[name]} + {ip}
  {
    var next := st.allocations[name := ip];
    assert next[name] == ip && ip in next.Values;
    assert forall n :: n in st.allocations && n != name ==> next[n] == st.allocations[n];
    if name !in st.allocations {
      forall v | v in st.allocations.Values
        ensures v in next.Values
      {
        var n :| n in st.allocations && st.allocations[n] == v;
        assert next[n] == v;
      }
    } else if forall n :: n in st.allocations && n != name ==> st.allocations[n] != st.allocations[name] {
      forall v | v in st.allocations.Values && v != st.allocations[name]
        ensures v in next.Values
      {
        var n :| n in st.allocations && st.allocations[n] == v;
        assert next[n] == v;
      }
    }
  }

  lemma ReleaseValues(net: Subnet, st: State, name: string)
    requires Agrees(net, st) && name in st.allocations
    ensures AfterRelease(st, name).allocations.Values == st.allocations.Values - {st.allocations[name]}
  {
    var next := st.allocations - {name};
    forall v | v in st.allocations.Values && v != st.allocations[name]
      ensures v in next.Values
    {
      var n :| n in st.allocations && st.allocations[n] == v;
      assert n in next && next[n] == v;
    }
  }

  /** No operation of the run pins the gateway's address or moves a name. */
  predicate Steady(net: Subnet, ops: seq<Op>)
    requires ValidSubnet(net)
  {
    ops == [] ||
    var before, op := RunOps(net, ops[..|ops| - 1]), ops[|ops| - 1];
    Steady(net, ops[..|ops| - 1]) && !PinsGateway(net, op) && !Moves(net, before, op)
  }

  /** The addresses in use are counted once each: the gateway's, the names', and those left behind. */
  lemma CountSplits(net: Subnet, st: State)
    requires Agrees(net, st) && GatewayReserved(net, st)
    ensures |st.allocatedIps| == 1 + |st.allocations| + |LeftBehind(net, st)|
  {
    ValuesAreCounted(st.allocations);
    GatewayIsNoValue(net, st);
    hide LeftBehind;
    ThreeParts(st.allocatedIps, {Gateway(net)}, st.allocations.Values, LeftBehind(net, st));
  }

  lemma GatewayIsNoValue(net: Subnet, st: State)
    requires Agrees(net, st) && GatewayReserved(net, st)
    ensures Gateway(net) !in st.allocations.Values && st.allocations.Values <= st.allocatedIps
    ensures LeftBehind(net, st) == st.allocatedIps - st.allocations.Values - {Gateway(net)}
  {
  }

  lemma ThreeParts(all: set<IpAddr>, a: set<IpAddr>, b: set<IpAddr>, c: set<IpAddr>)
    requires a <= all && b <= all && a !! b && c == all - b - a
    ensures |all| == |a| + |b| + |c|
  {
    assert all == (a + b) + c;
    assert |a + b| == |a| + |b|;
  }

  lemma {:induction false} ValuesAreCounted(m: map<string, IpAddr>)
    requires forall a, b :: a in m && b in m && m[a] == m[b] ==> a == b
    ensures |m.Values| == |m|
    decreases |m|
  {
    if m.Keys != {} {
      var n :| n in m;
      var rest := m - {n};
      ValuesAreCounted(rest);
      assert rest.Keys == m.Keys - {n};
      assert m.Values == rest.Values + {m[n]} by {
        forall v | v in m.Values
          ensures v in rest.Values + {m[n]}
        {
          var k :| k in m && m[k] == v;
          if k != n {
            assert k in rest && rest[k] == v;
          }
        }
      }
      assert m[n] !in rest.Values;
    } else {
      assert m == map[];
    }
  }

  /** The gateway's address is reserved at every point of the run. */
  ghost predicate ReservedThroughout(net: Subnet, ops: seq<Op>)
    requires ValidSubnet(net)
  {
    GatewayReserved(net, RunOps(net, ops)) && (ops == [] || ReservedThroughout(net, ops[..|ops| - 1]))
  }

  /** An accepted pin takes the gateway's address from the reserve: it becomes a name's. */
  lemma PinTakesGateway(net: Subnet, st: State)
    requires ValidSubnet(net) && Contains(net, Gateway(net)) && GatewayReserved(net, st)
    ensures !GatewayReserved(net, Apply(net, st, AllocateSpecific(GATEWAY, Gateway(net))))
  {
    var next := Apply(net, st, AllocateSpecific(GATEWAY, Gateway(net)));
    assert GATEWAY in next.allocations && next.allocations[GATEWAY] == Gateway(net);
  }

  /**
   The reserved gateway address is never lost exactly when no operation of the run pins it under the name
   "gateway".
   */
  lemma {:induction false} ReservedExactlyWhen(net: Subnet, ops: seq<Op>)
    requires ValidSubnet(net) && Contains(net, Gateway(net))
    ensures ReservedThroughout(net, ops) <==> forall op :: op in ops ==> !PinsGateway(net, op)
    decreases |ops|
  {
    hide ValidSubnet, Contains, GatewayReserved, Apply;
    if ops == [] {
      NewGatewayIsReserved(net);
    } else {
      var init, op := ops[..|ops| - 1], ops[|ops| - 1];
      ReservedExactlyWhen(net, init);
      assert forall o :: o in ops <==> o in init || o == op;
      if ReservedThroughout(net, init) {
        if PinsGateway(net, op) {
          PinTakesGateway(net, RunOps(net, init));
        } else {
          RunsAgree(net, init);
          StepLeavesBehind(net, RunOps(net, init), op);
        }
      }
    }
  }

  lemma NewGatewayIsReserved(net: Subnet)
    ensures GatewayReserved(net, NewState(net)) && LeftBehind(net, NewState(net)) == {}
  {
  }

  /** At every point of the run, the count is one plus the number of names. */
  ghost predicate CountedThroughout(net: Subnet, ops: seq<Op>)
    requires ValidSubnet(net)
  {
    && |RunOps(net, ops).allocatedIps| == 1 + |RunOps(net, ops).allocations|
    && (ops == [] || CountedThroughout(net, ops[..|ops| - 1]))
  }

  /**
   In a run that does not pin the gateway, the count is always one plus the number of names exactly when no
   name moves.
   */
  lemma {:induction false} CountedExactlyWhen(net: Subnet, ops: seq<Op>)
    requires ValidSubnet(net) && forall op :: op in ops ==> !PinsGateway(net, op)
    ensures GatewayReserved(net, RunOps(net, ops))
    ensures CountedThroughout(net, ops) <==> Steady(net, ops)
    ensures Steady(net, ops) ==> LeftBehind(net, RunOps(net, ops)) == {}
    decreases |ops|
  {
    hide ValidSubnet, Contains, GatewayReserved, LeftBehind, Apply;
    if ops == [] {
      NewGatewayIsReserved(net);
    } else {
      var init, op := ops[..|ops| - 1], ops[|ops| - 1];
      assert forall o :: o in init ==> o in ops;
      CountedExactlyWhen(net, init);
      RunsAgree(net, init);
      assert op in ops;
      StepLeavesBehind(net, RunOps(net, init), op);
      RunsAgree(net, ops);
    }
    CountSplits(net, RunOps(net, ops));
  }

  /** A pinned gateway address is released like any other, and is then free. */
  lemma PinnedGatewayIsReleased(net: Subnet)
    requires ValidSubnet(net) && Size(net) >= 2
    ensures var ops := [AllocateSpecific(GATEWAY, Gateway(net)), Release(GATEWAY)];
            IsFree(net, RunOps(net, ops).allocatedIps, Gateway(net))
  {
    hide Space, Size;
    var ops := [AllocateSpecific(GATEWAY, Gateway(net)), Release(GATEWAY)];
    assert ops[..1] == [AllocateSpecific(GATEWAY, Gateway(net))] && ops[..1][..0] == [];
    assert RunOps(net, ops[..1]) == Apply(net, RunOps(net, []), ops[0]);
  }

  // ----- Capacity -----

  /** The k-th address handed out by a new allocator: upwards from `base + 2`, then the network address. */
  function Nth(net: Subnet, k: nat): IpAddr {
    IpAddr(net.family, if k < Size(net) - 2 then net.base + 2 + k else net.base)
  }

  /** The addresses marked allocated after n allocations of fresh names. */
  function TakenAfter(net: Subnet, n: nat): set<IpAddr> {
    {Gateway(net)} + set k | 0 <= k < n :: Nth(net, k)
  }

  lemma NextFree(net: Subnet, n: nat)
    requires ValidSubnet(net) && 2 <= Size(net) && n < Size(net)
    ensures FirstFree(net, TakenAfter(net, n)) == if n < Size(net) - 1 then Some(Nth(net, n)) else None
  {
    hide Size, FirstFree, ScanFrom;
    var taken := TakenAfter(net, n);
    forall ip | IsFree(net, taken, ip)
      ensures n < Size(net) - 1 && Distance(net, Nth(net, n)) <= Distance(net, ip)
    {
      var k := if ip.bits == net.base then Size(net) - 2 else ip.bits - (net.base + 2);
      assert ip != Gateway(net);
      assert ip == Nth(net, k) && k >= n;
    }
    if n < Size(net) - 1 {
      assert Nth(net, n) !in taken;
      FirstFreeIsUnique(net, taken, Some(Nth(net, n)));
    } else {
      FirstFreeIsUnique(net, taken, None);
    }
  }

  function AllocateEach(names: seq<string>): (ops: seq<Op>)
    ensures |ops| == |names| && forall i :: 0 <= i < |names| ==> ops[i] == Allocate(names[i])
  {
    seq(|names|, i requires 0 <= i < |names| => Allocate(names[i]))
  }

  /** The first n names hold the first n addresses, and no other name holds one. */
  ghost predicate HoldsFirst(net: Subnet, names: seq<string>, n: nat, st: State)
    requires n <= |names|
  {
    && st.allocations.Keys == Elems(names[..n])
    && (forall i :: 0 <= i < n ==> names[i] in st.allocations && st.allocations[names[i]] == Nth(net, i))
    && st.allocatedIps == TakenAfter(net, n)
  }

  /** While an address is left, the next name gets the next address. */
  lemma AllocateNext(net: Subnet, names: seq<string>, n: nat, st: State)
    requires ValidSubnet(net) && 2 <= Size(net) && n < Size(net) - 1
    requires n < |names| && names[n] !in names[..n] && HoldsFirst(net, names, n, st)
    ensures HoldsFirst(net, names, n + 1, Apply(net, st, Allocate(names[n])))
  {
    hide FirstFree, Nth, TakenAfter, Size, ValidSubnet;
    NextFree(net, n);
    TakenOneMore(net, n);
    assert names[..n + 1] == names[..n] + [names[n]];
    ElemsAppend(names[..n], [names[n]]);
    assert names[n] !in Elems(names[..n]);
    forall i | 0 <= i < n
      ensures names[i] != names[n]
    {
      assert names[..n][i] == names[i];
    }
  }

  /** When all are taken, a further name gets none and changes nothing. */
  lemma AllocateWhenFull(net: Subnet, names: seq<string>, n: nat, name: string, st: State)
    requires ValidSubnet(net) && 2 <= Size(net) && n == Size(net) - 1
    requires n <= |names| && name !in names[..n] && HoldsFirst(net, names, n, st)
    ensures AfterAllocate(net, st, name) == (st, None)
  {
    hide FirstFree, Nth, TakenAfter, Size, ValidSubnet;
    NextFree(net, n);
    assert name !in Elems(names[..n]);
  }

  lemma {:induction false} CapacityUpTo(net: Subnet, names: seq<string>, m: nat)
    requires ValidSubnet(net) && 2 <= Size(net) && NoDuplicates(names) && m <= |names|
    ensures HoldsFirst(net, names, if m < Size(net) then m else Size(net) - 1, RunOps(net, AllocateEach(names)[..m]))
    decreases m
  {
    hide FirstFree, Nth, TakenAfter, Size, HoldsFirst, ValidSubnet, Apply, AfterAllocate;
    var ops := AllocateEach(names);
    if m == 0 {
      HoldsNothing(net, names);
    } else {
      CapacityUpTo(net, names, m - 1);
      assert ops[..m][..m - 1] == ops[..m - 1] && ops[..m][m - 1] == Allocate(names[m - 1]);
      var st := RunOps(net, ops[..m - 1]);
      if m < Size(net) {
        AllocateNext(net, names, m - 1, st);
      } else {
        AllocateWhenFull(net, names, Size(net) - 1, names[m - 1], st);
        ApplyAllocate(net, st, names[m - 1]);
      }
    }
  }

  /**
   A new allocator over 2^h addresses serves exactly 2^h - 1 distinct names, in a fixed order of
   addresses that leaves out only the gateway's, and refuses every further name.
   */
  lemma Capacity(net: Subnet, names: seq<string>)
    requires ValidSubnet(net) && net.hostBits >= 1 && NoDuplicates(names)
    ensures var cap := Pow2(net.hostBits) - 1;
            HoldsFirst(net, names, if |names| <= cap then |names| else cap, RunOps(net, AllocateEach(names)))
  {
    assert Size(net) == 2 * Pow2(net.hostBits - 1);
    CapacityUpTo(net, names, |names|);
    assert AllocateEach(names)[..|names|] == AllocateEach(names);
  }

  lemma ApplyAllocate(net: Subnet, st: State, name: string)
    requires ValidSubnet(net)
    ensures Apply(net, st, Allocate(name)) == AfterAllocate(net, st, name).0
  {
  }

  lemma HoldsNothing(net: Subnet, names: seq<string>)
    requires ValidSubnet(net)
    ensures HoldsFirst(net, names, 0, RunOps(net, AllocateEach(names)[..0]))
  {
    NothingTaken(net);
  }

  lemma NothingTaken(net: Subnet)
    ensures TakenAfter(net, 0) == {Gateway(net)}
  {
  }

  lemma TakenOneMore(net: Subnet, n: nat)
    ensures TakenAfter(net, n + 1) == TakenAfter(net, n) + {Nth(net, n)}
  {
    hide Nth;
  }

  /** The addresses handed out are different addresses of the subnet, and none is the gateway's. */
  lemma NthAddresses(net: Subnet)
    requires ValidSubnet(net) && Size(net) >= 2
    ensures forall k :: 0 <= k < Size(net) - 1 ==> Contains(net, Nth(net, k)) && Nth(net, k) != Gateway(net)
    ensures forall j, k :: 0 <= j < k < Size(net) - 1 ==> Nth(net, j) != Nth(net, k)
    ensures forall ip :: Contains(net, ip) && ip != Gateway(net) ==>
            exists k :: 0 <= k < Size(net) - 1 && ip == Nth(net, k)
  {
    hide Size;
    forall ip | Contains(net, ip) && ip != Gateway(net)
      ensures exists k :: 0 <= k < Size(net) - 1 && ip == Nth(net, k)
    {
      var k := if ip.bits == net.base then Size(net) - 2 else ip.bits - (net.base + 2);
      assert ip == Nth(net, k);
    }
  }
}

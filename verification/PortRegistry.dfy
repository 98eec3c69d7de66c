/** Stable daemon ports (lib/brain/port-registry.js), run one operation at a time. Which ports can be bound
    is decided by the machine and given to each operation. */
module PortRegistry {
  import opened Basics

  type Ports = map<string, int>
  /** The stored configuration: `portRegistry`, and the legacy `inboxPorts` while it has not been migrated. */
  datatype Config = Config(registry: map<string, Ports>, legacy: Option<Ports>)

  const INBOX := "inbox"

  function DaemonPorts(c: Config, daemon: string): Ports {
    if daemon in c.registry then c.registry[daemon]
    else if daemon == INBOX && c.legacy.Some? then c.legacy.value
    else map[]
  }

  function OtherClaimed(c: Config, daemon: string): set<int> {
    (set d, id | d in c.registry && d != daemon && id in c.registry[d] :: c.registry[d][id])
    + if daemon != INBOX && c.legacy.Some? then c.legacy.value.Values else {}
  }

  function WritePorts(c: Config, daemon: string, ports: Ports): Config {
    Config(c.registry[daemon := ports], if daemon == INBOX then None else c.legacy)
  }

  /** The first port of lo..hi that nobody claimed and that can be bound. */
  function FirstFree(lo: int, hi: int, claimed: set<int>, bindable: int -> bool): (r: Option<int>)
    ensures r.Some? ==> lo <= r.value <= hi && r.value !in claimed && bindable(r.value)
    ensures forall p :: lo <= p < (if r.Some? then r.value else hi + 1) ==> p in claimed || !bindable(p)
    decreases hi - lo
  {
    if lo > hi then None
    else if lo !in claimed && bindable(lo) then Some(lo)
    else FirstFree(lo + 1, hi, claimed, bindable)
  }

  datatype Result = Port(port: int) | NoPort

  function Claim(c: Config, daemon: string, id: string, ports: Ports, claimed: set<int>, lo: int, hi: int,
                 bindable: int -> bool): (Config, Result)
  {
    var port := FirstFree(lo, hi, claimed, bindable);
    if port.None? then (c, NoPort) else (WritePorts(c, daemon, ports[id := port.value]), Port(port.value))
  }

  function Allocate(c: Config, daemon: string, id: string, lo: int, hi: int, bindable: int -> bool): (Config, Result) {
    var ports := DaemonPorts(c, daemon);
    if id in ports then (c, Port(ports[id]))
    else Claim(c, daemon, id, ports, OtherClaimed(c, daemon) + ports.Values, lo, hi, bindable)
  }

  function Reallocate(c: Config, daemon: string, id: string, lo: int, hi: int, bindable: int -> bool)
    : (Config, Result)
  {
    var ports := DaemonPorts(c, daemon);
    if id in ports then
      if bindable(ports[id]) then (c, Port(ports[id]))
      else
        var claimed := OtherClaimed(c, daemon) + (ports - {id}).Values + {ports[id]};
        Claim(c, daemon, id, ports - {id}, claimed, lo, hi, bindable)
    else Claim(c, daemon, id, ports, OtherClaimed(c, daemon) + ports.Values, lo, hi, bindable)
  }

  function Release(c: Config, daemon: string, id: string): Config {
    var ports := DaemonPorts(c, daemon);
    if id in ports then WritePorts(c, daemon, ports - {id}) else c
  }

  // ---- The registry object ----

  class Registry {
    var config: Config

    constructor (config: Config)
      ensures this.config == config
    {
      this.config := config;
    }

    method ScanAndClaim(daemon: string, id: string, ports: Ports, claimed: set<int>, lo: int, hi: int,
                        bindable: int -> bool) returns (r: Result)
      modifies this
      ensures (config, r) == Claim(old(config), daemon, id, ports, claimed, lo, hi, bindable)
    {
      var port := lo;
      while port <= hi
        invariant FirstFree(lo, hi, claimed, bindable) == FirstFree(port, hi, claimed, bindable)
        decreases hi - port
      {
        if port !in claimed && bindable(port) {
          config := WritePorts(config, daemon, ports[id := port]);
          return Port(port);
        }
        port := port + 1;
      }
      return NoPort;
    }

    method AllocatePort(daemon: string, id: string, lo: int, hi: int, bindable: int -> bool) returns (r: Result)
      modifies this
      ensures (config, r) == Allocate(old(config), daemon, id, lo, hi, bindable)
    {
      var ports := DaemonPorts(config, daemon);
      if id in ports {
        return Port(ports[id]);
      }
      r := ScanAndClaim(daemon, id, ports, OtherClaimed(config, daemon) + ports.Values, lo, hi, bindable);
    }

    method ReallocatePort(daemon: string, id: string, lo: int, hi: int, bindable: int -> bool) returns (r: Result)
      modifies this
      ensures (config, r) == Reallocate(old(config), daemon, id, lo, hi, bindable)
    {
      var ports := DaemonPorts(config, daemon);
      var stale := {};
      if id in ports {
        var existing := ports[id];
        if bindable(existing) {
          return Port(existing);
        }
        ports := ports - {id};
        stale := {existing};
      }
      var claimed := OtherClaimed(config, daemon) + ports.Values + stale;
      r := ScanAndClaim(daemon, id, ports, claimed, lo, hi, bindable);
    }

    method ReleasePort(daemon: string, id: string)
      modifies this
      ensures config == Release(old(config), daemon, id)
    {
      var ports := DaemonPorts(config, daemon);
      if id !in ports {
        return;
      }
      config := WritePorts(config, daemon, ports - {id});
    }
  }

  // ---- Distinct ports ----

  predicate Holds(c: Config, daemon: string, id: string) {
    id in DaemonPorts(c, daemon)
  }

  /** No two allocations share a port, across all daemon types, migrated or not. */
  ghost predicate Distinct(c: Config) {
    forall d1, id1, d2, id2 ::
      Holds(c, d1, id1) && Holds(c, d2, id2) && DaemonPorts(c, d1)[id1] == DaemonPorts(c, d2)[id2] ==>
        d1 == d2 && id1 == id2
  }

  /** Writing one daemon's ports changes no other daemon's, even when the legacy key goes away. */
  lemma WriteIsLocal(c: Config, daemon: string, ports: Ports, other: string)
    ensures DaemonPorts(WritePorts(c, daemon, ports), other) == if other == daemon then ports else DaemonPorts(c, other)
  {
  }

  /** The ports set aside before a scan are all that other allocations use. */
  lemma OthersAreClaimed(c: Config, daemon: string, d: string, id: string)
    requires Holds(c, d, id) && d != daemon
    ensures DaemonPorts(c, d)[id] in OtherClaimed(c, daemon)
  {
  }

  lemma ClaimKeepsDistinct(c: Config, daemon: string, id: string, ports: Ports, claimed: set<int>, lo: int, hi: int,
                           bindable: int -> bool)
    requires Distinct(c)
    requires OtherClaimed(c, daemon) + ports.Values <= claimed
    requires ports == DaemonPorts(c, daemon) - {id}
    ensures Distinct(Claim(c, daemon, id, ports, claimed, lo, hi, bindable).0)
  {
    var (after, r) := Claim(c, daemon, id, ports, claimed, lo, hi, bindable);
    if r.Port? {
      forall d1, id1, d2, id2 | Holds(after, d1, id1) && Holds(after, d2, id2)
                                && DaemonPorts(after, d1)[id1] == DaemonPorts(after, d2)[id2]
        ensures d1 == d2 && id1 == id2
      {
        NewPortIsUnused(c, daemon, id, ports, claimed, r.port, after, d1, id1);
        NewPortIsUnused(c, daemon, id, ports, claimed, r.port, after, d2, id2);
      }
    }
  }

  /** After a claim every allocation but the new one is an old one, on another port. */
  lemma NewPortIsUnused(c: Config, daemon: string, id: string, ports: Ports, claimed: set<int>, port: int,
                        after: Config, d: string, i: string)
    requires OtherClaimed(c, daemon) + ports.Values <= claimed && port !in claimed
    requires ports == DaemonPorts(c, daemon) - {id}
    requires after == WritePorts(c, daemon, ports[id := port]) && Holds(after, d, i)
    ensures if d == daemon && i == id then DaemonPorts(after, d)[i] == port
            else Holds(c, d, i) && DaemonPorts(after, d)[i] == DaemonPorts(c, d)[i] != port
  {
    WriteIsLocal(c, daemon, ports[id := port], d);
    if d != daemon {
      OthersAreClaimed(c, daemon, d, i);
    } else if i != id {
      assert ports[i] in ports.Values;
    }
  }

  // ---- Runs ----

  datatype Op =
    | AllocateOp(daemon: string, id: string, lo: int, hi: int, bindable: int -> bool)
    | ReallocateOp(daemon: string, id: string, lo: int, hi: int, bindable: int -> bool)
    | ReleaseOp(daemon: string, id: string)

  function Step(c: Config, op: Op): Config {
    match op
    case AllocateOp(daemon, id, lo, hi, bindable) => Allocate(c, daemon, id, lo, hi, bindable).0
    case ReallocateOp(daemon, id, lo, hi, bindable) => Reallocate(c, daemon, id, lo, hi, bindable).0
    case ReleaseOp(daemon, id) => Release(c, daemon, id)
  }

  function Run(c: Config, ops: seq<Op>): Config
    decreases |ops|
  {
    if ops == [] then c else Run(Step(c, ops[0]), ops[1..])
  }

  lemma StepKeepsDistinct(c: Config, op: Op)
    requires Distinct(c)
    ensures Distinct(Step(c, op))
  {
    var ports := DaemonPorts(c, op.daemon);
    match op
    case AllocateOp(daemon, id, lo, hi, bindable) =>
      if id !in ports {
        assert ports == ports - {id};
        ClaimKeepsDistinct(c, daemon, id, ports, OtherClaimed(c, daemon) + ports.Values, lo, hi, bindable);
      }
    case ReallocateOp(daemon, id, lo, hi, bindable) =>
      var rest := ports - {id};
      if id !in ports {
        assert ports == rest;
        ClaimKeepsDistinct(c, daemon, id, ports, OtherClaimed(c, daemon) + ports.Values, lo, hi, bindable);
      } else if !bindable(ports[id]) {
        ClaimKeepsDistinct(c, daemon, id, rest, OtherClaimed(c, daemon) + rest.Values + {ports[id]}, lo, hi, bindable);
      }
    case ReleaseOp(daemon, id) =>
      forall d, i | Holds(Step(c, op), d, i)
        ensures Holds(c, d, i) && DaemonPorts(Step(c, op), d)[i] == DaemonPorts(c, d)[i]
      {
        WriteIsLocal(c, daemon, ports - {id}, d);
      }
  }

  /** Over every sequential run, from distinct ports to distinct ports. */
  lemma {:induction false} RunKeepsDistinct(c: Config, ops: seq<Op>)
    requires Distinct(c)
    ensures Distinct(Run(c, ops))
    decreases |ops|
  {
    if ops != [] {
      StepKeepsDistinct(c, ops[0]);
      RunKeepsDistinct(Step(c, ops[0]), ops[1..]);
    }
  }

  /** An operation touches only its own allocation; allocating does not even move that one. So migrating the
      legacy key loses nothing. */
  lemma StepIsLocal(c: Config, op: Op, daemon: string, id: string)
    requires Holds(c, daemon, id)
    requires (op.daemon == daemon && op.id == id) ==> op.AllocateOp?
    ensures Holds(Step(c, op), daemon, id)
    ensures DaemonPorts(Step(c, op), daemon)[id] == DaemonPorts(c, daemon)[id]
  {
  }

  /** Allocation is stable: until it is released or reallocated, an id keeps its port through every run, and
      asking again returns it whatever the machine can bind. */
  lemma {:induction false} AllocationIsStable(c: Config, ops: seq<Op>, daemon: string, id: string, lo: int, hi: int,
                                              bindable: int -> bool)
    requires Holds(c, daemon, id)
    requires forall op :: op in ops && op.daemon == daemon && op.id == id ==> op.AllocateOp?
    ensures Allocate(Run(c, ops), daemon, id, lo, hi, bindable) == (Run(c, ops), Port(DaemonPorts(c, daemon)[id]))
    decreases |ops|
  {
    if ops != [] {
      StepIsLocal(c, ops[0], daemon, id);
      AllocationIsStable(Step(c, ops[0]), ops[1..], daemon, id, lo, hi, bindable);
    }
  }

  /** Every port that some allocation uses. */
  ghost predicate InUse(c: Config, port: int) {
    exists d, id :: Holds(c, d, id) && DaemonPorts(c, d)[id] == port
  }

  /** A fresh allocation lies in range, can be bound and was unused; it fails only if every port of the range is
      recorded in the configuration or cannot be bound, and then nothing changes. */
  lemma AllocateExactly(c: Config, daemon: string, id: string, lo: int, hi: int, bindable: int -> bool)
    requires !Holds(c, daemon, id)
    ensures var (after, r) := Allocate(c, daemon, id, lo, hi, bindable);
            if r.Port? then
              && lo <= r.port <= hi && bindable(r.port) && !InUse(c, r.port)
              && Holds(after, daemon, id) && DaemonPorts(after, daemon)[id] == r.port
            else
              && after == c
              && forall p :: lo <= p <= hi ==>
                   !bindable(p) || p in OtherClaimed(c, daemon) + DaemonPorts(c, daemon).Values
  {
    var (after, r) := Allocate(c, daemon, id, lo, hi, bindable);
    if r.Port? {
      forall d, i | Holds(c, d, i) ensures DaemonPorts(c, d)[i] != r.port {
        if d == daemon {
          assert DaemonPorts(c, d)[i] in DaemonPorts(c, d).Values;
        } else {
          OthersAreClaimed(c, daemon, d, i);
        }
      }
    }
  }

  /** Without a shadowed legacy map, recorded and in use are the same thing. */
  lemma RecordedIsInUse(c: Config, daemon: string, p: int)
    requires c.legacy.Some? ==> INBOX !in c.registry
    ensures p in OtherClaimed(c, daemon) + DaemonPorts(c, daemon).Values <==> InUse(c, p)
  {
    if p in OtherClaimed(c, daemon) {
      if c.legacy.Some? && daemon != INBOX && p in c.legacy.value.Values {
        var id :| id in c.legacy.value && c.legacy.value[id] == p;
        assert Holds(c, INBOX, id);
      } else {
        var d, id :| d in c.registry && d != daemon && id in c.registry[d] && c.registry[d][id] == p;
        assert Holds(c, d, id);
      }
    } else if p in DaemonPorts(c, daemon).Values {
      var id :| id in DaemonPorts(c, daemon) && DaemonPorts(c, daemon)[id] == p;
      assert Holds(c, daemon, id);
    }
    if InUse(c, p) {
      var d, id :| Holds(c, d, id) && DaemonPorts(c, d)[id] == p;
      if d == daemon {
        assert p in DaemonPorts(c, daemon).Values;
      } else {
        OthersAreClaimed(c, daemon, d, id);
      }
    }
  }

  /** Reallocation returns a bindable port: the recorded one, or one of the range that nobody used, the stale one
      included. It fails only if no port of the range is left, and then the old allocation stays. */
  lemma ReallocateNeverReturnsAnOccupiedPort(c: Config, daemon: string, id: string, lo: int, hi: int,
                                             bindable: int -> bool)
    ensures var (after, r) := Reallocate(c, daemon, id, lo, hi, bindable);
            if r.Port? then
              && bindable(r.port) && Holds(after, daemon, id) && DaemonPorts(after, daemon)[id] == r.port
              && (if Holds(c, daemon, id) && DaemonPorts(c, daemon)[id] == r.port then after == c
                  else lo <= r.port <= hi && !InUse(c, r.port))
            else
              && after == c
              && (Holds(c, daemon, id) ==> !bindable(DaemonPorts(c, daemon)[id]))
              && forall p :: lo <= p <= hi ==>
                   !bindable(p) || p in OtherClaimed(c, daemon) + DaemonPorts(c, daemon).Values
  {
    var (after, r) := Reallocate(c, daemon, id, lo, hi, bindable);
    var ports := DaemonPorts(c, daemon);
    if r.Port? && (id in ports ==> ports[id] != r.port) {
      forall d, i | Holds(c, d, i) ensures DaemonPorts(c, d)[i] != r.port {
        if d != daemon {
          OthersAreClaimed(c, daemon, d, i);
        } else if i != id {
          assert (ports - {id})[i] in (ports - {id}).Values;
          assert ports[i] in ports.Values;
        }
      }
    }
  }

  // ---- Operations that overlap ----

  /** The second half of an operation: it writes onto the configuration as it is `now`, on the strength of the one it
      has `read`. */
  function Finish(read: Config, now: Config, op: Op): Config {
    var ports := DaemonPorts(read, op.daemon);
    match op
    case AllocateOp(daemon, id, lo, hi, bindable) =>
      if id in ports then now
      else Claim(now, daemon, id, ports, OtherClaimed(read, daemon) + ports.Values, lo, hi, bindable).0
    case ReallocateOp(daemon, id, lo, hi, bindable) =>
      if id in ports && bindable(ports[id]) then now
      else
        var claimed := OtherClaimed(read, daemon) + (ports - {id}).Values + if id in ports then {ports[id]} else {};
        Claim(now, daemon, id, ports - {id}, claimed, lo, hi, bindable).0
    case ReleaseOp(daemon, id) => if id in ports then WritePorts(now, daemon, ports - {id}) else now
  }

  lemma FinishAtOnce(c: Config, op: Op)
    ensures Finish(c, c, op) == Step(c, op)
  {
    var ports := DaemonPorts(c, op.daemon);
    if op.id !in ports {
      assert ports - {op.id} == ports;
      assert OtherClaimed(c, op.daemon) + ports.Values + {} == OtherClaimed(c, op.daemon) + ports.Values;
    }
  }

  datatype Started = Started(read: Config, op: Op)
  datatype World = World(config: Config, started: map<nat, Started>)
  datatype Event = Begin(who: nat, op: Op) | End(who: nat)

  function Happens(w: World, e: Event): World {
    match e
    case Begin(who, op) => w.(started := w.started[who := Started(w.config, op)])
    case End(who) =>
      if who in w.started then
        World(Finish(w.started[who].read, w.config, w.started[who].op), w.started - {who})
      else w
  }

  function HappenAll(w: World, events: seq<Event>): World
    decreases |events|
  {
    if events == [] then w else HappenAll(Happens(w, events[0]), events[1..])
  }

  /** Every operation writes onto the configuration that it read. */
  predicate UpToDate(w: World, events: seq<Event>)
    decreases |events|
  {
    events == [] ||
    (&& (events[0].End? && events[0].who in w.started ==> w.started[events[0].who].read == w.config)
     && UpToDate(Happens(w, events[0]), events[1..]))
  }

  /** The operations in the order in which they end. */
  function Ended(w: World, events: seq<Event>): seq<Op>
    decreases |events|
  {
    if events == [] then []
    else
      (if events[0].End? && events[0].who in w.started then [w.started[events[0].who].op] else []) +
      Ended(Happens(w, events[0]), events[1..])
  }

  /** Such an interleaving of any operations does what they do one after another; so it keeps ports distinct. */
  lemma {:induction false} UpToDateIsSequential(w: World, events: seq<Event>)
    requires UpToDate(w, events)
    ensures HappenAll(w, events).config == Run(w.config, Ended(w, events))
    ensures Distinct(w.config) ==> Distinct(HappenAll(w, events).config)
    decreases |events|
  {
    if events != [] {
      var e := events[0];
      UpToDateIsSequential(Happens(w, e), events[1..]);
      if e.End? && e.who in w.started {
        var op, rest := w.started[e.who].op, Ended(Happens(w, e), events[1..]);
        FinishAtOnce(w.config, op);
        assert ([op] + rest)[1..] == rest;
      } else {
        assert [] + Ended(Happens(w, e), events[1..]) == Ended(Happens(w, e), events[1..]);
      }
      if Distinct(w.config) {
        RunKeepsDistinct(w.config, Ended(w, events));
      }
    }
  }

  /** The port that a first allocation finds. */
  function FreePort(c: Config, op: Op): Option<int>
    requires op.AllocateOp?
  {
    FirstFree(op.lo, op.hi, OtherClaimed(c, op.daemon) + DaemonPorts(c, op.daemon).Values, op.bindable)
  }

  predicate FirstAllocation(c: Config, op: Op) {
    op.AllocateOp? && !Holds(c, op.daemon, op.id) && FreePort(c, op).Some?
  }

  predicate IsAt(op: Op, d: string, id: string) {
    op.daemon == d && op.id == id
  }

  /** What each id holds after two first allocations of different daemons, both of which had read `c`. */
  lemma AfterBoth(c: Config, a: Op, b: Op, d: string, id: string)
    requires FirstAllocation(c, a) && FirstAllocation(c, b) && a.daemon != b.daemon
    ensures var after := Finish(c, Finish(c, c, a), b);
            && (Holds(after, d, id) <==> Holds(c, d, id) || IsAt(a, d, id) || IsAt(b, d, id))
            && (IsAt(a, d, id) ==> DaemonPorts(after, d)[id] == FreePort(c, a).value)
            && (IsAt(b, d, id) ==> DaemonPorts(after, d)[id] == FreePort(c, b).value)
            && (Holds(c, d, id) ==>
                  && DaemonPorts(after, d)[id] == DaemonPorts(c, d)[id]
                  && DaemonPorts(c, d)[id] != FreePort(c, a).value && DaemonPorts(c, d)[id] != FreePort(c, b).value)
  {
    var portsA := DaemonPorts(c, a.daemon)[a.id := FreePort(c, a).value];
    var portsB := DaemonPorts(c, b.daemon)[b.id := FreePort(c, b).value];
    var middle := WritePorts(c, a.daemon, portsA);
    WriteIsLocal(c, a.daemon, portsA, d);
    WriteIsLocal(middle, b.daemon, portsB, d);
    if Holds(c, d, id) {
      if d != a.daemon {
        OthersAreClaimed(c, a.daemon, d, id);
      }
      if d != b.daemon {
        OthersAreClaimed(c, b.daemon, d, id);
      }
      assert DaemonPorts(c, d)[id] in DaemonPorts(c, d).Values;
    }
  }

  /** Two first allocations that overlap, of any daemons and in any ranges. For different daemons both are recorded, and
      they share a port if and only if their first free ports coincide, which is exactly when distinctness is lost. For
      one daemon the first allocation is lost whichever ports they found. */
  lemma OverlappingAllocations(c: Config, a: Op, b: Op)
    requires FirstAllocation(c, a) && FirstAllocation(c, b) && !IsAt(a, b.daemon, b.id)
    ensures var after := Finish(c, Finish(c, c, a), b);
            if a.daemon == b.daemon then
              !Holds(after, a.daemon, a.id) && after == Step(c, b)
            else
              && Holds(after, a.daemon, a.id) && Holds(after, b.daemon, b.id)
              && (DaemonPorts(after, a.daemon)[a.id] == DaemonPorts(after, b.daemon)[b.id]
                  <==> FreePort(c, a) == FreePort(c, b))
              && (Distinct(c) ==> (Distinct(after) <==> FreePort(c, a) != FreePort(c, b)))
  {
    var after := Finish(c, Finish(c, c, a), b);
    if a.daemon != b.daemon {
      AfterBoth(c, a, b, a.daemon, a.id);
      AfterBoth(c, a, b, b.daemon, b.id);
      if Distinct(c) && FreePort(c, a) != FreePort(c, b) {
        forall d1, id1, d2, id2 | Holds(after, d1, id1) && Holds(after, d2, id2)
                                  && DaemonPorts(after, d1)[id1] == DaemonPorts(after, d2)[id2]
          ensures d1 == d2 && id1 == id2
        {
          AfterBoth(c, a, b, d1, id1);
          AfterBoth(c, a, b, d2, id2);
        }
      }
    } else {
      SecondWriteWins(c, a.daemon, DaemonPorts(c, a.daemon)[a.id := FreePort(c, a).value],
                      DaemonPorts(c, b.daemon)[b.id := FreePort(c, b).value]);
    }
  }

  lemma SecondWriteWins(c: Config, daemon: string, first: Ports, second: Ports)
    ensures WritePorts(WritePorts(c, daemon, first), daemon, second) == WritePorts(c, daemon, second)
  {
    assert c.registry[daemon := first][daemon := second] == c.registry[daemon := second];
  }

  /** A release takes away its own allocation and no other, and, from distinct ports, frees its port. */
  lemma ReleaseExactly(c: Config, daemon: string, id: string)
    requires Holds(c, daemon, id)
    ensures forall d, i :: Holds(Release(c, daemon, id), d, i) <==> Holds(c, d, i) && !(d == daemon && i == id)
    ensures forall d, i :: Holds(Release(c, daemon, id), d, i) ==>
              DaemonPorts(Release(c, daemon, id), d)[i] == DaemonPorts(c, d)[i]
    ensures Distinct(c) ==> !InUse(Release(c, daemon, id), DaemonPorts(c, daemon)[id])
  {
    var after := Release(c, daemon, id);
    forall d ensures DaemonPorts(after, d) == if d == daemon then DaemonPorts(c, d) - {id} else DaemonPorts(c, d) {
      WriteIsLocal(c, daemon, DaemonPorts(c, daemon) - {id}, d);
    }
    if Distinct(c) {
      forall d, i | Holds(after, d, i) ensures DaemonPorts(after, d)[i] != DaemonPorts(c, daemon)[id] {
        assert Holds(c, d, i);
      }
    }
  }

  /** The first write for the inbox moves its ports and takes the legacy map away; other daemons' writes leave it. */
  lemma LegacyGoesWithTheInbox(c: Config, daemon: string, ports: Ports)
    ensures var after := WritePorts(c, daemon, ports);
            && after.legacy == (if daemon == INBOX then None else c.legacy)
            && daemon in after.registry && after.registry[daemon] == ports
            && after.registry - {daemon} == c.registry - {daemon}
            && DaemonPorts(after, daemon) == ports
            && (INBOX !in c.registry && c.legacy.Some? ==> DaemonPorts(c, INBOX) == c.legacy.value)
            && (daemon in c.registry ==> DaemonPorts(c, daemon) == c.registry[daemon])
  {
  }

  /** So a released inbox port can be allocated to any daemon, from distinct ports: at once if it is the only one in
      range. */
  lemma ReleasedInboxPortIsFree(c: Config, id: string, daemon: string, other: string, bindable: int -> bool)
    requires Distinct(c) && Holds(c, INBOX, id)
    requires var after := Release(c, INBOX, id);
             !Holds(after, daemon, other) && bindable(DaemonPorts(c, INBOX)[id])
    ensures var port := DaemonPorts(c, INBOX)[id];
            Allocate(Release(c, INBOX, id), daemon, other, port, port, bindable).1 == Port(port)
  {
    var after, port := Release(c, INBOX, id), DaemonPorts(c, INBOX)[id];
    ReleaseExactly(c, INBOX, id);
    LegacyGoesWithTheInbox(c, INBOX, DaemonPorts(c, INBOX) - {id});
    RecordedIsInUse(after, daemon, port);
  }
}

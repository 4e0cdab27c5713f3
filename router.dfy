/**
  class Router of networkQ2.py: N input and N output interfaces; one call of
  forward takes at most one wire string from each input, in index order, and
  puts its re-encoded packet on the output of the same index, reporting a
  loss where that output is full.
*/
module Routers {
  import opened Wrappers
  import opened Codec
  import opened Interfaces

  /**
    What forward reports for one input: the packet forwarded or lost, as the
    wire string its log line prints (NetworkPacket.__str__ is to_byte_S).
  */
  datatype Event =
    | Forwarded(pkt: string, fromIntf: nat, toIntf: nat)
    | Lost(pkt: string, intf: nat)

  /** The state of input i and output i of a router, as values: queue contents, bounds and MTUs. */
  datatype Port = Port(inQ: seq<string>, inMax: int, inMtu: Option<int>, outQ: seq<string>, outMax: int, outMtu: Option<int>)

  /**
    One port after forward's step for it: the oldest input entry is taken and
    offered to the output. (forward offers the re-encoding of the decoded
    entry, which is the entry itself: Codec.ReencodeIdentity.)
  */
  function StepPort(p: Port): Port
  {
    if p.inQ == [] then p
    else p.(inQ := p.inQ[1..], outQ := Offer(p.outQ, p.inQ[0], p.outMax).0)
  }

  /** What forward reports for port i. */
  function PortEvents(p: Port, i: nat): seq<Event>
  {
    if p.inQ == [] then []
    else if AtCapacity(p.outQ, p.outMax) then [Lost(p.inQ[0], i)]
    else [Forwarded(p.inQ[0], i, i)]
  }

  /** All ports after one call of forward. */
  function TickPorts(ps: seq<Port>): (r: seq<Port>)
    ensures |r| == |ps|
  {
    seq(|ps|, i requires 0 <= i < |ps| => StepPort(ps[i]))
  }

  /** What forward reports for ports 0 .. k-1, in that order. */
  function TickEvents(ps: seq<Port>, k: nat): seq<Event>
    requires k <= |ps|
  {
    if k == 0 then [] else TickEvents(ps, k - 1) + PortEvents(ps[k - 1], k - 1)
  }

  /** Number of wire strings held in the queues of ports 0 .. k-1. */
  function Held(ps: seq<Port>, k: nat): nat
    requires k <= |ps|
  {
    if k == 0 then 0 else Held(ps, k - 1) + |ps[k - 1].inQ| + |ps[k - 1].outQ|
  }

  function LossCount(evs: seq<Event>): nat
  {
    if evs == [] then 0 else LossCount(evs[..|evs| - 1]) + (if evs[|evs| - 1].Lost? then 1 else 0)
  }

  /** from_byte_S succeeds on the entry forward would take from each port. */
  predicate HeadsWellFormed(ps: seq<Port>)
  {
    forall i :: 0 <= i < |ps| ==> ps[i].inQ != [] ==> WellFormed(ps[i].inQ[0])
  }

  /**
    forward's log line formats output i's MTU with %d, which raises TypeError
    for an MTU that is None; it runs for every port whose entry the put accepts.
  */
  predicate MtusSetWhereForwarded(ps: seq<Port>)
  {
    forall i :: 0 <= i < |ps| ==> ps[i].inQ != [] && !AtCapacity(ps[i].outQ, ps[i].outMax) ==> ps[i].outMtu.Some?
  }

  /** A port's queues respect their bounds (Interfaces.WithinBound). */
  predicate Bounded(p: Port)
  {
    WithinBound(p.inQ, p.inMax) && WithinBound(p.outQ, p.outMax)
  }

  predicate AllBounded(ps: seq<Port>)
  {
    forall i :: 0 <= i < |ps| ==> Bounded(ps[i])
  }

  /** The ports after forward has handled ports 0 .. k-1 and not yet the rest. */
  function TickPrefix(ps: seq<Port>, k: nat): (r: seq<Port>)
    ensures |r| == |ps|
  {
    seq(|ps|, j requires 0 <= j < |ps| => if j < k then StepPort(ps[j]) else ps[j])
  }

  // ---------------------------------------------------------------------
  // Properties of one tick
  // ---------------------------------------------------------------------

  /**
    The step for one port: the oldest input entry leaves the input; when the
    output has room it is appended there, otherwise it is dropped and
    reported lost. An empty input changes nothing and reports nothing. The
    output's bound is kept.
  */
  lemma StepPortMeaning(p: Port, i: nat)
    ensures var r := StepPort(p);
      && r.inMax == p.inMax && r.outMax == p.outMax && r.inMtu == p.inMtu && r.outMtu == p.outMtu
      && r.inQ == (if p.inQ == [] then [] else p.inQ[1..])
      && r.outQ == (if p.inQ == [] || AtCapacity(p.outQ, p.outMax) then p.outQ else p.outQ + [p.inQ[0]])
      && (Bounded(p) ==> Bounded(r))
      && (PortEvents(p, i) == [] <==> p.inQ == [])
      && (PortEvents(p, i) != [] ==> (PortEvents(p, i)[0].Lost? <==> AtCapacity(p.outQ, p.outMax)))
  {
  }

  /** With every input empty a tick changes nothing and reports nothing. */
  lemma IdleTick(ps: seq<Port>)
    requires forall i :: 0 <= i < |ps| ==> ps[i].inQ == []
    ensures TickPorts(ps) == ps
    ensures TickEvents(ps, |ps|) == []
  {
    IdleTickEvents(ps, |ps|);
  }

  lemma {:induction false} IdleTickEvents(ps: seq<Port>, k: nat)
    requires k <= |ps|
    requires forall i :: 0 <= i < |ps| ==> ps[i].inQ == []
    ensures TickEvents(ps, k) == []
    decreases k
  {
    if k > 0 {
      IdleTickEvents(ps, k - 1);
    }
  }

  /** A tick keeps every queue within its bound, and the bounds themselves. */
  lemma TickKeepsBounds(ps: seq<Port>)
    requires AllBounded(ps)
    ensures AllBounded(TickPorts(ps))
    ensures forall i :: 0 <= i < |ps| ==> TickPorts(ps)[i].inMax == ps[i].inMax && TickPorts(ps)[i].outMax == ps[i].outMax
  {
  }

  /** A tick keeps every MTU. */
  lemma TickKeepsMtus(ps: seq<Port>)
    ensures forall i :: 0 <= i < |ps| ==> TickPorts(ps)[i].inMtu == ps[i].inMtu && TickPorts(ps)[i].outMtu == ps[i].outMtu
  {
  }

  lemma TickPrefixStep(ps: seq<Port>, k: nat)
    requires k < |ps|
    ensures TickPrefix(ps, k)[k] == ps[k]
    ensures TickPrefix(ps, k)[k := StepPort(ps[k])] == TickPrefix(ps, k + 1)
  {
  }

  lemma TickPrefixEnds(ps: seq<Port>)
    ensures TickPrefix(ps, 0) == ps
    ensures TickPrefix(ps, |ps|) == TickPorts(ps)
  {
  }

  lemma LossCountSnoc(evs: seq<Event>, tail: seq<Event>)
    requires |tail| <= 1
    ensures LossCount(evs + tail) == LossCount(evs) + LossCount(tail)
  {
    if tail == [] {
      assert evs + tail == evs;
    } else {
      var t := evs + tail;
      assert t[..|t| - 1] == evs;
      assert t[|t| - 1] == tail[0];
      assert tail[..0] == [];
      assert LossCount(tail) == LossCount([]) + (if tail[0].Lost? then 1 else 0);
    }
  }

  /** Whether port p's step drops its entry. */
  predicate Drops(p: Port)
  {
    p.inQ != [] && AtCapacity(p.outQ, p.outMax)
  }

  /** Number of ports among 0 .. k-1 whose step drops its entry. */
  function DropCount(ps: seq<Port>, k: nat): nat
    requires k <= |ps|
  {
    if k == 0 then 0 else DropCount(ps, k - 1) + (if Drops(ps[k - 1]) then 1 else 0)
  }

  /** After a tick the queues of ports 0 .. k-1 hold as many entries as before, less one per reported loss. */
  lemma TickConservesPackets(ps: seq<Port>, k: nat)
    requires k <= |ps|
    ensures Held(TickPorts(ps), k) + LossCount(TickEvents(ps, k)) == Held(ps, k)
  {
    StepsConserve(ps, TickPorts(ps), k);
    LossesAreDrops(ps, k);
  }

  lemma {:induction false} StepsConserve(ps: seq<Port>, qs: seq<Port>, k: nat)
    requires k <= |ps| == |qs|
    requires forall j :: 0 <= j < |ps| ==> qs[j] == StepPort(ps[j])
    ensures Held(qs, k) + DropCount(ps, k) == Held(ps, k)
    decreases k
  {
    if k > 0 {
      StepsConserve(ps, qs, k - 1);
      assert qs[k - 1] == StepPort(ps[k - 1]);
    }
  }

  lemma {:induction false} LossesAreDrops(ps: seq<Port>, k: nat)
    requires k <= |ps|
    ensures LossCount(TickEvents(ps, k)) == DropCount(ps, k)
    decreases k
  {
    if k > 0 {
      var evs, e := TickEvents(ps, k - 1), PortEvents(ps[k - 1], k - 1);
      LossesAreDrops(ps, k - 1);
      LossCountSnoc(evs, e);
      PortLossCount(ps[k - 1], k - 1);
    }
  }

  lemma PortLossCount(p: Port, i: nat)
    ensures LossCount(PortEvents(p, i)) == if Drops(p) then 1 else 0
  {
    var e := PortEvents(p, i);
    if e != [] {
      assert e[..0] == [];
    }
  }

  /** Every entry held in the queues of ports 0 .. k-1: input then output of each port, in port order. */
  function Flat(ps: seq<Port>, k: nat): seq<string>
    requires k <= |ps|
  {
    if k == 0 then [] else Flat(ps, k - 1) + (ps[k - 1].inQ + ps[k - 1].outQ)
  }

  /** The wire strings of the Lost events among `evs`, in order. */
  function LostSeq(evs: seq<Event>): seq<string>
  {
    if evs == [] then []
    else LostSeq(evs[..|evs| - 1]) + (if evs[|evs| - 1].Lost? then [evs[|evs| - 1].pkt] else [])
  }

  /** The entry a port's step drops, if any. */
  function DropOf(p: Port): seq<string>
  {
    if Drops(p) then [p.inQ[0]] else []
  }

  /** The entries dropped by the steps of ports 0 .. k-1, in port order. */
  function DropSeq(ps: seq<Port>, k: nat): seq<string>
    requires k <= |ps|
  {
    if k == 0 then [] else DropSeq(ps, k - 1) + DropOf(ps[k - 1])
  }

  /** Number of occurrences of `x` in `q`. */
  function Occ<T(==)>(x: T, q: seq<T>): nat
  {
    if q == [] then 0 else (if q[0] == x then 1 else 0) + Occ(x, q[1..])
  }

  /**
    No wire string is created, duplicated or altered: after a tick the queues
    of ports 0 .. k-1, together with the entries reported lost, hold exactly
    the entries those queues held before, as a multiset.
  */
  lemma TickConservesContents(ps: seq<Port>, k: nat)
    requires k <= |ps|
    ensures multiset(Flat(TickPorts(ps), k)) + multiset(LostSeq(TickEvents(ps, k))) == multiset(Flat(ps, k))
  {
    var after, lost, before := Flat(TickPorts(ps), k), LostSeq(TickEvents(ps, k)), Flat(ps, k);
    LostAreDropped(ps, k);
    forall x ensures multiset(after)[x] + multiset(lost)[x] == multiset(before)[x] {
      StepsConserveOcc(ps, TickPorts(ps), k, x);
      OccIsMultiplicity(x, after);
      OccIsMultiplicity(x, lost);
      OccIsMultiplicity(x, before);
    }
  }

  /** The same, one string at a time: copies after plus copies lost equal copies before. */
  lemma {:induction false} StepsConserveOcc(ps: seq<Port>, qs: seq<Port>, k: nat, x: string)
    requires k <= |ps| == |qs|
    requires forall j :: 0 <= j < |ps| ==> qs[j] == StepPort(ps[j])
    ensures Occ(x, Flat(qs, k)) + Occ(x, DropSeq(ps, k)) == Occ(x, Flat(ps, k))
    decreases k
  {
    if k > 0 {
      var p := ps[k - 1];
      assert qs[k - 1] == StepPort(p);
      StepsConserveOcc(ps, qs, k - 1, x);
      StepOcc(p, x);
      OccAppend(x, Flat(qs, k - 1), qs[k - 1].inQ + qs[k - 1].outQ);
      OccAppend(x, DropSeq(ps, k - 1), DropOf(p));
      OccAppend(x, Flat(ps, k - 1), p.inQ + p.outQ);
    }
  }

  /** One step moves the head of the input to the output, or drops it. */
  lemma StepOcc(p: Port, x: string)
    ensures var r := StepPort(p);
      Occ(x, r.inQ + r.outQ) + Occ(x, DropOf(p)) == Occ(x, p.inQ + p.outQ)
  {
    var r := StepPort(p);
    OccAppend(x, r.inQ, r.outQ);
    OccAppend(x, p.inQ, p.outQ);
    if p.inQ != [] {
      var h := p.inQ[0];
      assert Occ(x, p.inQ) == Occ(x, [h]) + Occ(x, p.inQ[1..]) by {
        assert [h][1..] == [];
      }
      if !AtCapacity(p.outQ, p.outMax) {
        OccAppend(x, p.outQ, [h]);
      } else {
        assert DropOf(p) == [h];
      }
    }
  }

  lemma {:induction false} OccAppend<T>(x: T, a: seq<T>, b: seq<T>)
    ensures Occ(x, a + b) == Occ(x, a) + Occ(x, b)
    decreases |a|
  {
    if a == [] {
      assert a + b == b;
    } else {
      assert (a + b)[1..] == a[1..] + b;
      OccAppend(x, a[1..], b);
    }
  }

  lemma {:induction false} OccIsMultiplicity<T>(x: T, q: seq<T>)
    ensures Occ(x, q) == multiset(q)[x]
    decreases |q|
  {
    if q != [] {
      assert q == [q[0]] + q[1..];
      OccIsMultiplicity(x, q[1..]);
    }
  }

  lemma LostSeqSnoc(evs: seq<Event>, tail: seq<Event>)
    requires |tail| <= 1
    ensures LostSeq(evs + tail) == LostSeq(evs) + LostSeq(tail)
  {
    if tail == [] {
      assert evs + tail == evs;
    } else {
      var t := evs + tail;
      assert t[..|t| - 1] == evs;
      assert t[|t| - 1] == tail[0];
      assert tail[..0] == [];
    }
  }

  /** The Lost events report exactly the dropped entries, in port order. */
  lemma {:induction false} LostAreDropped(ps: seq<Port>, k: nat)
    requires k <= |ps|
    ensures LostSeq(TickEvents(ps, k)) == DropSeq(ps, k)
    decreases k
  {
    if k > 0 {
      var evs, e := TickEvents(ps, k - 1), PortEvents(ps[k - 1], k - 1);
      LostAreDropped(ps, k - 1);
      LostSeqSnoc(evs, e);
      PortLostSeq(ps[k - 1], k - 1);
    }
  }

  lemma PortLostSeq(p: Port, i: nat)
    ensures LostSeq(PortEvents(p, i)) == DropOf(p)
  {
    var e := PortEvents(p, i);
    if e != [] {
      assert e[..0] == [];
    }
  }

  /** Some reported event is a loss at interface i. */
  predicate LostAt(evs: seq<Event>, i: nat)
  {
    exists j :: 0 <= j < |evs| && evs[j].Lost? && evs[j].intf == i
  }

  lemma LostAtAppend(a: seq<Event>, b: seq<Event>, i: nat)
    ensures LostAt(a + b, i) <==> LostAt(a, i) || LostAt(b, i)
  {
    if LostAt(a, i) {
      var j :| 0 <= j < |a| && a[j].Lost? && a[j].intf == i;
      assert (a + b)[j] == a[j];
    }
    if LostAt(b, i) {
      var j :| 0 <= j < |b| && b[j].Lost? && b[j].intf == i;
      assert (a + b)[|a| + j] == b[j];
    }
    if LostAt(a + b, i) && !LostAt(a, i) {
      var j :| 0 <= j < |a + b| && (a + b)[j].Lost? && (a + b)[j].intf == i;
      assert (a + b)[j] == b[j - |a|];
    }
  }

  lemma PortLostAt(p: Port, k: nat, i: nat)
    ensures LostAt(PortEvents(p, k), i) <==> i == k && p.inQ != [] && AtCapacity(p.outQ, p.outMax)
  {
    var e := PortEvents(p, k);
    if e != [] {
      assert e[0] == (if AtCapacity(p.outQ, p.outMax) then Lost(p.inQ[0], k) else Forwarded(p.inQ[0], k, k));
    }
  }

  /** A loss is reported for port i exactly when its input has an entry and its output is full. */
  lemma {:induction false} LossReportedIff(ps: seq<Port>, k: nat, i: nat)
    requires k <= |ps| && i < |ps|
    ensures LostAt(TickEvents(ps, k), i) <==> i < k && ps[i].inQ != [] && AtCapacity(ps[i].outQ, ps[i].outMax)
    decreases k
  {
    if k > 0 {
      LossReportedIff(ps, k - 1, i);
      LostAtAppend(TickEvents(ps, k - 1), PortEvents(ps[k - 1], k - 1), i);
      PortLostAt(ps[k - 1], k - 1, i);
    }
  }

  // ---------------------------------------------------------------------
  // The router object
  // ---------------------------------------------------------------------

  /** The state of a port of a router: an input interface and an output interface. */
  ghost function PortOf(inI: Interface, outI: Interface): Port
    reads inI, outI
  {
    Port(inI.queue, inI.maxsize, inI.mtu, outI.queue, outI.maxsize, outI.mtu)
  }

  class Router {
    /** Friendly name, used only in log lines. */
    const name: string
    const inIntfL: seq<Interface>
    const outIntfL: seq<Interface>

    /** Every interface of the router, inputs first. */
    function All(): seq<Interface>
    {
      inIntfL + outIntfL
    }

    /** As many inputs as outputs, and no interface appears twice. */
    predicate Distinct()
    {
      && |inIntfL| == |outIntfL|
      && forall i, j :: 0 <= i < j < |All()| ==> All()[i] != All()[j]
    }

    /** Port i's interfaces are shared with no other port. */
    lemma Apart(i: nat)
      requires Distinct() && i < |inIntfL|
      ensures inIntfL[i] != outIntfL[i]
      ensures forall j :: 0 <= j < |inIntfL| && j != i ==>
        inIntfL[j] != inIntfL[i] && inIntfL[j] != outIntfL[i] && outIntfL[j] != inIntfL[i] && outIntfL[j] != outIntfL[i]
    {
      var n := |inIntfL|;
      assert All()[i] == inIntfL[i] && All()[n + i] == outIntfL[i];
      forall j | 0 <= j < n && j != i
        ensures inIntfL[j] != inIntfL[i] && inIntfL[j] != outIntfL[i] && outIntfL[j] != inIntfL[i] && outIntfL[j] != outIntfL[i]
      {
        assert All()[j] == inIntfL[j] && All()[n + j] == outIntfL[j];
      }
    }

    /** The router's queues as ports, by index. */
    ghost function Snapshot(): (ps: seq<Port>)
      reads inIntfL, outIntfL
      requires |inIntfL| == |outIntfL|
      ensures |ps| == |inIntfL|
    {
      seq(|inIntfL|, i reads inIntfL, outIntfL requires 0 <= i < |inIntfL| => PortOf(inIntfL[i], outIntfL[i]))
    }

    lemma SnapshotMtu(i: nat)
      requires |inIntfL| == |outIntfL| && i < |inIntfL|
      ensures Snapshot()[i].inMtu == inIntfL[i].mtu && Snapshot()[i].outMtu == outIntfL[i].mtu
    {
    }

    /** A change of state whose snapshot is a tick of the old one leaves every MTU as it was. */
    twostate lemma MtusKept(before: seq<Port>)
      requires |inIntfL| == |outIntfL|
      requires before == old(Snapshot()) && Snapshot() == TickPorts(before)
      ensures forall i :: 0 <= i < |inIntfL| ==>
        inIntfL[i].mtu == old(inIntfL[i].mtu) && outIntfL[i].mtu == old(outIntfL[i].mtu)
    {
      TickKeepsMtus(before);
      forall i | 0 <= i < |inIntfL|
        ensures inIntfL[i].mtu == old(inIntfL[i].mtu) && outIntfL[i].mtu == old(outIntfL[i].mtu)
      {
        SnapshotMtu(i);
        assert old(Snapshot()[i]) == old(PortOf(inIntfL[i], outIntfL[i]));
      }
    }

    /** Distinct interfaces, every queue within its bound. */
    ghost predicate Valid()
      reads inIntfL, outIntfL
    {
      Distinct() && AllBounded(Snapshot())
    }

    /**
      Router.__init__: intf_count inputs and intf_count outputs (none for a
      negative count, as with range), each a fresh empty Interface bounded by
      max_queue_size with no mtu set.
    */
    constructor (name: string, intfCount: int, maxQueueSize: int)
      ensures Valid()
      ensures this.name == name
      ensures |inIntfL| == if intfCount < 0 then 0 else intfCount
      ensures forall i :: 0 <= i < |inIntfL| ==>
        && fresh(inIntfL[i]) && inIntfL[i].queue == [] && inIntfL[i].maxsize == maxQueueSize && inIntfL[i].mtu == None
        && fresh(outIntfL[i]) && outIntfL[i].queue == [] && outIntfL[i].maxsize == maxQueueSize && outIntfL[i].mtu == None
    {
      var n := if intfCount < 0 then 0 else intfCount;
      var ins := NewInterfaces(n, maxQueueSize);
      var outs := NewInterfaces(n, maxQueueSize);
      this.name := name;
      inIntfL := ins;
      outIntfL := outs;
    }

    /**
      Router.forward: for i = 0, 1, ... take one entry from input i, decode it,
      and put its re-encoding on output i, or report it lost when output i is
      full. The new queues and the events are those of one tick.
    */
    method Forward() returns (events: seq<Event>)
      requires Valid() && HeadsWellFormed(Snapshot()) && MtusSetWhereForwarded(Snapshot())
      modifies inIntfL, outIntfL
      ensures Valid()
      ensures Snapshot() == TickPorts(old(Snapshot()))
      ensures events == TickEvents(old(Snapshot()), |inIntfL|)
      ensures forall i :: 0 <= i < |inIntfL| ==>
        inIntfL[i].mtu == old(inIntfL[i].mtu) && outIntfL[i].mtu == old(outIntfL[i].mtu)
    {
      ghost var before := Snapshot();
      TickPrefixEnds(before);
      events := [];
      for i := 0 to |inIntfL|
        invariant Snapshot() == TickPrefix(before, i)
        invariant events == TickEvents(before, i)
      {
        var e := ForwardPort(i, before);
        events := events + e;
      }
      TickKeepsBounds(before);
      MtusKept(before);
    }

    /** Step i of forward's loop, on the whole router. */
    method ForwardPort(i: nat, ghost before: seq<Port>) returns (e: seq<Event>)
      requires Distinct() && i < |inIntfL|
      requires Snapshot() == TickPrefix(before, i) && HeadsWellFormed(before) && MtusSetWhereForwarded(before)
      modifies inIntfL[i], outIntfL[i]
      ensures Snapshot() == TickPrefix(before, i + 1)
      ensures e == PortEvents(before[i], i)
    {
      TickPrefixStep(before, i);
      ghost var ps := Snapshot();
      Apart(i);
      e := ForwardOne(inIntfL[i], outIntfL[i], i, ps[i]);
      assert forall j :: 0 <= j < |ps| ==> Snapshot()[j] == ps[i := StepPort(ps[i])][j];
    }
  }

  /** intf_count fresh empty interfaces bounded by max_queue_size. */
  method NewInterfaces(n: nat, maxQueueSize: int) returns (l: seq<Interface>)
    ensures |l| == n
    ensures forall i, j :: 0 <= i < j < n ==> l[i] != l[j]
    ensures forall i :: 0 <= i < n ==> fresh(l[i]) && l[i].queue == [] && l[i].maxsize == maxQueueSize && l[i].mtu == None
  {
    l := [];
    while |l| < n
      invariant |l| <= n
      invariant forall i, j :: 0 <= i < j < |l| ==> l[i] != l[j]
      invariant forall i :: 0 <= i < |l| ==> fresh(l[i]) && l[i].queue == [] && l[i].maxsize == maxQueueSize && l[i].mtu == None
    {
      var x := new Interface(maxQueueSize);
      l := l + [x];
    }
  }

  /**
    The body of forward's loop for port i: one get on the input and, when it
    gives an entry, one put on the output of the entry's re-encoding.
  */
  method ForwardOne(inI: Interface, outI: Interface, i: nat, ghost p: Port) returns (e: seq<Event>)
    requires inI != outI
    requires p == PortOf(inI, outI)
    requires p.inQ != [] ==> WellFormed(p.inQ[0])
    requires p.inQ != [] && !AtCapacity(p.outQ, p.outMax) ==> p.outMtu.Some?
    modifies inI, outI
    ensures PortOf(inI, outI) == StepPort(p)
    ensures e == PortEvents(p, i)
    ensures outI.mtu == old(outI.mtu)
  {
    var pktS := inI.Get();
    e := [];
    if pktS.Some? {
      var p := FromByteS(pktS.value);
      ReencodeIdentity(pktS.value);
      var ok := outI.Put(ToByteS(p));
      if ok {
        e := [Forwarded(ToByteS(p), i, i)];
      } else {
        e := [Lost(ToByteS(p), i)];
      }
    }
  }
}

/** The centralised learning switch: the controller application controller/simpleswitch.py, the FIFO
    connections to its switches, and the program examples/learningswitch_centralized.c each of them
    runs over the table the controller fills. */
module Learning {
  import opened Words
  import opened Packets
  import opened Wrappers

  type Dpid = nat
  type Ports = map<mac, u32>

  datatype Message =
    | Hello
    | Install
    | EntryInsert(key: mac, value: u32)
    | Out(port: u32)

  // ----- the switch -----

  /** The agent's handlers; without an installed program there is no table to insert into. */
  function Handle(table: Option<Ports>, m: Message): Option<Ports> {
    match m
    case Install => if table.None? then Some(map[]) else table
    case EntryInsert(k, v) => if table.None? then None else Some(table.value[k := v])
    case _ => table
  }

  /** The table once everything in flight has arrived. */
  function Arrived(table: Option<Ports>, queue: seq<Message>): Option<Ports>
    decreases |queue|
  {
    if queue == [] then table else Arrived(Handle(table, queue[0]), queue[1..])
  }

  /** prog: the output port, the controller for unknown addresses. */
  function Forward(table: Ports, src: mac, dst: mac): u32 {
    if src !in table then CONTROLLER
    else if dst !in table then CONTROLLER
    else table[dst]
  }

  // ----- the controller -----

  /** The port packet_in sends a packet out of. */
  function OutPort(known: Ports, dst: mac): u32 {
    if Group(dst) then FLOOD else if dst in known then known[dst] else FLOOD
  }

  /** SimpleSwitchApplication with the messages sent on each live connection and not yet handled. */
  class SimpleSwitch {
    var macToPort: map<Dpid, Ports>
    var queue: map<Dpid, seq<Message>>

    constructor ()
      ensures macToPort == map[] && queue == map[]
    {
      macToPort, queue := map[], map[];
    }

    /** A HELLO on a new connection: both handlers, the core's and the application's. */
    method HelloFrom(dpid: Dpid)
      modifies this
      ensures macToPort == map[] && queue == old(queue)[dpid := [Hello, Install]]
    {
      queue := queue[dpid := []];
      Send(dpid, Hello);
      macToPort := map[];
      Send(dpid, Install);
      assert queue[dpid] == [Hello, Install];
    }

    method Send(dpid: Dpid, m: Message)
      requires dpid in queue
      modifies this`queue
      ensures queue == old(queue)[dpid := old(queue)[dpid] + [m]]
    {
      queue := queue[dpid := queue[dpid] + [m]];
    }

    /** packet_in. */
    method PacketIn(dpid: Dpid, inPort: u32, src: mac, dst: mac)
      requires dpid in queue
      modifies this
      ensures System(macToPort, queue, map[]) == Learned(old(System(macToPort, queue, map[])), dpid, inPort, src, dst)
    {
      ghost var sent := queue[dpid];
      if dpid !in macToPort {
        macToPort := macToPort[dpid := map[]];
      }
      if !Group(src) {
        var known: Ports := macToPort[dpid];
        known := known[src := inPort];
        macToPort := macToPort[dpid := known];
        Send(dpid, EntryInsert(src, inPort));
      }
      var outPort := FLOOD;
      if !Group(dst) && dst in macToPort[dpid] {
        outPort := macToPort[dpid][dst];
      }
      Send(dpid, Out(outPort));
      assert Group(src) ==> queue[dpid] == sent + ([] + [Out(outPort)]);
      assert !Group(src) ==> queue[dpid] == sent + ([EntryInsert(src, inPort)] + [Out(outPort)]);
    }
  }

  // ----- the whole system -----

  datatype System = System(macToPort: map<Dpid, Ports>, queue: map<Dpid, seq<Message>>, table: map<Dpid, Option<Ports>>)

  /** A switch connects, with whatever table it has by then; a packet reaches the controller; a switch
      handles the next message; a connection breaks and what was in flight is lost. */
  datatype Event =
    | Connect(dpid: Dpid, table: Option<Ports>)
    | Packet(dpid: Dpid, inPort: u32, src: mac, dst: mac)
    | Deliver(dpid: Dpid)
    | Lost(dpid: Dpid)

  const START := System(map[], map[], map[])

  function Known(s: System, d: Dpid): Ports { if d in s.macToPort then s.macToPort[d] else map[] }

  /** The effect of packet_in. */
  function Learned(s: System, d: Dpid, inPort: u32, src: mac, dst: mac): System
    requires d in s.queue
  {
    var known := if Group(src) then Known(s, d) else Known(s, d)[src := inPort];
    var sent := (if Group(src) then [] else [EntryInsert(src, inPort)]) + [Out(OutPort(known, dst))];
    s.(macToPort := s.macToPort[d := known], queue := s.queue[d := s.queue[d] + sent])
  }

  predicate Possible(s: System, e: Event) {
    match e
    case Connect(_, _) => true
    case Packet(d, _, _, _) => d in s.queue
    case Deliver(d) => d in s.queue && s.queue[d] != [] && d in s.table
    case Lost(d) => d in s.queue
  }

  function Step(s: System, e: Event): System
    requires Possible(s, e)
  {
    match e
    case Connect(d, t) => System(map[], s.queue[d := [Hello, Install]], s.table[d := t])
    case Packet(d, p, src, dst) => Learned(s, d, p, src, dst)
    case Deliver(d) =>
      s.(table := s.table[d := Handle(s.table[d], s.queue[d][0])], queue := s.queue[d := s.queue[d][1..]])
    case Lost(d) => s.(queue := s.queue - {d})
  }

  /** The events happen one after the other from the start. */
  predicate Happens(es: seq<Event>)
    decreases |es|, 0
  {
    es == [] || (Happens(es[..|es| - 1]) && Possible(After(es[..|es| - 1]), es[|es| - 1]))
  }

  function After(es: seq<Event>): System
    requires Happens(es)
    decreases |es|, 1
  {
    if es == [] then START else Step(After(es[..|es| - 1]), es[|es| - 1])
  }

  /** Nothing is assumed about the order of events: any switch may connect at any time, again and with
      any table, and on a live connection packets come and breaks happen at any time. */
  lemma {:induction false} AnythingHappens(es: seq<Event>, d: Dpid, t: Option<Ports>, p: u32, src: mac, dst: mac)
    requires Happens(es)
    ensures Happens(es + [Connect(d, t)])
    ensures d in After(es).queue ==> Happens(es + [Packet(d, p, src, dst)]) && Happens(es + [Lost(d)])
  {
    hide Step;
    assert (es + [Connect(d, t)])[..|es|] == es && (es + [Lost(d)])[..|es|] == es;
    assert (es + [Packet(d, p, src, dst)])[..|es|] == es;
  }

  // ----- the switches follow the controller -----

  /** On a live connection every address the controller knows is in the switch's table, at the same
      port, once the messages in flight have been applied in order. */
  ghost predicate Follows(s: System, d: Dpid) {
    d in s.queue ==>
      d in s.table && Arrived(s.table[d], s.queue[d]).Some? &&
      forall m :: m in Known(s, d) ==>
        !Group(m) && m in Arrived(s.table[d], s.queue[d]).value && Arrived(s.table[d], s.queue[d]).value[m] == Known(s, d)[m]
  }

  lemma {:induction false} ArrivedLater(table: Option<Ports>, queue: seq<Message>, more: seq<Message>)
    ensures Arrived(table, queue + more) == Arrived(Arrived(table, queue), more)
    decreases |queue|
  {
    if queue == [] {
      assert queue + more == more;
    } else {
      assert (queue + more)[1..] == queue[1..] + more;
      ArrivedLater(Handle(table, queue[0]), queue[1..], more);
    }
  }

  lemma {:induction false} ArrivedFew(table: Option<Ports>, a: Message, b: Message)
    ensures Arrived(table, [b]) == Handle(table, b)
    ensures Arrived(table, [a, b]) == Handle(Handle(table, a), b)
  {
    assert [a, b][1..] == [b] && [b][1..] == [];
    assert forall t :: Arrived(t, [b]) == Arrived(Handle(t, b), [b][1..]);
  }

  /** Connecting with any table: the install request is on its way. */
  lemma {:induction false} ConnectFollows(s: System, d: Dpid, t: Option<Ports>)
    ensures Follows(Step(s, Connect(d, t)), d)
  {
    ArrivedFew(t, Hello, Install);
  }

  lemma {:induction false} PacketFollows(s: System, d: Dpid, p: u32, src: mac, dst: mac)
    requires d in s.queue && Follows(s, d)
    ensures Follows(Learned(s, d, p, src, dst), d)
  {
    hide Arrived;
    var known := if Group(src) then Known(s, d) else Known(s, d)[src := p];
    var out := Out(OutPort(known, dst));
    var insert := EntryInsert(src, p);
    ArrivedLater(s.table[d], s.queue[d], [out]);
    ArrivedLater(s.table[d], s.queue[d], [insert, out]);
    ArrivedFew(Arrived(s.table[d], s.queue[d]), insert, out);
    assert [insert] + [out] == [insert, out] && [] + [out] == [out];
  }

  lemma {:induction false} StepFollows(s: System, e: Event, d: Dpid)
    requires Possible(s, e) && Follows(s, d)
    ensures Follows(Step(s, e), d)
  {
    hide OutPort;
    match e
    case Connect(c, t) =>
      if c == d { ConnectFollows(s, d, t); }
    case Packet(c, p, src, dst) =>
      if c == d { PacketFollows(s, d, p, src, dst); }
    case Deliver(c) =>
    case Lost(c) =>
  }

  /** In every reachable state, for every switch. */
  lemma {:induction false} AlwaysFollows(es: seq<Event>, d: Dpid)
    requires Happens(es)
    ensures Follows(After(es), d)
    decreases |es|
  {
    hide Follows, Step, Possible;
    if es == [] {
      StartFollows(d);
    } else {
      AlwaysFollows(es[..|es| - 1], d);
      StepFollows(After(es[..|es| - 1]), es[|es| - 1], d);
    }
  }

  lemma {:induction false} StartFollows(d: Dpid)
    ensures Follows(START, d)
  {
  }

  /** What the controller saw: the port of the last packet from m at d since the last connect of any
      switch, which makes it forget everything. */
  function LastSeen(es: seq<Event>, d: Dpid, m: mac): Option<u32> {
    if es == [] then None else
    match es[|es| - 1]
    case Connect(_, _) => None
    case Packet(c, p, src, _) => if c == d && src == m && !Group(m) then Some(p) else LastSeen(es[..|es| - 1], d, m)
    case _ => LastSeen(es[..|es| - 1], d, m)
  }

  lemma {:induction false} KnowsLastSeen(es: seq<Event>, d: Dpid, m: mac)
    requires Happens(es)
    ensures LastSeen(es, d, m) == if m in Known(After(es), d) then Some(Known(After(es), d)[m]) else None
    decreases |es|
  {
    hide OutPort, Possible;
    if es != [] {
      KnowsLastSeen(es[..|es| - 1], d, m);
    }
  }

  /** Once a switch has handled everything, it forwards locally between any two addresses the
      controller has seen there, to the port the destination was last seen at, which is also the
      port the controller itself would have chosen. */
  lemma {:induction false} ForwardsLocally(es: seq<Event>, d: Dpid, src: mac, dst: mac)
    requires Happens(es) && d in After(es).queue && After(es).queue[d] == []
    requires LastSeen(es, d, src).Some? && LastSeen(es, d, dst).Some?
    ensures var s := After(es);
      d in s.table && s.table[d].Some? &&
      Forward(s.table[d].value, src, dst) == LastSeen(es, d, dst).value == OutPort(Known(s, d), dst)
  {
    hide After, Happens, LastSeen;
    AlwaysFollows(es, d);
    KnowsLastSeen(es, d, src);
    KnowsLastSeen(es, d, dst);
  }

  /** Handling all that is in flight is always possible and changes nothing the controller knows. */
  lemma {:induction false} Drains(es: seq<Event>, d: Dpid) returns (more: seq<Event>)
    requires Happens(es) && d in After(es).queue
    ensures Happens(es + more) && After(es + more).macToPort == After(es).macToPort
    ensures d in After(es + more).queue && After(es + more).queue[d] == []
    ensures forall m :: LastSeen(es + more, d, m) == LastSeen(es, d, m)
    decreases |After(es).queue[d]|
  {
    hide OutPort;
    AlwaysFollows(es, d);
    if After(es).queue[d] == [] {
      more := [];
      assert es + [] == es;
    } else {
      var e := Deliver(d);
      var es' := es + [e];
      assert es'[..|es'| - 1] == es;
      var rest := Drains(es', d);
      more := [e] + rest;
      assert es + more == es' + rest;
    }
  }
  // ----- learning -----

  /** A packet between addresses of which the switch does not know both goes to the controller; if no
      port in the table is the controller's, no other packet does. */
  lemma {:induction false} UnknownIsTold(table: Ports, src: mac, dst: mac)
    ensures src !in table || dst !in table ==> Forward(table, src, dst) == CONTROLLER
    ensures (forall m :: m in table ==> table[m] != CONTROLLER) ==>
      (Forward(table, src, dst) == CONTROLLER <==> !({src, dst} <= table.Keys))
    ensures {src, dst} <= table.Keys ==> Forward(table, src, dst) == table[dst]
  {
  }

  /** A packet the controller is told about teaches the switch its source: once everything in flight
      has arrived, a unicast source is in the table, at the port the packet came in. */
  lemma {:induction false} LearnsSource(es: seq<Event>, d: Dpid, p: u32, src: mac, dst: mac) returns (more: seq<Event>)
    requires Happens(es) && d in After(es).queue && !Group(src)
    ensures var all := es + [Packet(d, p, src, dst)] + more;
      Happens(all) && d in After(all).queue && After(all).queue[d] == [] &&
      d in After(all).table && After(all).table[d].Some? &&
      src in After(all).table[d].value && After(all).table[d].value[src] == p
  {
    hide OutPort;
    var es' := es + [Packet(d, p, src, dst)];
    assert es'[..|es'| - 1] == es;
    more := Drains(es', d);
    AlwaysFollows(es' + more, d);
    KnowsLastSeen(es' + more, d, src);
    assert LastSeen(es', d, src) == Some(p);
  }

  /** The packet itself goes out where its destination was last seen at this switch, and floods if it
      was not seen or is a group. */
  lemma {:induction false} ControllerSends(es: seq<Event>, d: Dpid, p: u32, src: mac, dst: mac)
    requires Happens(es) && d in After(es).queue
    ensures var all := es + [Packet(d, p, src, dst)];
      Happens(all) && d in After(all).queue &&
      var q := After(all).queue[d];
      var seen := LastSeen(all, d, dst);
      |q| > 0 && q[|q| - 1] == Out(if seen.Some? then seen.value else FLOOD)
      && (seen.Some? ==> !Group(dst))
  {
    hide LastSeen;
    var all := es + [Packet(d, p, src, dst)];
    assert all[..|all| - 1] == es;
    KnowsLastSeen(all, d, dst);
    AlwaysFollows(all, d);
  }

  /** A reconnecting switch keeps the table it has, a new one gets an empty table; without a table
      entries are lost. */
  lemma {:induction false} InstallArrives(table: Option<Ports>, k: mac, v: u32)
    ensures Arrived(table, [Hello, Install]) == Some(if table.Some? then table.value else map[])
    ensures Arrived(None, [EntryInsert(k, v), Hello, Install]) == Some(map[])
  {
    ArrivedFew(table, Hello, Install);
    ArrivedFew(None, Hello, Install);
    assert [EntryInsert(k, v), Hello, Install][1..] == [Hello, Install];
  }
}

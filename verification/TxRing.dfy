/** The transmit ring softswitch/main.c shares with the kernel, as a queue, and flooding over the
    rings of all ports. */
module TxRing {
  import opened Words
  import opened Packets

  type Frame = seq<byte>

  datatype Status = Available | SendRequest | Sending
  datatype Slot = Slot(status: Status, frame: Frame)

  /** v2_tx_kernel_ready. */
  predicate KernelReady(s: Slot) { s.status != SendRequest && s.status != Sending }

  /** The k-th slot from head, around the ring. */
  function Around(head: nat, k: nat, n: nat): (p: nat)
    requires head < n && k <= n
    ensures p < n && p == (head + k) % n
  {
    if head + k < n then
      DivModUnique(head + k, n, 0, head + k);
      head + k
    else
      DivModUnique(head + k, n, 1, head + k - n);
      head + k - n
  }

  /** The frames in the count slots from head on. */
  function Queued(slots: seq<Slot>, head: nat, count: nat): (q: seq<Frame>)
    requires head < |slots| && count <= |slots|
    ensures |q| == count && forall k :: 0 <= k < count ==> q[k] == slots[Around(head, k, |slots|)].frame
  {
    seq(count, k requires 0 <= k < count => slots[Around(head, k, |slots|)].frame)
  }

  /** The pending slots are one circular segment from head: first the ones the kernel is sending, then
      the ones it has not looked at; all others are free. */
  ghost predicate Segment(slots: seq<Slot>, head: nat, sending: nat, count: nat)
    requires head < |slots| && sending <= count <= |slots|
  {
    forall k :: 0 <= k < |slots| ==>
      slots[Around(head, k, |slots|)].status == if k < sending then Sending else if k < count then SendRequest else Available
  }

  lemma {:induction false} AtFrameNum(slots: seq<Slot>, head: nat, sending: nat, count: nat)
    requires head < |slots| && sending <= count <= |slots| && Segment(slots, head, sending, count)
    ensures KernelReady(slots[Around(head, count, |slots|)]) <==> count < |slots|
  {
    assert count == |slots| ==> Around(head, count, |slots|) == Around(head, 0, |slots|);
  }

  lemma {:induction false} AtSending(slots: seq<Slot>, head: nat, sending: nat, count: nat)
    requires head < |slots| && sending <= count <= |slots| && Segment(slots, head, sending, count)
    ensures slots[Around(head, sending, |slots|)].status == SendRequest <==> sending < count
  {
    assert sending == |slots| ==> Around(head, sending, |slots|) == Around(head, 0, |slots|);
  }

  lemma {:induction false} Appended(slots: seq<Slot>, head: nat, sending: nat, count: nat, frame: Frame)
    requires head < |slots| && sending <= count < |slots| && Segment(slots, head, sending, count)
    ensures var f := Around(head, count, |slots|);
      var after := slots[f := Slot(SendRequest, frame)];
      Segment(after, head, sending, count + 1) && Queued(after, head, count + 1) == Queued(slots, head, count) + [frame]
      && (f + 1) % |slots| == Around(head, count + 1, |slots|)
  {
    hide KernelReady;
    var n := |slots|;
    var f := Around(head, count, n);
    forall k | 0 <= k < n && k != count ensures Around(head, k, n) != f {
    }
    NextIndex(head, count, n);
  }

  lemma {:induction false} NextIndex(head: nat, k: nat, n: nat)
    requires head < n && k < n
    ensures (Around(head, k, n) + 1) % n == Around(head, k + 1, n)
  {
    var f := Around(head, k, n);
    if f + 1 < n { assert (f + 1) % n == f + 1; } else { assert (f + 1) % n == 0; }
  }

  lemma {:induction false} Started(slots: seq<Slot>, head: nat, sending: nat, count: nat)
    requires head < |slots| && sending < count <= |slots| && Segment(slots, head, sending, count)
    ensures var p := Around(head, sending, |slots|);
      var after := slots[p := slots[p].(status := Sending)];
      Segment(after, head, sending + 1, count) && Queued(after, head, count) == Queued(slots, head, count)
  {
    var n := |slots|;
    forall k | 0 <= k < n && k != sending ensures Around(head, k, n) != Around(head, sending, n) {
    }
  }

  lemma {:induction false} Removed(slots: seq<Slot>, head: nat, sending: nat, count: nat)
    requires head < |slots| && 0 < sending <= count <= |slots| && Segment(slots, head, sending, count)
    ensures var next := Around(head, 1, |slots|);
      var after := slots[head := slots[head].(status := Available)];
      Segment(after, next, sending - 1, count - 1)
      && Queued(slots, head, count) == [slots[head].frame] + Queued(after, next, count - 1)
      && Around(next, count - 1, |slots|) == Around(head, count, |slots|)
  {
    var n := |slots|;
    var next := Around(head, 1, n);
    forall k | 0 <= k < n - 1 ensures Around(next, k, n) == Around(head, k + 1, n) != head {
    }
    assert Around(next, n - 1, n) == head;
    assert Around(head, 0, n) == head;
  }

  lemma {:induction false} Regroup(a: seq<Frame>, f: Frame, b: seq<Frame>)
    ensures a + ([f] + b) == a + [f] + b && (a + ([f] + b))[|a|] == f
  {
  }

  class Ring {
    const slots: array<Slot>
    var frameNum: nat
    var head: nat        // the kernel's side: its next frame to finish,
    var sending: nat     // and how many it has taken up
    ghost var count: nat
    ghost var accepted: seq<Frame>
    ghost var sent: seq<Frame>

    /** What the user and the kernel have agreed on: the segment ends where the user writes next, and
        what was accepted is what was sent followed by what is queued. */
    ghost predicate Valid()
      reads this, slots
    {
      0 < slots.Length && head < slots.Length && sending <= count <= slots.Length &&
      Segment(slots[..], head, sending, count) && frameNum == Around(head, count, slots.Length) &&
      accepted == sent + Queued(slots[..], head, count)
    }

    constructor (size: nat)
      requires size > 0
      ensures Valid() && fresh(slots) && slots.Length == size && count == 0 && accepted == [] && sent == []
    {
      slots := new Slot[size](_ => Slot(Available, []));
      frameNum, head, sending, count, accepted, sent := 0, 0, 0, 0, [], [];
    }

    /** tx_frame: 0, or -1 exactly if every slot is still pending. */
    method TxFrame(frame: Frame) returns (r: int)
      requires Valid()
      modifies this`frameNum, this`count, this`accepted, slots
      ensures Valid()
      ensures r == if old(count) == slots.Length then -1 else 0
      ensures accepted == if r == 0 then old(accepted) + [frame] else old(accepted)
      ensures r != 0 ==> slots[..] == old(slots[..]) && frameNum == old(frameNum) && count == old(count)
      ensures r == 0 ==> count == old(count) + 1
    {
      hide Segment;
      AtFrameNum(slots[..], head, sending, count);
      if KernelReady(slots[frameNum]) {
        Appended(slots[..], head, sending, count, frame);
        ghost var before := slots[..];
        slots[frameNum] := Slot(SendRequest, frame);
        assert slots[..] == before[frameNum := Slot(SendRequest, frame)];
        frameNum := (frameNum + 1) % slots.Length;
        count := count + 1;
        accepted := accepted + [frame];
        assert sent + (Queued(before, head, count - 1) + [frame]) == sent + Queued(before, head, count - 1) + [frame];
        return 0;
      }
      return -1;
    }

    /** The kernel takes up the next requested frame, in ring order. */
    method KernelStart() returns (ok: bool)
      requires Valid()
      modifies this`sending, slots
      ensures Valid() && ok == (old(sending) < count) && accepted == old(accepted)
      ensures sending == old(sending) + (if ok then 1 else 0)
    {
      hide Segment;
      var p := Around(head, sending, slots.Length);
      AtSending(slots[..], head, sending, count);
      ok := slots[p].status == SendRequest;
      if ok {
        ghost var before := slots[..];
        Started(before, head, sending, count);
        slots[p] := slots[p].(status := Sending);
        assert slots[..] == before[p := before[p].(status := Sending)];
        sending := sending + 1;
      }
    }

    /** The kernel is done with the first frame it is sending. */
    method KernelDone() returns (ok: bool, frame: Frame)
      requires Valid()
      modifies this`head, this`sending, this`count, this`sent, slots
      ensures Valid() && ok == (old(sending) > 0) && accepted == old(accepted)
      ensures sent == if ok then old(sent) + [frame] else old(sent)
      ensures ok ==> |old(sent)| < |accepted| && frame == accepted[|old(sent)|]
    {
      hide Segment, Around, Queued;
      ok := sending > 0;
      frame := [];
      if ok {
        ghost var before := slots[..];
        frame := slots[head].frame;
        Removed(before, head, sending, count);
        slots[head] := slots[head].(status := Available);
        assert slots[..] == before[head := before[head].(status := Available)];
        head := Around(head, 1, slots.Length);
        sending, count := sending - 1, count - 1;
        sent := sent + [frame];
        Regroup(old(sent), frame, Queued(slots[..], head, count));
      }
    }
  }

  datatype RingStep = Offer(frame: Frame) | Start | Done

  /** However the switch and the kernel interleave, the kernel sends exactly the accepted frames, in
      the order of acceptance: what was sent is always the beginning of what was accepted. */
  method Interleave(r: Ring, steps: seq<RingStep>)
    requires r.Valid()
    modifies r, r.slots
    ensures r.Valid() && old(r.sent) <= r.sent <= r.accepted && old(r.accepted) <= r.accepted
    ensures |r.accepted| - |r.sent| == r.count <= r.slots.Length
  {
    hide Segment, Around;
    for i := 0 to |steps|
      invariant r.Valid() && old(r.sent) <= r.sent && old(r.accepted) <= r.accepted
    {
      match steps[i]
      case Offer(f) => var ok := r.TxFrame(f);
      case Start => var ok := r.KernelStart();
      case Done => var ok, f := r.KernelDone();
    }
  }

  // ----- all ports -----

  /** Each port has a ring of its own. */
  ghost predicate Separate(ports: seq<Ring>) {
    forall i, j :: 0 <= i < j < |ports| ==> ports[i] != ports[j] && ports[i].slots != ports[j].slots
  }

  ghost predicate AllValid(ports: seq<Ring>)
    reads ports, set r | r in ports :: r.slots
  {
    forall i :: 0 <= i < |ports| ==> ports[i].Valid()
  }

  /** The rings of all ports, each set up on its own. */
  method OpenPorts(count: nat, size: nat) returns (ports: seq<Ring>)
    requires size > 0
    ensures |ports| == count && Separate(ports) && AllValid(ports)
    ensures forall i :: 0 <= i < count ==> fresh(ports[i]) && fresh(ports[i].slots) && ports[i].slots.Length == size && ports[i].accepted == []
  {
    hide Ring.Valid;
    ports := [];
    for i := 0 to count
      invariant |ports| == i && Separate(ports) && AllValid(ports)
      invariant forall j :: 0 <= j < i ==> fresh(ports[j]) && fresh(ports[j].slots) && ports[j].slots.Length == size && ports[j].accepted == []
    {
      var r := new Ring(size);
      ports := ports + [r];
    }
  }

  /** What offering a frame to a ring does: accepted unless the ring is full. */
  twostate predicate Offered(r: Ring, frame: Frame)
    reads r
  {
    r.accepted == if old(r.count) == r.slots.Length then old(r.accepted) else old(r.accepted) + [frame]
  }

  /** tx_frame on one port leaves the others alone. */
  method OfferTo(ports: seq<Ring>, i: nat, frame: Frame)
    requires i < |ports| && Separate(ports) && AllValid(ports)
    modifies ports[i], ports[i].slots
    ensures AllValid(ports) && Offered(ports[i], frame)
    ensures forall j :: 0 <= j < |ports| && j != i ==> unchanged(ports[j]) && unchanged(ports[j].slots)
  {
    var r := ports[i].TxFrame(frame);
    forall j | 0 <= j < |ports| && j != i ensures unchanged(ports[j]) && unchanged(ports[j].slots) && ports[j].Valid() {
      assert ports[j] != ports[i] && ports[j].slots != ports[i].slots;
      assert old(ports[j].Valid());
    }
  }

  /** The FLOOD case of transmit: the frame is offered once to every port but the one it came from. */
  method Flood(ports: seq<Ring>, frame: Frame, inPort: nat)
    requires Separate(ports) && AllValid(ports)
    modifies ports, set r | r in ports :: r.slots
    ensures AllValid(ports)
    ensures forall i :: 0 <= i < |ports| && i != inPort ==> Offered(ports[i], frame)
    ensures inPort < |ports| ==> unchanged(ports[inPort]) && unchanged(ports[inPort].slots)
  {
    hide AllValid;
    for i := 0 to |ports|
      invariant AllValid(ports)
      invariant forall j :: 0 <= j < i && j != inPort ==> Offered(ports[j], frame)
      invariant forall j :: i <= j < |ports| ==> unchanged(ports[j]) && unchanged(ports[j].slots)
      invariant inPort < |ports| ==> unchanged(ports[inPort]) && unchanged(ports[inPort].slots)
    {
      if i != inPort {
        OfferTo(ports, i, frame);
      }
    }
  }

  const MAX_INTERFACES := 255

  /** Where a packet goes. */
  datatype Fate = Sent | ToController | Dropped

  /** transmit: flood, controller, drop or one port. */
  method Transmit(ports: seq<Ring>, frame: Frame, inPort: nat, port: u32) returns (f: Fate)
    requires Separate(ports) && AllValid(ports) && |ports| <= MAX_INTERFACES && (port < FLOOD ==> port < |ports|)
    modifies ports, set r | r in ports :: r.slots
    ensures AllValid(ports)
    ensures f == if port == CONTROLLER then ToController else if port == DROP then Dropped else Sent
    ensures forall i :: 0 <= i < |ports| ==>
      if (port == FLOOD && i != inPort) || i == port then Offered(ports[i], frame) else unchanged(ports[i]) && unchanged(ports[i].slots)
  {
    if port == FLOOD {
      Flood(ports, frame, inPort);
      return Sent;
    } else if port == CONTROLLER {
      return ToController;
    } else if port == DROP {
      return Dropped;
    }
    OfferTo(ports, port, frame);
    return Sent;
  }
}

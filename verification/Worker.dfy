/** The packet ledger of one worker: every packet taken from a port or copied for a broadcast is
    sent, freed or waiting in a transmit buffer. */
module Workers {

  const MAX_PKT_BURST: nat := 32
  const MAX_PKTIOS: nat := 8
  const BROADCAST: nat := 100

  datatype Pkt = Pkt(id: nat, data: nat)

  /** A received packet, the egress port its processing leaves, and which copies succeed: the one
      made first, and for every port the one made for it. */
  datatype Arrival = Arrival(pkt: Pkt, egress: nat, first: bool, later: seq<bool>)

  /** One round of the loop: the port polled, what it brought, and for every interface the result
      of odp_pktout_send. */
  datatype Round = Round(portIn: nat, arrivals: seq<Arrival>, sends: seq<int>)

  /** A packet that the driver took for a port. */
  datatype Sending = Sending(port: nat, pkt: Pkt)

  /** There is a transmit buffer for each of MAX_PKTIOS ports; the first `ports` of them belong to
      interfaces, the others are filled like them but never sent. `fault` marks an access outside
      an array, after which nothing is promised. */
  datatype Ledger = Ledger(ports: nat, bufs: seq<seq<Pkt>>, received: seq<Pkt>, copies: seq<Pkt>,
                           sent: seq<Sending>, freed: seq<Pkt>, next: nat, fault: bool)

  function On(port: nat, pkts: seq<Pkt>): seq<Sending> {
    seq(|pkts|, i requires 0 <= i < |pkts| => Sending(port, pkts[i]))
  }

  function Fresh(ports: nat): Ledger {
    Ledger(ports, seq(MAX_PKTIOS, _ => []), [], [], [], [], 0, false)
  }

  // ----- the steps -----

  /** A packet enters the transmit buffer of a port. */
  function Enqueue(l: Ledger, port: nat, pkt: Pkt): Ledger {
    if l.fault then l
    else if port >= |l.bufs| || |l.bufs[port]| >= MAX_PKT_BURST then l.(fault := true)
    else l.(bufs := l.bufs[port := l.bufs[port] + [pkt]])
  }

  function Copied(l: Ledger, data: nat): Ledger {
    l.(copies := l.copies + [Pkt(l.next, data)], next := l.next + 1)
  }

  /** The broadcast loop over the first n ports; the result says whether `tmp`, the copy made
      first, is still unused. */
  function BcastTo(l: Ledger, a: Arrival, portIn: nat, tmp: Pkt, n: nat): (Ledger, bool) {
    if n == 0 then (l, true) else
      var port := n - 1;
      var (l, first) := BcastTo(l, a, portIn, tmp, port);
      if port == portIn then (l, first)
      else if first then (Enqueue(l, port, tmp), false)
      else if port < |a.later| && a.later[port] then
        (Enqueue(Copied(l, a.pkt.data), port, Pkt(l.next, a.pkt.data)), false)
      else (l, false)
  }

  /** maco_bcast_packet: without the first copy it returns at once. */
  function Bcast(l: Ledger, a: Arrival, portIn: nat): Ledger {
    if !a.first then l else
      var (l, _) := BcastTo(Copied(l, a.pkt.data), a, portIn, Pkt(l.next, a.pkt.data), l.ports);
      l.(freed := l.freed + [a.pkt])
  }

  /** packet_received and send_packet. */
  function Send(l: Ledger, a: Arrival, portIn: nat): Ledger {
    var l := l.(received := l.received + [a.pkt]);
    if a.egress == BROADCAST then Bcast(l, a, portIn) else Enqueue(l, a.egress, a.pkt)
  }

  function SendAll(l: Ledger, arrivals: seq<Arrival>, portIn: nat): Ledger {
    if arrivals == [] then l else
      var n := |arrivals| - 1;
      Send(SendAll(l, arrivals[..n], portIn), arrivals[n], portIn)
  }

  /** maco_send_burst and the reset of the buffer. `sent` is a uint16_t, so an error result is not
      recognised as one: it asks to free more packets than there are. */
  function Burst(l: Ledger, port: nat, r: int): Ledger
    requires port < |l.bufs|
  {
    var n := |l.bufs[port]|;
    var sent := r % 0x1_0000;
    var drops := (n - sent) % 0x1_0000;
    if l.fault then l
    else if sent + drops > n then l.(fault := true)
    else
      l.(bufs := l.bufs[port := []],
         sent := l.sent + On(port, l.bufs[port][..sent]),
         freed := l.freed + l.bufs[port][sent..sent + drops])
  }

  function FlushTo(l: Ledger, portIn: nat, sends: seq<int>, n: nat): (r: Ledger)
    requires n <= |l.bufs| && |sends| >= n
    ensures |r.bufs| == |l.bufs| && r.ports == l.ports
  {
    if n == 0 then l else
      var r := FlushTo(l, portIn, sends, n - 1);
      if n - 1 == portIn || r.bufs[n - 1] == [] then r else Burst(r, n - 1, sends[n - 1])
  }

  /** One round. */
  function Iterate(l: Ledger, it: Round): (r: Ledger)
    requires |it.sends| == l.ports <= |l.bufs|
    ensures |r.bufs| == |l.bufs| && r.ports == l.ports
  {
    SendAllPorts(l, it.arrivals, it.portIn);
    if it.arrivals == [] then l else FlushTo(SendAll(l, it.arrivals, it.portIn), it.portIn, it.sends, l.ports)
  }

  lemma {:induction false} BcastToPorts(l: Ledger, a: Arrival, portIn: nat, tmp: Pkt, n: nat)
    ensures var l' := BcastTo(l, a, portIn, tmp, n).0; |l'.bufs| == |l.bufs| && l'.ports == l.ports
  {
    if n > 0 {
      BcastToPorts(l, a, portIn, tmp, n - 1);
    }
  }

  lemma SendPorts(l: Ledger, a: Arrival, portIn: nat)
    ensures var l' := Send(l, a, portIn); |l'.bufs| == |l.bufs| && l'.ports == l.ports
  {
    var r := l.(received := l.received + [a.pkt]);
    BcastToPorts(Copied(r, a.pkt.data), a, portIn, Pkt(l.next, a.pkt.data), l.ports);
  }

  lemma {:induction false} SendAllPorts(l: Ledger, arrivals: seq<Arrival>, portIn: nat)
    ensures var l' := SendAll(l, arrivals, portIn); |l'.bufs| == |l.bufs| && l'.ports == l.ports
  {
    if arrivals != [] {
      var n := |arrivals| - 1;
      SendAllPorts(l, arrivals[..n], portIn);
      SendPorts(SendAll(l, arrivals[..n], portIn), arrivals[n], portIn);
    }
  }

  // ----- the worker thread -----

  class Worker {
    /** tx_pktios[port].buf: the first len packets of each buffer. */
    const ports: nat
    const tx: array<seq<Pkt>>
    var received: seq<Pkt>
    var copies: seq<Pkt>
    var sent: seq<Sending>
    var freed: seq<Pkt>
    var next: nat
    var fault: bool

    ghost function State(): Ledger
      reads this, tx
    {
      Ledger(ports, tx[..], received, copies, sent, freed, next, fault)
    }

    predicate Valid() {
      ports <= tx.Length
    }

    /** The command line admits 1 to MAX_PKTIOS interfaces. */
    constructor (ports: nat)
      requires 1 <= ports <= MAX_PKTIOS
      ensures fresh(tx) && Valid() && State() == Fresh(ports)
    {
      this.ports := ports;
      tx := new seq<Pkt>[MAX_PKTIOS](_ => []);
      received, copies, sent, freed, next, fault := [], [], [], [], 0, false;
      new;
      assert tx[..] == seq(MAX_PKTIOS, _ => []);
    }

    method Append(port: nat, pkt: Pkt)
      modifies this, tx
      ensures State() == Enqueue(old(State()), port, pkt)
    {
      if fault {
      } else if port >= tx.Length || |tx[port]| >= MAX_PKT_BURST {
        fault := true;
      } else {
        tx[port] := tx[port] + [pkt];
      }
    }

    method Copy(data: nat) returns (pkt: Pkt)
      modifies this
      ensures pkt == Pkt(old(next), data) && State() == Copied(old(State()), data)
    {
      pkt := Pkt(next, data);
      copies, next := copies + [pkt], next + 1;
    }

    method BcastPacket(a: Arrival, portIn: nat)
      requires Valid()
      modifies this, tx
      ensures State() == Bcast(old(State()), a, portIn)
    {
      if !a.first {
        return;
      }
      var tmp := Copy(a.pkt.data);
      ghost var start := State();
      var first := true;
      for port := 0 to ports
        invariant (State(), first) == BcastTo(start, a, portIn, tmp, port)
      {
        if port == portIn {
          continue;
        }
        if first {
          Append(port, tmp);
          first := false;
        } else if port < |a.later| && a.later[port] {
          var copy := Copy(a.pkt.data);
          Append(port, copy);
        }
      }
      freed := freed + [a.pkt];
    }

    method SendPacket(a: Arrival, portIn: nat)
      requires Valid()
      modifies this, tx
      ensures State() == Send(old(State()), a, portIn)
    {
      received := received + [a.pkt];
      if a.egress == BROADCAST {
        BcastPacket(a, portIn);
      } else {
        Append(a.egress, a.pkt);
      }
    }

    method SendBurst(port: nat, r: int)
      requires port < tx.Length
      modifies this, tx
      ensures State() == Burst(old(State()), port, r)
    {
      var n, count := |tx[port]|, r % 0x1_0000;
      var drops := (n - count) % 0x1_0000;
      if fault {
      } else if count + drops > n {
        fault := true;
      } else {
        sent, freed := sent + On(port, tx[port][..count]), freed + tx[port][count..count + drops];
        tx[port] := [];
      }
    }

    method ProcessAll(it: Round)
      requires Valid()
      modifies this, tx
      ensures State() == SendAll(old(State()), it.arrivals, it.portIn)
    {
      for i := 0 to |it.arrivals|
        invariant State() == SendAll(old(State()), it.arrivals[..i], it.portIn)
      {
        assert it.arrivals[..i + 1][..i] == it.arrivals[..i];
        SendPacket(it.arrivals[i], it.portIn);
      }
      assert it.arrivals[..|it.arrivals|] == it.arrivals;
    }

    method FlushAll(it: Round)
      requires Valid() && |it.sends| == ports
      modifies this, tx
      ensures State() == FlushTo(old(State()), it.portIn, it.sends, ports)
    {
      for portid := 0 to ports
        invariant State() == FlushTo(old(State()), it.portIn, it.sends, portid)
      {
        if portid != it.portIn && tx[portid] != [] {
          SendBurst(portid, it.sends[portid]);
        }
      }
    }

    method RunRound(it: Round)
      requires Valid() && |it.sends| == ports
      modifies this, tx
      ensures State() == Iterate(old(State()), it)
    {
      if it.arrivals == [] {
        return;
      }
      ProcessAll(it);
      FlushAll(it);
    }
  }
}

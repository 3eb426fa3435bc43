/** No packet is lost or doubled by a worker, and its transmit buffers are empty between rounds. */
module WorkerLedger {
  import opened Workers

  // ----- counting packets -----

  /** How often x occurs. */
  function Times(s: seq<Pkt>, x: Pkt): nat {
    multiset(s)[x]
  }

  lemma TimesConcat(s: seq<Pkt>, t: seq<Pkt>, x: Pkt)
    ensures Times(s + t, x) == Times(s, x) + Times(t, x)
  {
  }

  function Waiting(bufs: seq<seq<Pkt>>, x: Pkt): nat {
    if bufs == [] then 0 else Waiting(bufs[..|bufs| - 1], x) + Times(bufs[|bufs| - 1], x)
  }

  /** How often the packet x was received or copied, and how often it is accounted for. */
  function Made(l: Ledger, x: Pkt): nat {
    Times(l.received, x) + Times(l.copies, x)
  }

  function Packets(sent: seq<Sending>): seq<Pkt> {
    seq(|sent|, i requires 0 <= i < |sent| => sent[i].pkt)
  }

  lemma PacketsMore(sent: seq<Sending>, port: nat, pkts: seq<Pkt>)
    ensures Packets(sent + On(port, pkts)) == Packets(sent) + pkts
  {
  }

  function Accounted(l: Ledger, x: Pkt): nat {
    Times(Packets(l.sent), x) + Times(l.freed, x) + Waiting(l.bufs, x)
  }

  lemma {:induction false} WaitingUpdate(bufs: seq<seq<Pkt>>, p: nat, b: seq<Pkt>, x: Pkt)
    requires p < |bufs|
    ensures Waiting(bufs[p := b], x) + Times(bufs[p], x) == Waiting(bufs, x) + Times(b, x)
  {
    var n := |bufs| - 1;
    if p == n {
      assert bufs[p := b][..n] == bufs[..n];
    } else {
      assert bufs[p := b][..n] == bufs[..n][p := b];
      WaitingUpdate(bufs[..n], p, b, x);
    }
  }

  // ----- what each step does to the ledger -----

  lemma EnqueueMoves(l: Ledger, port: nat, pkt: Pkt, x: Pkt)
    requires !Enqueue(l, port, pkt).fault
    ensures !l.fault && Made(Enqueue(l, port, pkt), x) == Made(l, x)
    ensures Accounted(Enqueue(l, port, pkt), x) == Accounted(l, x) + Times([pkt], x)
  {
    WaitingUpdate(l.bufs, port, l.bufs[port] + [pkt], x);
    TimesConcat(l.bufs[port], [pkt], x);
  }

  lemma CopyMakes(l: Ledger, data: nat, x: Pkt)
    ensures Made(Copied(l, data), x) == Made(l, x) + Times([Pkt(l.next, data)], x)
    ensures Accounted(Copied(l, data), x) == Accounted(l, x)
  {
    TimesConcat(l.copies, [Pkt(l.next, data)], x);
  }

  lemma CopyMoves(l: Ledger, data: nat, port: nat, x: Pkt)
    requires !Enqueue(Copied(l, data), port, Pkt(l.next, data)).fault
    ensures var l' := Enqueue(Copied(l, data), port, Pkt(l.next, data));
            !l.fault && Accounted(l', x) + Made(l, x) == Accounted(l, x) + Made(l', x)
  {
    hide Made, Accounted, Enqueue;
    EnqueueMoves(Copied(l, data), port, Pkt(l.next, data), x);
    CopyMakes(l, data, x);
  }

  /** The ports that the broadcast loop has given a packet after n ports: the first one gets the
      early copy, the others the copy made for them. */
  predicate Reached(a: Arrival, portIn: nat, p: nat) {
    p != portIn && (p == FirstOther(portIn) || (p < |a.later| && a.later[p]))
  }

  /** The lowest port but the ingress port. */
  function FirstOther(portIn: nat): nat {
    if portIn == 0 then 1 else 0
  }

  ghost predicate OneMore(bufs: seq<seq<Pkt>>, bufs': seq<seq<Pkt>>, p: nat, data: nat)
    requires p < |bufs| && p < |bufs'|
  {
    exists id: nat :: bufs'[p] == bufs[p] + [Pkt(id, data)]
  }

  ghost predicate RoomFor(bufs: seq<seq<Pkt>>, k: nat) {
    forall p :: 0 <= p < |bufs| ==> |bufs[p]| + k <= MAX_PKT_BURST
  }

  lemma {:induction false} BcastReaches(l: Ledger, a: Arrival, portIn: nat, tmp: Pkt, n: nat)
    requires !l.fault && n <= |l.bufs| && tmp.data == a.pkt.data
    requires RoomFor(l.bufs, 1)
    ensures var (l', first) := BcastTo(l, a, portIn, tmp, n);
            && !l'.fault && |l'.bufs| == |l.bufs| && first == (n <= FirstOther(portIn))
            && l'.received == l.received && l'.sent == l.sent && l'.freed == l.freed
            && (forall p :: 0 <= p < |l.bufs| ==>
                  if p < n && Reached(a, portIn, p) then OneMore(l.bufs, l'.bufs, p, a.pkt.data)
                  else l'.bufs[p] == l.bufs[p])
  {
    if n > 0 {
      BcastReaches(l, a, portIn, tmp, n - 1);
      var (m, first) := BcastTo(l, a, portIn, tmp, n - 1);
      var port := n - 1;
      if port != portIn && first {
        assert OneMore(l.bufs, Enqueue(m, port, tmp).bufs, port, a.pkt.data);
      } else if port != portIn && port < |a.later| && a.later[port] {
        var c := Pkt(m.next, a.pkt.data);
        assert OneMore(l.bufs, Enqueue(Copied(m, a.pkt.data), port, c).bufs, port, a.pkt.data);
      }
    }
  }

  /** One step of the broadcast loop. */
  function BcastStep(l: Ledger, first: bool, a: Arrival, portIn: nat, tmp: Pkt, port: nat): (Ledger, bool) {
    if port == portIn then (l, first)
    else if first then (Enqueue(l, port, tmp), false)
    else if port < |a.later| && a.later[port] then
      (Enqueue(Copied(l, a.pkt.data), port, Pkt(l.next, a.pkt.data)), false)
    else (l, false)
  }

  lemma BcastMore(l: Ledger, a: Arrival, portIn: nat, tmp: Pkt, n: nat)
    requires n > 0
    ensures var (m, first) := BcastTo(l, a, portIn, tmp, n - 1);
            BcastTo(l, a, portIn, tmp, n) == BcastStep(m, first, a, portIn, tmp, n - 1)
  {
  }

  lemma StepBalances(l: Ledger, first: bool, a: Arrival, portIn: nat, tmp: Pkt, port: nat, x: Pkt)
    requires !BcastStep(l, first, a, portIn, tmp, port).0.fault
    ensures var (l', first') := BcastStep(l, first, a, portIn, tmp, port);
            && !l.fault && Accounted(l', x) + Made(l, x) + (if first' then Times([tmp], x) else 0)
               == Accounted(l, x) + Made(l', x) + (if first then Times([tmp], x) else 0)
  {
    hide Made, Accounted, Enqueue, Times, Copied;
    if port != portIn && first {
      EnqueueMoves(l, port, tmp, x);
    } else if port != portIn && port < |a.later| && a.later[port] {
      CopyMoves(l, a.pkt.data, port, x);
    }
  }

  /** The early copy waits until a port takes it; the other copies are made for their port. */
  lemma {:induction false} BcastBalances(l: Ledger, a: Arrival, portIn: nat, tmp: Pkt, n: nat, x: Pkt)
    requires !BcastTo(l, a, portIn, tmp, n).0.fault
    ensures var (l', first) := BcastTo(l, a, portIn, tmp, n);
            Accounted(l', x) + Made(l, x) == Accounted(l, x) + Made(l', x) + if first then 0 else Times([tmp], x)
  {
    if n > 0 {
      hide Made, Accounted, Times, BcastTo, BcastStep;
      var (m, first) := BcastTo(l, a, portIn, tmp, n - 1);
      BcastMore(l, a, portIn, tmp, n);
      StepBalances(m, first, a, portIn, tmp, n - 1, x);
      BcastBalances(l, a, portIn, tmp, n - 1, x);
    }
  }

  /** A broadcast whose copies succeed leaves one copy in the buffer of every interface but the
      ingress, and frees the original. */
  lemma BroadcastReachesAllOthers(l: Ledger, a: Arrival, portIn: nat)
    requires !l.fault && portIn < l.ports && 2 <= l.ports <= |l.bufs| && a.egress == BROADCAST
    requires RoomFor(l.bufs, 1)
    requires a.first && forall p :: 0 <= p < l.ports && p != portIn ==> Reached(a, portIn, p)
    ensures var l' := Send(l, a, portIn);
            && !l'.fault && |l'.bufs| == |l.bufs| && l'.freed == l.freed + [a.pkt] && l'.sent == l.sent
            && forall p :: 0 <= p < |l.bufs| ==>
                 if p < l.ports && p != portIn then OneMore(l.bufs, l'.bufs, p, a.pkt.data) else l'.bufs[p] == l.bufs[p]
  {
    var m := Copied(l.(received := l.received + [a.pkt]), a.pkt.data);
    var sent := BcastTo(m, a, portIn, Pkt(l.next, a.pkt.data), l.ports).0;
    assert Send(l, a, portIn) == sent.(freed := sent.freed + [a.pkt]) && m.bufs == l.bufs;
    BcastReaches(m, a, portIn, Pkt(l.next, a.pkt.data), l.ports);
    hide BcastTo, Send, OneMore, Reached;
  }

  // ----- one packet -----

  /** The packets that get lost: the original of a broadcast whose first copy fails. */
  function Leaked(arrivals: seq<Arrival>): seq<Pkt> {
    if arrivals == [] then [] else
      var a := arrivals[|arrivals| - 1];
      Leaked(arrivals[..|arrivals| - 1]) + if a.egress == BROADCAST && !a.first then [a.pkt] else []
  }

  lemma {:induction false} BcastUsesTmp(l: Ledger, a: Arrival, portIn: nat, tmp: Pkt, n: nat)
    ensures BcastTo(l, a, portIn, tmp, n).1 == (n <= FirstOther(portIn))
  {
    if n > 0 {
      BcastUsesTmp(l, a, portIn, tmp, n - 1);
    }
  }

  lemma SendBalances(l: Ledger, a: Arrival, portIn: nat, x: Pkt)
    requires !Send(l, a, portIn).fault && l.ports >= 2
    ensures Accounted(Send(l, a, portIn), x) + Made(l, x)
            + (if a.egress == BROADCAST && !a.first then Times([a.pkt], x) else 0)
            == Accounted(l, x) + Made(Send(l, a, portIn), x)
  {
    var r := l.(received := l.received + [a.pkt]);
    TimesConcat(l.received, [a.pkt], x);
    if a.egress != BROADCAST {
      EnqueueMoves(r, a.egress, a.pkt, x);
    } else if a.first {
      var tmp := Pkt(r.next, a.pkt.data);
      CopyMakes(r, a.pkt.data, x);
      BcastBalances(Copied(r, a.pkt.data), a, portIn, tmp, l.ports, x);
      BcastUsesTmp(Copied(r, a.pkt.data), a, portIn, tmp, l.ports);
      TimesConcat(BcastTo(Copied(r, a.pkt.data), a, portIn, tmp, l.ports).0.freed, [a.pkt], x);
    }
  }

  // ----- one round -----

  /** An arrival for another interface than its own, or a broadcast whose first copy succeeds. */
  predicate Proper(a: Arrival, portIn: nat, ports: nat) {
    if a.egress == BROADCAST then a.first else a.egress < ports && a.egress != portIn
  }

  /** A unicast beyond the array of transmit buffers. */
  predicate Unknown(a: Arrival, bufs: nat) {
    a.egress != BROADCAST && a.egress >= bufs
  }

  predicate SomeUnknown(arrivals: seq<Arrival>, bufs: nat) {
    arrivals != [] && (SomeUnknown(arrivals[..|arrivals| - 1], bufs) || Unknown(arrivals[|arrivals| - 1], bufs))
  }

  /** The arrival, or a copy of it, goes into buffer p. */
  predicate Gets(a: Arrival, portIn: nat, ports: nat, p: nat) {
    if a.egress == BROADCAST then a.first && p < ports && Reached(a, portIn, p) else a.egress == p
  }

  /** How many of the arrivals go into buffer p. */
  function Into(arrivals: seq<Arrival>, portIn: nat, ports: nat, p: nat): (n: nat)
    ensures n <= |arrivals|
  {
    if arrivals == [] then 0 else
      Into(arrivals[..|arrivals| - 1], portIn, ports, p)
      + if Gets(arrivals[|arrivals| - 1], portIn, ports, p) then 1 else 0
  }

  lemma {:induction false} BcastFills(l: Ledger, a: Arrival, portIn: nat, tmp: Pkt, n: nat)
    requires n <= |l.bufs|
    ensures var (l', first) := BcastTo(l, a, portIn, tmp, n);
            && |l'.bufs| == |l.bufs| && first == (n <= FirstOther(portIn))
            && (l'.fault <==> l.fault || exists p: nat ::
              p < n && Reached(a, portIn, p) && |l.bufs[p]| >= MAX_PKT_BURST)
            && (!l'.fault ==> forall p :: 0 <= p < |l.bufs| ==>
                  |l'.bufs[p]| == |l.bufs[p]| + if p < n && Reached(a, portIn, p) then 1 else 0)
  {
    if n > 0 {
      BcastFills(l, a, portIn, tmp, n - 1);
    }
  }

  /** One packet: it overruns when a buffer that gets it is full, or does not exist. */
  lemma SendFills(l: Ledger, a: Arrival, portIn: nat)
    requires !l.fault && l.ports <= |l.bufs|
    ensures var l' := Send(l, a, portIn);
            && |l'.bufs| == |l.bufs|
            && (l'.fault <==>
                  Unknown(a, |l.bufs|)
                  || exists p: nat :: p < |l.bufs| && Gets(a, portIn, l.ports, p) && |l.bufs[p]| >= MAX_PKT_BURST)
            && (!l'.fault ==> forall p :: 0 <= p < |l.bufs| ==>
                  |l'.bufs[p]| == |l.bufs[p]| + if Gets(a, portIn, l.ports, p) then 1 else 0)
  {
    if a.egress == BROADCAST && a.first {
      var m := Copied(l.(received := l.received + [a.pkt]), a.pkt.data);
      BcastFills(m, a, portIn, Pkt(l.next, a.pkt.data), l.ports);
    }
  }

  lemma SendKeepsFault(l: Ledger, a: Arrival, portIn: nat)
    requires l.fault
    ensures Send(l, a, portIn).fault
  {
    if a.egress == BROADCAST && a.first {
      var m := Copied(l.(received := l.received + [a.pkt]), a.pkt.data);
      BcastKeepsFault(m, a, portIn, Pkt(l.next, a.pkt.data), l.ports);
    }
  }

  lemma {:induction false} BcastKeepsFault(l: Ledger, a: Arrival, portIn: nat, tmp: Pkt, n: nat)
    requires l.fault
    ensures BcastTo(l, a, portIn, tmp, n).0.fault
  {
    if n > 0 {
      BcastKeepsFault(l, a, portIn, tmp, n - 1);
    }
  }

  lemma {:induction false} SendAllKeepsFault(l: Ledger, arrivals: seq<Arrival>, portIn: nat)
    requires l.fault
    ensures SendAll(l, arrivals, portIn).fault
  {
    if arrivals != [] {
      var n := |arrivals| - 1;
      SendAllKeepsFault(l, arrivals[..n], portIn);
      SendKeepsFault(SendAll(l, arrivals[..n], portIn), arrivals[n], portIn);
    }
  }

  /** Some buffer gets more than it holds. */
  ghost predicate Overfull(bufs: seq<seq<Pkt>>, arrivals: seq<Arrival>, portIn: nat, ports: nat) {
    exists p: nat :: p < |bufs| && |bufs[p]| + Into(arrivals, portIn, ports, p) > MAX_PKT_BURST
  }

  /** The arrivals of one round: when there is a fault, and how full every buffer gets. */
  lemma {:induction false} SendAllFills(l: Ledger, arrivals: seq<Arrival>, portIn: nat)
    requires !l.fault && l.ports <= |l.bufs| && RoomFor(l.bufs, 0)
    ensures var l' := SendAll(l, arrivals, portIn);
            && |l'.bufs| == |l.bufs|
            && (l'.fault <==> SomeUnknown(arrivals, |l.bufs|) || Overfull(l.bufs, arrivals, portIn, l.ports))
            && (!l'.fault ==> forall p :: 0 <= p < |l.bufs| ==>
                  |l'.bufs[p]| == |l.bufs[p]| + Into(arrivals, portIn, l.ports, p))
  {
    if arrivals != [] {
      hide Send, Gets, Unknown;
      var n := |arrivals| - 1;
      var m, a := SendAll(l, arrivals[..n], portIn), arrivals[n];
      SendAllPorts(l, arrivals[..n], portIn);
      SendAllFills(l, arrivals[..n], portIn);
      if m.fault {
        SendKeepsFault(m, a, portIn);
        SendAllPorts(l, arrivals, portIn);
      } else {
        SendFills(m, a, portIn);
      }
    }
  }

  /** The exact ledger: without a fault only the originals of failed broadcasts are missing. */
  lemma {:induction false} SendAllBalances(l: Ledger, arrivals: seq<Arrival>, portIn: nat, x: Pkt)
    requires !SendAll(l, arrivals, portIn).fault && l.ports >= 2
    ensures var l' := SendAll(l, arrivals, portIn);
            Accounted(l', x) + Made(l, x) + Times(Leaked(arrivals), x) == Accounted(l, x) + Made(l', x)
  {
    if arrivals != [] {
      var n := |arrivals| - 1;
      var m, a := SendAll(l, arrivals[..n], portIn), arrivals[n];
      TimesConcat(Leaked(arrivals[..n]), if a.egress == BROADCAST && !a.first then [a.pkt] else [], x);
      hide Made, Accounted, Send;
      if m.fault {
        SendKeepsFault(m, a, portIn);
      } else {
        SendAllPorts(l, arrivals[..n], portIn);
        SendAllBalances(l, arrivals[..n], portIn, x);
        SendBalances(m, a, portIn, x);
      }
    }
  }

  /** A burst sends some packets and frees the rest; an error result is a fault. */
  lemma BurstIs(l: Ledger, port: nat, r: int)
    requires !l.fault && port < |l.bufs| && |l.bufs[port]| <= MAX_PKT_BURST && -1 <= r <= |l.bufs[port]|
    ensures Burst(l, port, r).fault <==> r < 0
    ensures var b := l.bufs[port];
            r >= 0 ==> Burst(l, port, r) == l.(bufs := l.bufs[port := []], sent := l.sent + On(port, b[..r]),
              freed := l.freed + b[r..])
  {
    var b := l.bufs[port];
    if r < 0 {
      assert r % 0x1_0000 == 0xffff;
      assert (|b| - 0xffff) % 0x1_0000 == |b| + 1;
    } else {
      assert r % 0x1_0000 == r && (|b| - r) % 0x1_0000 == |b| - r;
      assert b[r..r + (|b| - r)] == b[r..];
    }
  }

  lemma SplitTimes(b: seq<Pkt>, r: nat, x: Pkt)
    requires r <= |b|
    ensures Times(b[..r], x) + Times(b[r..], x) == Times(b, x) && Times([], x) == 0
  {
    TimesConcat(b[..r], b[r..], x);
    assert b == b[..r] + b[r..];
  }

  lemma BurstBalances(l: Ledger, port: nat, r: int, x: Pkt)
    requires !l.fault && port < |l.bufs| && |l.bufs[port]| <= MAX_PKT_BURST && 0 <= r <= |l.bufs[port]|
    ensures Made(Burst(l, port, r), x) == Made(l, x) && Accounted(Burst(l, port, r), x) == Accounted(l, x)
  {
    var b := l.bufs[port];
    BurstIs(l, port, r);
    WaitingUpdate(l.bufs, port, [], x);
    hide Times, Burst, Packets;
    PacketsMore(l.sent, port, b[..r]);
    TimesConcat(Packets(l.sent), b[..r], x);
    TimesConcat(l.freed, b[r..], x);
    SplitTimes(b, r, x);
  }

  /** What odp_pktout_send may return for each buffer. */
  ghost predicate SendContract(bufs: seq<seq<Pkt>>, sends: seq<int>) {
    |sends| <= |bufs| && forall p :: 0 <= p < |sends| ==> -1 <= sends[p] <= |bufs[p]|
  }

  /** Some send to one of the first n ports fails. */
  predicate SomeSendFails(bufs: seq<seq<Pkt>>, portIn: nat, sends: seq<int>, n: nat)
    requires n <= |sends| <= |bufs|
  {
    n > 0 && (SomeSendFails(bufs, portIn, sends, n - 1) || (n - 1 != portIn && bufs[n - 1] != [] && sends[n - 1] < 0))
  }

  lemma {:induction false} FlushEmpties(l: Ledger, portIn: nat, sends: seq<int>, n: nat)
    requires !l.fault && n <= |sends| && SendContract(l.bufs, sends) && RoomFor(l.bufs, 0)
    ensures var l' := FlushTo(l, portIn, sends, n);
            && (l'.fault <==> SomeSendFails(l.bufs, portIn, sends, n))
            && (!l'.fault ==> forall p :: 0 <= p < |l.bufs| ==>
              l'.bufs[p] == if p < n && p != portIn then [] else l.bufs[p])
  {
    if n > 0 {
      var m := FlushTo(l, portIn, sends, n - 1);
      FlushEmpties(l, portIn, sends, n - 1);
      if n - 1 != portIn && m.bufs[n - 1] != [] {
        BurstKeepsFault(m, n - 1, sends[n - 1]);
        if !m.fault {
          BurstIs(m, n - 1, sends[n - 1]);
        }
      }
    }
  }

  lemma {:induction false} FlushBalances(l: Ledger, portIn: nat, sends: seq<int>, n: nat, x: Pkt)
    requires !l.fault && n <= |sends| && SendContract(l.bufs, sends) && RoomFor(l.bufs, 0)
    requires !FlushTo(l, portIn, sends, n).fault
    ensures var l' := FlushTo(l, portIn, sends, n); Made(l', x) == Made(l, x) && Accounted(l', x) == Accounted(l, x)
  {
    if n > 0 {
      hide Made, Accounted, Burst;
      var m := FlushTo(l, portIn, sends, n - 1);
      FlushEmpties(l, portIn, sends, n - 1);
      if n - 1 != portIn && m.bufs[n - 1] != [] {
        BurstKeepsFault(m, n - 1, sends[n - 1]);
        if !m.fault {
          BurstIs(m, n - 1, sends[n - 1]);
          BurstBalances(m, n - 1, sends[n - 1], x);
        }
      }
      FlushBalances(l, portIn, sends, n - 1, x);
    }
  }

  lemma BurstKeepsFault(l: Ledger, port: nat, r: int)
    requires port < |l.bufs|
    ensures l.fault ==> Burst(l, port, r).fault
  {
  }

  // ----- whole runs -----

  /** Between rounds: nothing went wrong, nothing waits, every packet is sent or freed. */
  ghost predicate Clean(l: Ledger) {
    !l.fault && (forall p :: 0 <= p < |l.bufs| ==> l.bufs[p] == []) && forall x :: Accounted(l, x) == Made(l, x)
  }

  ghost predicate RoundContract(l: Ledger, it: Round) {
    && it.portIn < l.ports <= |l.bufs| && |it.arrivals| <= MAX_PKT_BURST && |it.sends| == l.ports
    && |SendAll(l, it.arrivals, it.portIn).bufs| == |l.bufs|
    && SendContract(SendAll(l, it.arrivals, it.portIn).bufs, it.sends)
  }

  /** No call to odp_pktout_send fails. */
  ghost predicate SendsSucceed(l: Ledger, it: Round)
    requires RoundContract(l, it)
  {
    !SomeSendFails(SendAll(l, it.arrivals, it.portIn).bufs, it.portIn, it.sends, l.ports)
  }

  /** Buffers that no round with this ingress port sends: that of the ingress port and those
      without an interface. */
  ghost predicate NoneKept(arrivals: seq<Arrival>, portIn: nat, ports: nat, bufs: nat) {
    forall p: nat :: p < bufs && (p == portIn || p >= ports) ==> Into(arrivals, portIn, ports, p) == 0
  }

  lemma {:induction false} ProperMeans(arrivals: seq<Arrival>, portIn: nat, ports: nat, bufs: nat)
    requires portIn < ports <= bufs
    ensures (!SomeUnknown(arrivals, bufs) && NoneKept(arrivals, portIn, ports, bufs) && Leaked(arrivals) == [])
            <==> forall a :: a in arrivals ==> Proper(a, portIn, ports)
  {
    if arrivals != [] {
      var n := |arrivals| - 1;
      var a := arrivals[n];
      ProperMeans(arrivals[..n], portIn, ports, bufs);
      assert arrivals == arrivals[..n] + [a];
      assert forall b :: b in arrivals <==> b in arrivals[..n] || b == a;
      assert |Leaked(arrivals)| == |Leaked(arrivals[..n])| + if a.egress == BROADCAST && !a.first then 1 else 0;
      OneProper(a, portIn, ports, bufs);
      NoneKeptSplits(arrivals[..n], a, portIn, ports, bufs);
      assert a.egress < bufs && a.egress != BROADCAST ==> Gets(a, portIn, ports, a.egress);
    }
  }

  /** None of the buffers that are not sent gets the arrival. */
  ghost predicate NoneGets(a: Arrival, portIn: nat, ports: nat, bufs: nat) {
    forall p: nat :: p < bufs && (p == portIn || p >= ports) ==> !Gets(a, portIn, ports, p)
  }

  lemma NoneKeptSplits(front: seq<Arrival>, a: Arrival, portIn: nat, ports: nat, bufs: nat)
    ensures NoneKept(front + [a], portIn, ports, bufs) <==>
      NoneKept(front, portIn, ports, bufs) && NoneGets(a, portIn, ports, bufs)
  {
    forall p: nat
      ensures Into(front + [a], portIn, ports, p)
              == Into(front, portIn, ports, p) + if Gets(a, portIn, ports, p) then 1 else 0
    {
      assert (front + [a])[..|front|] == front;
    }
    hide Gets, Into;
    if NoneKept(front + [a], portIn, ports, bufs) {
      forall p: nat | p < bufs && (p == portIn || p >= ports)
        ensures Into(front, portIn, ports, p) == 0 && !Gets(a, portIn, ports, p)
      {
        assert Into(front + [a], portIn, ports, p) == 0;
      }
    }
  }

  lemma OneProper(a: Arrival, portIn: nat, ports: nat, bufs: nat)
    requires portIn < ports <= bufs
    ensures Proper(a, portIn, ports) <==>
      && !Unknown(a, bufs) && (a.egress == BROADCAST ==> a.first)
      && (a.egress < bufs && a.egress != BROADCAST ==> !(a.egress == portIn || a.egress >= ports))
    ensures Proper(a, portIn, ports) ==> NoneGets(a, portIn, ports, bufs)
  {
  }

  /** A round keeps a clean ledger clean exactly when no send fails and every packet goes to
      another interface or is a broadcast whose first copy succeeds. No buffer exceeds the burst
      size. */
  lemma RoundIsCleanIff(l: Ledger, it: Round)
    requires Clean(l) && l.ports >= 2 && RoundContract(l, it)
    ensures Clean(Iterate(l, it)) <==>
      (forall a :: a in it.arrivals ==> Proper(a, it.portIn, l.ports)) && SendsSucceed(l, it)
    ensures |Iterate(l, it).bufs| == |l.bufs| && Iterate(l, it).ports == l.ports
    ensures var l' := SendAll(l, it.arrivals, it.portIn); !l'.fault ==> RoomFor(l'.bufs, 0)
  {
    var ars, n := it.arrivals, l.ports;
    var m := SendAll(l, ars, it.portIn);
    ProperMeans(ars, it.portIn, n, |l.bufs|);
    SendAllFills(l, ars, it.portIn);
    SendAllPorts(l, ars, it.portIn);
    hide SendAll, Proper, SomeUnknown, Into, Leaked, SomeSendFails;
    if ars == [] {
      SendAllNone(l, it.portIn);
      EmptyNeverFails(l.bufs, it.portIn, it.sends, n);
    } else if m.fault {
      FlushKeepsFault(m, it.portIn, it.sends, n);
    } else {
      FlushEmpties(m, it.portIn, it.sends, n);
      if !Iterate(l, it).fault {
        RoundBalances(l, it);
      }
    }
  }

  lemma SendAllNone(l: Ledger, portIn: nat)
    ensures SendAll(l, [], portIn) == l
  {
  }

  lemma {:induction false} EmptyNeverFails(bufs: seq<seq<Pkt>>, portIn: nat, sends: seq<int>, n: nat)
    requires n <= |sends| <= |bufs| && forall p :: 0 <= p < |bufs| ==> bufs[p] == []
    ensures !SomeSendFails(bufs, portIn, sends, n)
  {
    if n > 0 {
      EmptyNeverFails(bufs, portIn, sends, n - 1);
    }
  }

  lemma {:induction false} FlushKeepsFault(l: Ledger, portIn: nat, sends: seq<int>, n: nat)
    requires l.fault && n <= |l.bufs| && |sends| >= n
    ensures FlushTo(l, portIn, sends, n).fault
  {
    if n > 0 {
      FlushKeepsFault(l, portIn, sends, n - 1);
      BurstKeepsFault(FlushTo(l, portIn, sends, n - 1), n - 1, sends[n - 1]);
    }
  }

  /** After a round without a fault the ledger balances up to the leaked packets. */
  lemma RoundBalances(l: Ledger, it: Round)
    requires Clean(l) && l.ports >= 2 && RoundContract(l, it) && it.arrivals != [] && !Iterate(l, it).fault
    ensures forall x :: Accounted(Iterate(l, it), x) + Times(Leaked(it.arrivals), x) == Made(Iterate(l, it), x)
    ensures (forall x :: Accounted(Iterate(l, it), x) == Made(Iterate(l, it), x)) <==> Leaked(it.arrivals) == []
  {
    hide Made, Accounted;
    var m := SendAll(l, it.arrivals, it.portIn);
    SendAllFills(l, it.arrivals, it.portIn);
    if m.fault {
      FlushKeepsFault(m, it.portIn, it.sends, l.ports);
    }
    forall x ensures Accounted(Iterate(l, it), x) + Times(Leaked(it.arrivals), x) == Made(Iterate(l, it), x) {
      SendAllBalances(l, it.arrivals, it.portIn, x);
      FlushBalances(m, it.portIn, it.sends, l.ports, x);
    }
    if Leaked(it.arrivals) != [] {
      assert Times(Leaked(it.arrivals), Leaked(it.arrivals)[0]) > 0;
    }
  }

  ghost predicate CanRun(l: Ledger, rounds: seq<Round>)
    decreases |rounds|
  {
    rounds == [] || (RoundContract(l, rounds[0]) && CanRun(Iterate(l, rounds[0]), rounds[1..]))
  }

  function Run(l: Ledger, rounds: seq<Round>): Ledger
    requires CanRun(l, rounds)
    decreases |rounds|
  {
    if rounds == [] then l else Run(Iterate(l, rounds[0]), rounds[1..])
  }

  /** Every round is proper and its sends succeed. */
  ghost predicate Orderly(l: Ledger, rounds: seq<Round>)
    requires CanRun(l, rounds)
    decreases |rounds|
  {
    rounds == [] ||
    ((forall a :: a in rounds[0].arrivals ==> Proper(a, rounds[0].portIn, l.ports)) && SendsSucceed(l, rounds[0])
     && Orderly(Iterate(l, rounds[0]), rounds[1..]))
  }

  /** Over a whole orderly run of a worker with at least two ports every packet received or copied
      is sent or freed exactly once. */
  lemma {:induction false} RunIsClean(l: Ledger, rounds: seq<Round>)
    requires Clean(l) && l.ports >= 2 && CanRun(l, rounds) && Orderly(l, rounds)
    ensures Clean(Run(l, rounds))
    decreases |rounds|
  {
    if rounds != [] {
      hide Clean, RoundContract, Iterate, Proper;
      RoundIsCleanIff(l, rounds[0]);
      RunIsClean(Iterate(l, rounds[0]), rounds[1..]);
    }
  }

  lemma {:induction false} NothingWaiting(bufs: seq<seq<Pkt>>, x: Pkt)
    requires forall p :: 0 <= p < |bufs| ==> bufs[p] == []
    ensures Waiting(bufs, x) == 0
  {
    if bufs != [] {
      NothingWaiting(bufs[..|bufs| - 1], x);
    }
  }

  /** A worker starts clean. */
  lemma FreshIsClean(ports: nat)
    ensures Clean(Fresh(ports))
  {
    forall x ensures Accounted(Fresh(ports), x) == Made(Fresh(ports), x) {
      NothingWaiting(Fresh(ports).bufs, x);
    }
  }

  lemma FreshRunIsClean(ports: nat, rounds: seq<Round>)
    requires ports >= 2 && CanRun(Fresh(ports), rounds) && Orderly(Fresh(ports), rounds)
    ensures Clean(Run(Fresh(ports), rounds))
  {
    FreshIsClean(ports);
    RunIsClean(Fresh(ports), rounds);
  }

  // ----- exactly when a run faults -----

  /** The packets waiting in buffer p after the rounds: a round with arrivals sends the buffers of
      all interfaces but the one it polled. */
  function Kept(ports: nat, rounds: seq<Round>, p: nat): nat {
    if rounds == [] then 0 else
      var before, it := rounds[..|rounds| - 1], rounds[|rounds| - 1];
      if it.arrivals == [] then Kept(ports, before, p)
      else if p < ports && p != it.portIn then 0
      else Kept(ports, before, p) + Into(it.arrivals, it.portIn, ports, p)
  }

  /** What buffer p has to hold in a round. */
  function Peak(ports: nat, before: seq<Round>, it: Round, p: nat): nat {
    Kept(ports, before, p) + Into(it.arrivals, it.portIn, ports, p)
  }

  /** A packet goes to a port beyond the array, a buffer has to hold more than a burst since it was
      last sent, or a send of a buffer that is not empty fails. */
  ghost predicate RoundFaults(ports: nat, before: seq<Round>, it: Round) {
    it.arrivals != [] &&
    (|| SomeUnknown(it.arrivals, MAX_PKTIOS)
     || (exists p: nat :: p < MAX_PKTIOS && Peak(ports, before, it, p) > MAX_PKT_BURST)
     || exists p: nat ::
          p < ports && p < |it.sends| && p != it.portIn && Peak(ports, before, it, p) > 0 && it.sends[p] < 0)
  }

  /** The ledger holds what the rounds before say. */
  ghost predicate Holds(l: Ledger, ports: nat, before: seq<Round>) {
    && !l.fault && l.ports == ports && |l.bufs| == MAX_PKTIOS && RoomFor(l.bufs, 0)
    && forall p: nat :: p < MAX_PKTIOS ==> |l.bufs[p]| == Kept(ports, before, p)
  }

  lemma {:induction false} SomeSendFailsIff(bufs: seq<seq<Pkt>>, portIn: nat, sends: seq<int>, n: nat)
    requires n <= |sends| <= |bufs|
    ensures SomeSendFails(bufs, portIn, sends, n) <==>
      exists p: nat :: p < n && p != portIn && |bufs[p]| > 0 && sends[p] < 0
  {
    if n > 0 {
      SomeSendFailsIff(bufs, portIn, sends, n - 1);
    }
  }

  lemma RoundFaultsIff(l: Ledger, ports: nat, before: seq<Round>, it: Round)
    requires Holds(l, ports, before) && RoundContract(l, it)
    ensures Iterate(l, it).fault <==> RoundFaults(ports, before, it)
    ensures !Iterate(l, it).fault ==> Holds(Iterate(l, it), ports, before + [it])
  {
    var m := SendAll(l, it.arrivals, it.portIn);
    assert (before + [it])[..|before|] == before;
    SendAllPorts(l, it.arrivals, it.portIn);
    SendAllFills(l, it.arrivals, it.portIn);
    hide SendAll, Into, SomeUnknown, SomeSendFails;
    if it.arrivals != [] {
      if m.fault {
        FlushKeepsFault(m, it.portIn, it.sends, ports);
        OverfullIsPeak(l, ports, before, it);
      } else {
        OverfullIsPeak(l, ports, before, it);
        FlushEmpties(m, it.portIn, it.sends, ports);
        SomeSendFailsIff(m.bufs, it.portIn, it.sends, ports);
        assert forall p: nat :: p < MAX_PKTIOS ==> |m.bufs[p]| == Peak(ports, before, it, p);
      }
    }
  }

  lemma OverfullIsPeak(l: Ledger, ports: nat, before: seq<Round>, it: Round)
    requires Holds(l, ports, before)
    ensures Overfull(l.bufs, it.arrivals, it.portIn, ports) <==>
      exists p: nat :: p < MAX_PKTIOS && Peak(ports, before, it, p) > MAX_PKT_BURST
  {
    hide Into, Kept;
    if Overfull(l.bufs, it.arrivals, it.portIn, ports) {
      var p: nat :| p < |l.bufs| && |l.bufs[p]| + Into(it.arrivals, it.portIn, ports, p) > MAX_PKT_BURST;
      assert Peak(ports, before, it, p) > MAX_PKT_BURST;
    }
    if p: nat :| p < MAX_PKTIOS && Peak(ports, before, it, p) > MAX_PKT_BURST {
      assert |l.bufs[p]| + Into(it.arrivals, it.portIn, ports, p) > MAX_PKT_BURST;
    }
  }

  lemma IterateKeepsFault(l: Ledger, it: Round)
    requires l.fault && |it.sends| == l.ports <= |l.bufs|
    ensures Iterate(l, it).fault
  {
    SendAllKeepsFault(l, it.arrivals, it.portIn);
    SendAllPorts(l, it.arrivals, it.portIn);
    FlushKeepsFault(SendAll(l, it.arrivals, it.portIn), it.portIn, it.sends, l.ports);
  }

  lemma ContractMeansSends(l: Ledger, it: Round)
    requires RoundContract(l, it)
    ensures |it.sends| == l.ports <= |l.bufs|
  {
  }

  lemma {:induction false} RunSnoc(l: Ledger, rounds: seq<Round>, it: Round)
    requires CanRun(l, rounds + [it])
    ensures CanRun(l, rounds) && RoundContract(Run(l, rounds), it)
    ensures Run(l, rounds + [it]) == Iterate(Run(l, rounds), it)
    decreases |rounds|
  {
    hide RoundContract, Iterate;
    if rounds == [] {
      assert [] + [it] == [it] && [it][1..] == [];
    } else {
      assert (rounds + [it])[0] == rounds[0] && (rounds + [it])[1..] == rounds[1..] + [it];
      ContractMeansSends(l, rounds[0]);
      RunSnoc(Iterate(l, rounds[0]), rounds[1..], it);
    }
  }

  /** Whatever the rounds bring, a worker's run faults exactly when one of its rounds does: that
      can be read off the packets' egress ports and the results of the sends alone. */
  lemma {:induction false} RunFaultsIff(ports: nat, rounds: seq<Round>)
    requires ports <= MAX_PKTIOS && CanRun(Fresh(ports), rounds)
    ensures Run(Fresh(ports), rounds).fault <==>
      exists i :: 0 <= i < |rounds| && RoundFaults(ports, rounds[..i], rounds[i])
    ensures !Run(Fresh(ports), rounds).fault ==> Holds(Run(Fresh(ports), rounds), ports, rounds)
    decreases |rounds|
  {
    if rounds != [] {
      hide RoundContract, Iterate, Holds, RoundFaults, Fresh;
      var n := |rounds| - 1;
      var before, it := rounds[..n], rounds[n];
      assert rounds == before + [it];
      RunSnoc(Fresh(ports), before, it);
      RunFaultsIff(ports, before);
      assert forall i :: 0 <= i < n ==> rounds[..i] == before[..i] && rounds[i] == before[i];
      if Run(Fresh(ports), before).fault {
        ContractMeansSends(Run(Fresh(ports), before), it);
        IterateKeepsFault(Run(Fresh(ports), before), it);
      } else {
        RoundFaultsIff(Run(Fresh(ports), before), ports, before, it);
      }
    }
  }

  /** Packets that return to their own port are never sent while that port is polled: the second
      full burst runs over the end of the buffer. */
  lemma ReturningOverruns(l: Ledger, it: Round)
    requires Clean(l) && it.portIn == 0 && l.ports == 2 <= |l.bufs| && it.sends == [0, 0]
    requires |it.arrivals| == MAX_PKT_BURST && forall a :: a in it.arrivals ==> a.egress == 0
    ensures !Iterate(l, it).fault && Iterate(Iterate(l, it), it).fault
  {
    AllReturn(it.arrivals, |l.bufs|);
    SendAllFills(l, it.arrivals, 0);
    SendAllPorts(l, it.arrivals, 0);
    var m := SendAll(l, it.arrivals, 0);
    assert |m.bufs[1]| == Into(it.arrivals, 0, 2, 1) == 0;
    assert FlushTo(m, 0, it.sends, 1) == FlushTo(m, 0, it.sends, 0) == m;
    assert FlushTo(m, 0, it.sends, 2) == m == Iterate(l, it);
    SendAllFills(m, it.arrivals, 0);
    assert |m.bufs[0]| + Into(it.arrivals, 0, 2, 0) > MAX_PKT_BURST;
    SendAllPorts(m, it.arrivals, 0);
    FlushKeepsFault(SendAll(m, it.arrivals, 0), 0, it.sends, 2);
  }

  lemma {:induction false} AllReturn(arrivals: seq<Arrival>, bufs: nat)
    requires bufs > 0 && forall a :: a in arrivals ==> a.egress == 0
    ensures !SomeUnknown(arrivals, bufs) && Into(arrivals, 0, 2, 0) == |arrivals| && Into(arrivals, 0, 2, 1) == 0
  {
    if arrivals != [] {
      AllReturn(arrivals[..|arrivals| - 1], bufs);
    }
  }
}

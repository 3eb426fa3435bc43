/** What each port transmits: the packets for it and no others, in the order in which they came. */
module WorkerForwarding {
  import opened Workers
  import opened WorkerLedger

  function DataOf(pkts: seq<Pkt>): seq<nat> {
    seq(|pkts|, i requires 0 <= i < |pkts| => pkts[i].data)
  }

  /** What a port has sent. */
  function SentOn(sent: seq<Sending>, port: nat): seq<Pkt> {
    if sent == [] then [] else
      var s := sent[|sent| - 1];
      SentOn(sent[..|sent| - 1], port) + if s.port == port then [s.pkt] else []
  }

  lemma DataConcat(s: seq<Pkt>, t: seq<Pkt>)
    ensures DataOf(s + t) == DataOf(s) + DataOf(t)
  {
  }

  lemma {:induction false} SentOnMore(sent: seq<Sending>, port: nat, pkts: seq<Pkt>, p: nat)
    ensures SentOn(sent + On(port, pkts), p) == SentOn(sent, p) + if p == port then pkts else []
    decreases |pkts|
  {
    var all := sent + On(port, pkts);
    if pkts == [] {
      assert all == sent;
    } else {
      var n := |pkts| - 1;
      assert all[..|all| - 1] == sent + On(port, pkts[..n]);
      SentOnMore(sent, port, pkts[..n], p);
      assert pkts == pkts[..n] + [pkts[n]];
    }
  }

  // ----- what the rounds mean for a port -----

  /** The data of the arrivals that are for buffer p, in order. */
  function For(arrivals: seq<Arrival>, portIn: nat, ports: nat, p: nat): seq<nat> {
    if arrivals == [] then [] else
      var a := arrivals[|arrivals| - 1];
      For(arrivals[..|arrivals| - 1], portIn, ports, p) + if Gets(a, portIn, ports, p) then [a.pkt.data] else []
  }

  /** A round with arrivals sends what interface p has, unless p is the port it polled. */
  predicate Flushes(it: Round, ports: nat, p: nat) {
    it.arrivals != [] && p < ports && p != it.portIn
  }

  /** What waits in buffer p after the rounds. */
  function Left(ports: nat, rounds: seq<Round>, p: nat): seq<nat> {
    if rounds == [] then [] else
      var before, it := rounds[..|rounds| - 1], rounds[|rounds| - 1];
      if Flushes(it, ports, p) then [] else Left(ports, before, p) + For(it.arrivals, it.portIn, ports, p)
  }

  /** The first n of the waiting packets are taken, the others dropped. */
  function Taken(queue: seq<nat>, n: int): seq<nat> {
    if 0 <= n <= |queue| then queue[..n] else []
  }

  /** What port p has transmitted after the rounds. */
  function Passed(ports: nat, rounds: seq<Round>, p: nat): seq<nat> {
    if rounds == [] then [] else
      var before, it := rounds[..|rounds| - 1], rounds[|rounds| - 1];
      Passed(ports, before, p) +
      if Flushes(it, ports, p) && p < |it.sends|
      then Taken(Left(ports, before, p) + For(it.arrivals, it.portIn, ports, p), it.sends[p]) else []
  }

  // ----- one packet -----

  lemma EnqueuePuts(l: Ledger, port: nat, pkt: Pkt, p: nat)
    requires p < |l.bufs| && !Enqueue(l, port, pkt).fault
    ensures var l' := Enqueue(l, port, pkt);
            && !l.fault && |l'.bufs| == |l.bufs| && l'.sent == l.sent
            && DataOf(l'.bufs[p]) == DataOf(l.bufs[p]) + if p == port then [pkt.data] else []
  {
    DataConcat(l.bufs[p], [pkt]);
  }

  lemma {:induction false} BcastPuts(l: Ledger, a: Arrival, portIn: nat, tmp: Pkt, n: nat, p: nat)
    requires n <= |l.bufs| && p < |l.bufs| && tmp.data == a.pkt.data && !BcastTo(l, a, portIn, tmp, n).0.fault
    ensures var l' := BcastTo(l, a, portIn, tmp, n).0;
            && |l'.bufs| == |l.bufs| && l'.sent == l.sent
            && DataOf(l'.bufs[p]) == DataOf(l.bufs[p]) + if p < n && Reached(a, portIn, p) then [a.pkt.data] else []
  {
    if n > 0 {
      BcastUsesTmp(l, a, portIn, tmp, n - 1);
      BcastToPorts(l, a, portIn, tmp, n - 1);
      hide Enqueue, DataOf;
      var (m, first) := BcastTo(l, a, portIn, tmp, n - 1);
      var port := n - 1;
      if port != portIn && first {
        EnqueuePuts(m, port, tmp, p);
      } else if port != portIn && port < |a.later| && a.later[port] {
        EnqueuePuts(Copied(m, a.pkt.data), port, Pkt(m.next, a.pkt.data), p);
      }
      BcastPuts(l, a, portIn, tmp, n - 1, p);
    }
  }

  lemma SendPuts(l: Ledger, a: Arrival, portIn: nat, p: nat)
    requires l.ports <= |l.bufs| && p < |l.bufs| && !Send(l, a, portIn).fault
    ensures var l' := Send(l, a, portIn);
            && |l'.bufs| == |l.bufs| && l'.sent == l.sent
            && DataOf(l'.bufs[p]) == DataOf(l.bufs[p]) + if Gets(a, portIn, l.ports, p) then [a.pkt.data] else []
  {
    hide DataOf, Enqueue;
    if a.egress != BROADCAST {
      EnqueuePuts(l.(received := l.received + [a.pkt]), a.egress, a.pkt, p);
    } else if a.first {
      var m := Copied(l.(received := l.received + [a.pkt]), a.pkt.data);
      BcastPuts(m, a, portIn, Pkt(l.next, a.pkt.data), l.ports, p);
    }
  }

  // ----- one round -----

  lemma {:induction false} SendAllPuts(l: Ledger, arrivals: seq<Arrival>, portIn: nat, p: nat)
    requires l.ports <= |l.bufs| && p < |l.bufs| && !SendAll(l, arrivals, portIn).fault
    ensures var l' := SendAll(l, arrivals, portIn);
            && |l'.bufs| == |l.bufs| && l'.sent == l.sent
            && DataOf(l'.bufs[p]) == DataOf(l.bufs[p]) + For(arrivals, portIn, l.ports, p)
  {
    if arrivals != [] {
      hide Send, Gets;
      var n := |arrivals| - 1;
      var m, a := SendAll(l, arrivals[..n], portIn), arrivals[n];
      if m.fault {
        SendKeepsFault(m, a, portIn);
      } else {
        SendAllPorts(l, arrivals[..n], portIn);
        SendAllPuts(l, arrivals[..n], portIn, p);
        SendPuts(m, a, portIn, p);
      }
    }
  }

  lemma BurstPasses(l: Ledger, port: nat, r: int, p: nat)
    requires !l.fault && port < |l.bufs| && |l.bufs[port]| <= MAX_PKT_BURST && 0 <= r <= |l.bufs[port]|
    ensures DataOf(SentOn(Burst(l, port, r).sent, p))
            == DataOf(SentOn(l.sent, p)) + if p == port then Taken(DataOf(l.bufs[port]), r) else []
  {
    BurstIs(l, port, r);
    hide Burst, SentOn;
    SentOnMore(l.sent, port, l.bufs[port][..r], p);
    DataConcat(SentOn(l.sent, p), l.bufs[port][..r]);
    assert Taken(DataOf(l.bufs[port]), r) == DataOf(l.bufs[port][..r]);
    assert SentOn(l.sent, p) + [] == SentOn(l.sent, p);
  }

  lemma NoneTaken(r: int)
    ensures DataOf([]) == [] && Taken(DataOf([]), r) == []
  {
  }

  lemma FlushMore(l: Ledger, portIn: nat, sends: seq<int>, n: nat)
    requires 0 < n <= |l.bufs| && n <= |sends|
    ensures var m := FlushTo(l, portIn, sends, n - 1);
            |m.bufs| == |l.bufs| && FlushTo(l, portIn, sends, n) == Flushed(m, portIn, sends[n - 1], n - 1)
  {
  }

  /** One step of the send loop. */
  function Flushed(l: Ledger, portIn: nat, r: int, port: nat): Ledger
    requires port < |l.bufs|
  {
    if port == portIn || l.bufs[port] == [] then l else Burst(l, port, r)
  }

  lemma FlushedPasses(l: Ledger, portIn: nat, r: int, port: nat, p: nat)
    requires port < |l.bufs| && |l.bufs[port]| <= MAX_PKT_BURST && -1 <= r <= |l.bufs[port]|
    requires !Flushed(l, portIn, r, port).fault
    ensures !l.fault && DataOf(SentOn(Flushed(l, portIn, r, port).sent, p))
            == if p == port && p != portIn then DataOf(SentOn(l.sent, p)) + Taken(DataOf(l.bufs[p]), r)
               else DataOf(SentOn(l.sent, p))
  {
    NoneTaken(r);
    if port != portIn && l.bufs[port] != [] {
      BurstKeepsFault(l, port, r);
      BurstIs(l, port, r);
      BurstPasses(l, port, r, p);
    }
    assert DataOf(SentOn(l.sent, p)) + [] == DataOf(SentOn(l.sent, p));
  }

  /** Before its own step the buffer of a port is as it was. */
  lemma FlushReaches(l: Ledger, portIn: nat, sends: seq<int>, n: nat)
    requires !l.fault && 0 < n <= |sends| && SendContract(l.bufs, sends) && RoomFor(l.bufs, 0)
    requires !FlushTo(l, portIn, sends, n).fault
    ensures var m := FlushTo(l, portIn, sends, n - 1);
            && !m.fault && |m.bufs| == |l.bufs| && m.bufs[n - 1] == l.bufs[n - 1]
            && FlushTo(l, portIn, sends, n) == Flushed(m, portIn, sends[n - 1], n - 1)
            && |l.bufs[n - 1]| <= MAX_PKT_BURST && -1 <= sends[n - 1] <= |l.bufs[n - 1]|
  {
    var m := FlushTo(l, portIn, sends, n - 1);
    FlushMore(l, portIn, sends, n);
    FlushEmpties(l, portIn, sends, n - 1);
    hide FlushTo, SomeSendFails, Burst;
    BurstKeepsFault(m, n - 1, sends[n - 1]);
  }

  lemma {:induction false} FlushPasses(l: Ledger, portIn: nat, sends: seq<int>, n: nat, p: nat)
    requires !l.fault && n <= |sends| && SendContract(l.bufs, sends) && RoomFor(l.bufs, 0) && p < |l.bufs|
    requires !FlushTo(l, portIn, sends, n).fault
    ensures var l' := FlushTo(l, portIn, sends, n);
            && |l'.bufs| == |l.bufs|
            && DataOf(SentOn(l'.sent, p))
               == if p < n && p != portIn then DataOf(SentOn(l.sent, p)) + Taken(DataOf(l.bufs[p]), sends[p])
                  else DataOf(SentOn(l.sent, p))
  {
    if n > 0 {
      var m, q := FlushTo(l, portIn, sends, n - 1), n - 1;
      FlushReaches(l, portIn, sends, n);
      hide Flushed, SentOn, SomeSendFails, FlushTo, Taken, DataOf;
      FlushedPasses(m, portIn, sends[q], q, p);
      FlushPasses(l, portIn, sends, n - 1, p);
    }
  }

  /** The ledger says of port p what the rounds before say. */
  ghost predicate Shows(l: Ledger, rounds: seq<Round>, p: nat) {
    && p < |l.bufs| && DataOf(l.bufs[p]) == Left(l.ports, rounds, p)
    && DataOf(SentOn(l.sent, p)) == Passed(l.ports, rounds, p)
  }

  lemma RoundShows(l: Ledger, before: seq<Round>, it: Round, p: nat)
    requires !l.fault && RoomFor(l.bufs, 0) && RoundContract(l, it) && Shows(l, before, p)
    requires !Iterate(l, it).fault
    ensures Shows(Iterate(l, it), before + [it], p)
  {
    LeftMore(l.ports, before, it, p);
    NoneTaken(0);
    hide SentOn, For, SendAll, FlushTo, Left, Passed, DataOf, Taken, SomeSendFails;
    var m := SendAll(l, it.arrivals, it.portIn);
    SendAllPorts(l, it.arrivals, it.portIn);
    if it.arrivals == [] {
      NoneFor(it.portIn, l.ports, p);
      assert Left(l.ports, before, p) + [] == Left(l.ports, before, p);
    } else {
      if m.fault {
        FlushKeepsFault(m, it.portIn, it.sends, l.ports);
      }
      SendAllFills(l, it.arrivals, it.portIn);
      SendAllPuts(l, it.arrivals, it.portIn, p);
      FlushEmpties(m, it.portIn, it.sends, l.ports);
      FlushPasses(m, it.portIn, it.sends, l.ports, p);
    }
  }

  lemma LeftMore(ports: nat, before: seq<Round>, it: Round, p: nat)
    ensures var queue := Left(ports, before, p) + For(it.arrivals, it.portIn, ports, p);
            && Left(ports, before + [it], p) == (if Flushes(it, ports, p) then [] else queue)
            && Passed(ports, before + [it], p)
               == Passed(ports, before, p)
                  + if Flushes(it, ports, p) && p < |it.sends| then Taken(queue, it.sends[p]) else []
  {
    assert (before + [it])[..|before|] == before;
  }

  lemma NoneFor(portIn: nat, ports: nat, p: nat)
    ensures For([], portIn, ports, p) == []
  {
  }

  // ----- every run -----

  /** In every run without a fault each port has transmitted, in the order of arrival, the packets for it
      that the driver took, and holds those that came since it was last sent. */
  lemma {:induction false} ForwardsInOrder(ports: nat, rounds: seq<Round>, p: nat)
    requires ports <= MAX_PKTIOS && p < MAX_PKTIOS && CanRun(Fresh(ports), rounds)
    requires !Run(Fresh(ports), rounds).fault
    ensures var l := Run(Fresh(ports), rounds);
            && l.ports == ports && |l.bufs| == MAX_PKTIOS && DataOf(l.bufs[p]) == Left(ports, rounds, p)
            && DataOf(SentOn(l.sent, p)) == Passed(ports, rounds, p)
    decreases |rounds|
  {
    if rounds != [] {
      hide RoundContract, Iterate, RoundFaults, Fresh, Holds, Left, Passed, DataOf, SentOn;
      var n := |rounds| - 1;
      var before, it := rounds[..n], rounds[n];
      assert rounds == before + [it];
      RunSnoc(Fresh(ports), before, it);
      var l := Run(Fresh(ports), before);
      ContractMeansSends(l, it);
      if l.fault {
        IterateKeepsFault(l, it);
      }
      RunFaultsIff(ports, before);
      HoldsMeansRoom(l, ports, before);
      ForwardsInOrder(ports, before, p);
      RoundShows(l, before, it, p);
    }
  }

  lemma HoldsMeansRoom(l: Ledger, ports: nat, before: seq<Round>)
    requires Holds(l, ports, before)
    ensures RoomFor(l.bufs, 0)
  {
  }

  /** The data of all packets for port p, round by round. */
  function AllFor(ports: nat, rounds: seq<Round>, p: nat): seq<nat> {
    if rounds == [] then [] else
      var it := rounds[|rounds| - 1];
      AllFor(ports, rounds[..|rounds| - 1], p) + For(it.arrivals, it.portIn, ports, p)
  }

  /** The driver takes every buffer of port p whole. */
  ghost predicate TakesAll(ports: nat, rounds: seq<Round>, p: nat) {
    forall i :: 0 <= i < |rounds| && Flushes(rounds[i], ports, p) ==>
      p < |rounds[i].sends|
      && rounds[i].sends[p] == |Left(ports, rounds[..i], p) + For(rounds[i].arrivals, rounds[i].portIn, ports, p)|
  }

  lemma PassesMore(passed: seq<nat>, left: seq<nat>, more: seq<nat>)
    ensures passed + Taken(left + more, |left + more|) + [] == passed + left + more
    ensures passed + [] + (left + more) == passed + left + more
  {
  }

  lemma TakenBefore(ports: nat, before: seq<Round>, it: Round, p: nat)
    requires TakesAll(ports, before + [it], p)
    ensures TakesAll(ports, before, p)
    ensures Flushes(it, ports, p) ==>
      p < |it.sends| && it.sends[p] == |Left(ports, before, p) + For(it.arrivals, it.portIn, ports, p)|
  {
    hide For, Left;
    var rounds := before + [it];
    assert rounds[|before|] == it && rounds[..|before|] == before;
    forall i | 0 <= i < |before| ensures rounds[i] == before[i] && rounds[..i] == before[..i] {
    }
  }

  lemma {:induction false} PassesAll(ports: nat, rounds: seq<Round>, p: nat)
    requires TakesAll(ports, rounds, p)
    ensures Passed(ports, rounds, p) + Left(ports, rounds, p) == AllFor(ports, rounds, p)
  {
    if rounds != [] {
      hide For, Left, Passed, TakesAll, Flushes, Taken;
      var n := |rounds| - 1;
      var before, it := rounds[..n], rounds[n];
      assert rounds == before + [it];
      TakenBefore(ports, before, it, p);
      LeftMore(ports, before, it, p);
      PassesAll(ports, before, p);
      PassesMore(Passed(ports, before, p), Left(ports, before, p), For(it.arrivals, it.portIn, ports, p));
    }
  }

  /** When the driver takes all it is given, a port has transmitted, with what still waits for it, exactly
      the packets for it: unicasts to it and copies of the broadcasts of other ports, in order. */
  lemma TransmitsWhatIsForIt(ports: nat, rounds: seq<Round>, p: nat)
    requires ports <= MAX_PKTIOS && p < MAX_PKTIOS && CanRun(Fresh(ports), rounds)
    requires !Run(Fresh(ports), rounds).fault && TakesAll(ports, rounds, p)
    ensures var l := Run(Fresh(ports), rounds);
            && |l.bufs| == MAX_PKTIOS
            && DataOf(SentOn(l.sent, p)) + DataOf(l.bufs[p]) == AllFor(ports, rounds, p)
  {
    ForwardsInOrder(ports, rounds, p);
    PassesAll(ports, rounds, p);
  }
}

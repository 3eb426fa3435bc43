/** L2 learning across switch and controller: packets miss in smac, digests travel up, the
    controller answers each with a dmac entry and then an smac entry, and the switch installs
    them. A step is one atomic action of one thread; a run is any interleaving. */
module L2Learning {
  import opened Basics
  import opened Fifos

  type Mac = nat
  type Port = nat

  /** What the controller sends: fill_dmac_table, fill_smac_table and the two default actions. */
  datatype Msg = AddDmac(mac: Mac, port: Port) | AddSmac(mac: Mac) | SmacLearns | DmacFloods

  /** The mac_learn_digest of a packet. */
  datatype Digest = Digest(mac: Mac, port: Port)

  /** Why the controller sent a dmac message: it answered a digest, or was configured to. */
  datatype Cause = Learned(mac: Mac, port: Port) | Configured(mac: Mac, port: Port)

  /** Tables of the switch, the queues in the order a message passes them, the digest whose smac
      message input_processor has yet to send, and the messages main and init have yet to send.
      The rest is history: source MACs with their ports, configured entries, MACs whose dmac message
      was dropped by a full controller output queue or lost on the way, the digests of the switch,
      and what the controller has sent dmac messages for, each in order. */
  datatype System = System(
    smac: set<Mac>, dmac: map<Mac, Port>, learning: bool,
    digests: seq<Digest>, upstream: seq<Digest>, ctrlIn: seq<Digest>,
    pending: Option<Digest>, todo: seq<Msg>,
    ctrlOut: seq<Msg>, downstream: seq<Msg>, switchIn: seq<Msg>,
    seen: set<(Mac, Port)>, configured: set<(Mac, Port)>, lost: set<Mac>,
    sent: seq<Digest>, log: seq<Cause>)

  datatype Action =
    | Packet(src: Mac, port: Port)  // a worker applies smac to a packet
    | DigestOut                     // the switch writes a digest to the stream
    | DigestIn                      // the controller reads it into its input queue
    | LearnDmac                     // mac_learn_digest: fill_dmac_table
    | LearnSmac                     // ... then fill_smac_table
    | Configure                     // main or init sends its next message
    | MsgOut                        // the controller writes a message to the stream
    | MsgIn                         // the switch reads it into its input queue
    | Install                       // the switch's input processor applies it
    | DigestLoss                    // the controller fails to read a digest, or the switch to write it
    | MsgLoss                       // the switch fails to read a message, or the controller to write it

  predicate Enabled(s: System, a: Action) {
    match a
    case Packet(_, _) => true
    case DigestOut => s.digests != []
    case DigestIn => s.upstream != []
    case LearnDmac => s.pending == None && s.ctrlIn != []
    case LearnSmac => s.pending.Some?
    case Configure => s.todo != []
    case MsgOut => s.ctrlOut != []
    case MsgIn => s.downstream != []
    case Install => s.switchIn != []
    case DigestLoss => s.upstream != []
    case MsgLoss => s.downstream != []
  }

  /** send_p4_msg: queue m, or lose it when the queue is full. */
  function Send(s: System, m: Msg): System {
    s.(ctrlOut := Push(s.ctrlOut, m),
       lost := if m.AddDmac? && |s.ctrlOut| >= QUEUE_SIZE then s.lost + {m.mac} else s.lost)
  }

  /** recv_from_controller. */
  function Apply(s: System, m: Msg): System {
    match m
    case AddDmac(mac, port) => s.(dmac := s.dmac[mac := port])
    case AddSmac(mac) => s.(smac := s.smac + {mac})
    case SmacLearns => s.(learning := true)
    case DmacFloods => s
  }

  function Do(s: System, a: Action): System
    requires Enabled(s, a)
  {
    match a
    case Packet(src, port) =>
      var s1 := s.(seen := s.seen + {(src, port)});
      if src !in s.smac && s.learning then
        s1.(digests := s.digests + [Digest(src, port)], sent := s.sent + [Digest(src, port)])
      else
        s1
    case DigestOut => s.(upstream := s.upstream + [s.digests[0]], digests := s.digests[1..])
    case DigestIn => s.(ctrlIn := Push(s.ctrlIn, s.upstream[0]), upstream := s.upstream[1..])
    case LearnDmac =>
      var d := s.ctrlIn[0];
      Send(s.(ctrlIn := s.ctrlIn[1..], pending := Some(d), log := s.log + [Learned(d.mac, d.port)]),
           AddDmac(d.mac, d.port))
    case LearnSmac => Send(s.(pending := None), AddSmac(s.pending.value.mac))
    case Configure =>
      var m := s.todo[0];
      Send(s.(todo := s.todo[1..], log := if m.AddDmac? then s.log + [Configured(m.mac, m.port)] else s.log), m)
    case MsgOut => s.(downstream := s.downstream + [s.ctrlOut[0]], ctrlOut := s.ctrlOut[1..])
    case MsgIn => s.(switchIn := s.switchIn + [s.downstream[0]], downstream := s.downstream[1..])
    case Install => Apply(s.(switchIn := s.switchIn[1..]), s.switchIn[0])
    case DigestLoss => s.(upstream := s.upstream[1..])
    case MsgLoss =>
      var m := s.downstream[0];
      s.(downstream := s.downstream[1..], lost := if m.AddDmac? then s.lost + {m.mac} else s.lost)
  }

  /** fill_dmac_table then fill_smac_table for each configured entry. */
  function Pairs(entries: seq<(Mac, Port)>): seq<Msg> {
    if entries == [] then []
    else [AddDmac(entries[0].0, entries[0].1), AddSmac(entries[0].0)] + Pairs(entries[1..])
  }

  /** The entries that main sends before any switch connects. */
  const BUILTIN: seq<(Mac, Port)> := [(0xa036_9f3e_94ea, 1), (0xa036_9f3e_94e8, 0)]

  /** The controller starts with main's entries, then init's default actions and file entries. */
  function Start(file: seq<(Mac, Port)>): System {
    System({}, map[], false, [], [], [], None,
           Pairs(BUILTIN) + [SmacLearns, DmacFloods] + Pairs(file), [], [], [],
           {}, (set e | e in BUILTIN) + (set e | e in file), {}, [], [])
  }

  ghost predicate CanRun(s: System, run: seq<Action>)
    decreases |run|
  {
    run == [] || (Enabled(s, run[0]) && CanRun(Do(s, run[0]), run[1..]))
  }

  function Run(s: System, run: seq<Action>): System
    requires CanRun(s, run)
    decreases |run|
  {
    if run == [] then s else Run(Do(s, run[0]), run[1..])
  }

  // ----- the invariant -----

  /** Messages on their way to the switch, oldest first. */
  function InFlight(s: System): seq<Msg> {
    s.switchIn + s.downstream + s.ctrlOut
  }

  /** A dmac message for m is among the messages. */
  ghost predicate Announced(msgs: seq<Msg>, m: Mac) {
    exists j :: 0 <= j < |msgs| && msgs[j].AddDmac? && msgs[j].mac == m
  }

  /** m is in dmac, or its dmac message was lost. */
  predicate Settled(s: System, m: Mac) {
    m in s.dmac || m in s.lost
  }

  /** Every smac message comes after a dmac message for the same MAC, unless that is settled. */
  ghost predicate Ordered(s: System, msgs: seq<Msg>) {
    forall i :: 0 <= i < |msgs| && msgs[i].AddSmac? ==> Settled(s, msgs[i].mac) || Announced(msgs[..i], msgs[i].mac)
  }

  ghost predicate Known(s: System, m: Mac, p: Port) {
    (m, p) in s.seen || (m, p) in s.configured
  }

  ghost predicate DigestsKnown(s: System, ds: seq<Digest>) {
    forall i :: 0 <= i < |ds| ==> Known(s, ds[i].mac, ds[i].port)
  }

  ghost predicate MsgsKnown(s: System, msgs: seq<Msg>) {
    forall i :: 0 <= i < |msgs| && msgs[i].AddDmac? ==> Known(s, msgs[i].mac, msgs[i].port)
  }

  ghost predicate OrderInv(s: System) {
    && (forall m :: m in s.smac ==> Settled(s, m))
    && Ordered(s, InFlight(s) + s.todo)
    && (s.pending.Some? ==> Settled(s, s.pending.value.mac) || Announced(InFlight(s), s.pending.value.mac))
  }

  ghost predicate PortInv(s: System) {
    && (forall m :: m in s.dmac ==> Known(s, m, s.dmac[m]))
    && DigestsKnown(s, s.digests) && DigestsKnown(s, s.upstream) && DigestsKnown(s, s.ctrlIn)
    && (s.pending.Some? ==> Known(s, s.pending.value.mac, s.pending.value.port))
    && MsgsKnown(s, s.switchIn) && MsgsKnown(s, s.downstream) && MsgsKnown(s, s.ctrlOut) && MsgsKnown(s, s.todo)
  }

  // ----- ordering of a message sequence under insertion and removal -----

  lemma AnnouncedGrows(msgs: seq<Msg>, more: seq<Msg>, m: Mac)
    requires Announced(msgs, m)
    ensures Announced(msgs + more, m)
  {
    var j :| 0 <= j < |msgs| && msgs[j].AddDmac? && msgs[j].mac == m;
    assert (msgs + more)[j] == msgs[j];
  }

  lemma AnnouncedFirst(x: Msg, rest: seq<Msg>, m: Mac)
    ensures Announced([x] + rest, m) <==> (x.AddDmac? && x.mac == m) || Announced(rest, m)
  {
    var all := [x] + rest;
    if x.AddDmac? && x.mac == m {
      assert all[0] == x;
    }
    if Announced(rest, m) {
      var j :| 0 <= j < |rest| && rest[j].AddDmac? && rest[j].mac == m;
      assert all[j + 1] == rest[j];
    }
    if Announced(all, m) && !(x.AddDmac? && x.mac == m) {
      var j :| 0 <= j < |all| && all[j].AddDmac? && all[j].mac == m;
      assert all[j] == rest[j - 1];
    }
  }

  lemma OrderedInsert(s: System, a: seq<Msg>, x: Msg, b: seq<Msg>)
    requires Ordered(s, a + b)
    requires x.AddSmac? ==> Settled(s, x.mac) || Announced(a, x.mac)
    ensures Ordered(s, a + [x] + b)
  {
    var old', new' := a + b, a + [x] + b;
    forall i | 0 <= i < |new'| && new'[i].AddSmac? && !Settled(s, new'[i].mac)
      ensures Announced(new'[..i], new'[i].mac)
    {
      if i < |a| {
        assert new'[i] == old'[i] && new'[..i] == old'[..i];
      } else if i == |a| {
        assert new'[..i] == a;
      } else {
        assert new'[i] == old'[i - 1];
        var m := new'[i].mac;
        var j :| 0 <= j < i - 1 && old'[j].AddDmac? && old'[j].mac == m;
        assert new'[..i][if j < |a| then j else j + 1] == old'[j];
      }
    }
  }

  lemma OrderedRemove(s: System, s': System, a: seq<Msg>, x: Msg, b: seq<Msg>)
    requires Ordered(s, a + [x] + b)
    requires forall m :: Settled(s, m) ==> Settled(s', m)
    requires x.AddDmac? ==> Settled(s', x.mac)
    ensures Ordered(s', a + b)
  {
    var old', new' := a + [x] + b, a + b;
    forall i | 0 <= i < |new'| && new'[i].AddSmac? && !Settled(s', new'[i].mac)
      ensures Announced(new'[..i], new'[i].mac)
    {
      var i' := if i < |a| then i else i + 1;
      assert old'[i'] == new'[i];
      var m := new'[i].mac;
      assert Announced(old'[..i'], m);
      var j :| 0 <= j < i' && old'[j].AddDmac? && old'[j].mac == m;
      assert j != |a|;
      assert new'[..i][if j < |a| then j else j - 1] == old'[j];
    }
  }

  /** Ordering only looks at what is settled. */
  lemma OrderedSettled(s: System, s': System, msgs: seq<Msg>)
    requires Ordered(s, msgs) && forall m :: Settled(s, m) ==> Settled(s', m)
    ensures Ordered(s', msgs)
  {
  }

  /** Nothing precedes the first message, so an smac message there is settled. */
  lemma FirstIsSettled(s: System, msgs: seq<Msg>)
    requires Ordered(s, msgs)
    ensures msgs != [] && msgs[0].AddSmac? ==> Settled(s, msgs[0].mac)
  {
    assert forall m :: !Announced(msgs[..0], m);
  }

  // ----- every step keeps the order -----

  /** Sending m from a thread whose remaining messages are `rest`. */
  lemma SendKeepsOrder(s: System, s0: System, m: Msg)
    requires s == Send(s0, m) && OrderInvBut(s0)
    requires m.AddSmac? ==> Settled(s0, m.mac) || Announced(InFlight(s0), m.mac)
    ensures OrderInvBut(s)
    ensures m.AddDmac? ==> Settled(s, m.mac) || Announced(InFlight(s), m.mac)
    ensures forall k :: Settled(s0, k) ==> Settled(s, k)
    ensures forall k :: Announced(InFlight(s0), k) ==> Announced(InFlight(s), k)
  {
    if |s0.ctrlOut| < QUEUE_SIZE {
      assert InFlight(s) == InFlight(s0) + [m];
      OrderedInsert(s0, InFlight(s0), m, s0.todo);
      OrderedSettled(s0, s, InFlight(s0) + [m] + s0.todo);
      assert InFlight(s)[|InFlight(s0)|] == m;
      forall k | Announced(InFlight(s0), k) ensures Announced(InFlight(s), k) {
        AnnouncedGrows(InFlight(s0), [m], k);
      }
    } else {
      OrderedSettled(s0, s, InFlight(s0) + s0.todo);
    }
  }

  /** The invariant without the clause about the pending digest. */
  ghost predicate OrderInvBut(s: System) {
    && (forall m :: m in s.smac ==> Settled(s, m))
    && Ordered(s, InFlight(s) + s.todo)
  }

  lemma ConfigureKeepsOrder(s: System)
    requires OrderInv(s) && Enabled(s, Configure)
    ensures OrderInv(Do(s, Configure))
  {
    var m, s' := s.todo[0], Do(s, Configure);
    assert InFlight(s) + s.todo == InFlight(s) + [m] + s.todo[1..];
    if |s.ctrlOut| < QUEUE_SIZE {
      assert InFlight(s') + s'.todo == InFlight(s) + [m] + s.todo[1..];
      OrderedSettled(s, s', InFlight(s') + s'.todo);
      if s.pending.Some? && Announced(InFlight(s), s.pending.value.mac) {
        assert InFlight(s') == InFlight(s) + [m];
        AnnouncedGrows(InFlight(s), [m], s.pending.value.mac);
      }
    } else {
      OrderedRemove(s, s', InFlight(s), m, s.todo[1..]);
    }
  }

  lemma LearnKeepsOrder(s: System, a: Action)
    requires OrderInv(s) && Enabled(s, a) && (a == LearnDmac || a == LearnSmac)
    ensures OrderInv(Do(s, a))
  {
    if a == LearnDmac {
      var d := s.ctrlIn[0];
      var s0 := s.(ctrlIn := s.ctrlIn[1..], pending := Some(d), log := s.log + [Learned(d.mac, d.port)]);
      OrderedSettled(s, s0, InFlight(s) + s.todo);
      SendKeepsOrder(Do(s, a), s0, AddDmac(d.mac, d.port));
    } else {
      var s0 := s.(pending := None);
      OrderedSettled(s, s0, InFlight(s) + s.todo);
      SendKeepsOrder(Do(s, a), s0, AddSmac(s.pending.value.mac));
    }
  }

  lemma TransportKeepsOrder(s: System, a: Action)
    requires OrderInv(s) && Enabled(s, a) && (a == MsgOut || a == MsgIn)
    ensures OrderInv(Do(s, a))
  {
    var s' := Do(s, a);
    TransportKeepsInFlight(s, a);
    OrderedSettled(s, s', InFlight(s') + s'.todo);
  }

  lemma InstallTakesFirst(s: System)
    requires Enabled(s, Install)
    ensures InFlight(s) == [s.switchIn[0]] + InFlight(Do(s, Install))
    ensures InFlight(s) + s.todo == [] + [s.switchIn[0]] + (InFlight(Do(s, Install)) + s.todo)
    ensures [] + (InFlight(Do(s, Install)) + s.todo) == InFlight(Do(s, Install)) + s.todo
  {
  }

  lemma InstallKeepsOrder(s: System)
    requires OrderInv(s) && Enabled(s, Install)
    ensures OrderInv(Do(s, Install))
  {
    hide Announced, Ordered, InFlight;
    var s', x := Do(s, Install), s.switchIn[0];
    InstallTakesFirst(s);
    FirstIsSettled(s, InFlight(s) + s.todo);
    OrderedRemove(s, s', [], x, InFlight(s') + s'.todo);
    if s.pending.Some? {
      AnnouncedFirst(x, InFlight(s'), s.pending.value.mac);
    }
  }

  lemma AnnouncedWithout(a: seq<Msg>, x: Msg, b: seq<Msg>, m: Mac)
    requires Announced(a + [x] + b, m)
    ensures (x.AddDmac? && x.mac == m) || Announced(a + b, m)
  {
    var all := a + [x] + b;
    var j :| 0 <= j < |all| && all[j].AddDmac? && all[j].mac == m;
    if j != |a| {
      assert (a + b)[if j < |a| then j else j - 1] == all[j];
    }
  }

  lemma LossTakesOne(s: System)
    requires Enabled(s, MsgLoss)
    ensures var s' := Do(s, MsgLoss);
            && InFlight(s) == s.switchIn + [s.downstream[0]] + (s'.downstream + s.ctrlOut)
            && InFlight(s') == s.switchIn + (s'.downstream + s.ctrlOut)
            && InFlight(s) + s.todo == s.switchIn + [s.downstream[0]] + (s'.downstream + s.ctrlOut + s.todo)
            && InFlight(s') + s.todo == s.switchIn + (s'.downstream + s.ctrlOut + s.todo)
  {
    assert s.downstream == [s.downstream[0]] + s.downstream[1..];
  }

  /** A message lost on the way leaves its MAC settled. */
  lemma LossKeepsOrder(s: System)
    requires OrderInv(s) && Enabled(s, MsgLoss)
    ensures OrderInv(Do(s, MsgLoss))
  {
    hide Announced, Ordered, InFlight;
    var s', x := Do(s, MsgLoss), s.downstream[0];
    LossTakesOne(s);
    OrderedRemove(s, s', s.switchIn, x, s'.downstream + s.ctrlOut + s.todo);
    if s.pending.Some? && Announced(InFlight(s), s.pending.value.mac) {
      AnnouncedWithout(s.switchIn, x, s'.downstream + s.ctrlOut, s.pending.value.mac);
    }
  }

  lemma StepKeepsOrder(s: System, a: Action)
    requires OrderInv(s) && Enabled(s, a)
    ensures OrderInv(Do(s, a))
  {
    match a
    case Packet(_, _) => OrderedSettled(s, Do(s, a), InFlight(s) + s.todo);
    case DigestOut => OrderedSettled(s, Do(s, a), InFlight(s) + s.todo);
    case DigestIn => OrderedSettled(s, Do(s, a), InFlight(s) + s.todo);
    case LearnDmac => LearnKeepsOrder(s, a);
    case LearnSmac => LearnKeepsOrder(s, a);
    case Configure => ConfigureKeepsOrder(s);
    case MsgOut => TransportKeepsOrder(s, a);
    case MsgIn => TransportKeepsOrder(s, a);
    case Install => InstallKeepsOrder(s);
    case DigestLoss => OrderedSettled(s, Do(s, a), InFlight(s) + s.todo);
    case MsgLoss => LossKeepsOrder(s);
  }

  // ----- every step keeps the provenance of ports -----

  lemma UpstreamKeepsPorts(s: System, a: Action)
    requires PortInv(s) && Enabled(s, a) && (a.Packet? || a == DigestOut || a == DigestIn || a == DigestLoss)
    ensures PortInv(Do(s, a))
  {
  }

  lemma ControllerKeepsPorts(s: System, a: Action)
    requires PortInv(s) && Enabled(s, a) && (a == LearnDmac || a == LearnSmac || a == Configure)
    ensures PortInv(Do(s, a))
  {
  }

  lemma DownstreamKeepsPorts(s: System, a: Action)
    requires PortInv(s) && Enabled(s, a) && (a == MsgOut || a == MsgIn || a == MsgLoss)
    ensures PortInv(Do(s, a))
  {
  }

  lemma InstallKeepsPorts(s: System)
    requires PortInv(s) && Enabled(s, Install)
    ensures PortInv(Do(s, Install))
  {
  }

  lemma StepKeepsPorts(s: System, a: Action)
    requires PortInv(s) && Enabled(s, a)
    ensures PortInv(Do(s, a))
  {
    hide PortInv, Do, Enabled;
    match a
    case Packet(_, _) => UpstreamKeepsPorts(s, a);
    case DigestOut => UpstreamKeepsPorts(s, a);
    case DigestIn => UpstreamKeepsPorts(s, a);
    case LearnDmac => ControllerKeepsPorts(s, a);
    case LearnSmac => ControllerKeepsPorts(s, a);
    case Configure => ControllerKeepsPorts(s, a);
    case MsgOut => DownstreamKeepsPorts(s, a);
    case MsgIn => DownstreamKeepsPorts(s, a);
    case Install => InstallKeepsPorts(s);
    case DigestLoss => UpstreamKeepsPorts(s, a);
    case MsgLoss => DownstreamKeepsPorts(s, a);
  }

  // ----- every run -----

  lemma {:induction false} PairsAreOrdered(entries: seq<(Mac, Port)>, i: nat)
    requires i < |Pairs(entries)| && Pairs(entries)[i].AddSmac?
    ensures i > 0 && Pairs(entries)[i - 1].AddDmac? && Pairs(entries)[i - 1].mac == Pairs(entries)[i].mac
  {
    if i >= 2 {
      PairsAreOrdered(entries[1..], i - 2);
    }
  }

  lemma {:induction false} PairsAreConfigured(entries: seq<(Mac, Port)>, i: nat)
    requires i < |Pairs(entries)| && Pairs(entries)[i].AddDmac?
    ensures (Pairs(entries)[i].mac, Pairs(entries)[i].port) in entries
  {
    if i >= 2 {
      PairsAreConfigured(entries[1..], i - 2);
    }
  }

  lemma StartIsOrdered(file: seq<(Mac, Port)>)
    ensures OrderInv(Start(file))
  {
    var s := Start(file);
    assert InFlight(s) + s.todo == s.todo;
    forall i | 0 <= i < |s.todo| && s.todo[i].AddSmac? ensures Announced(s.todo[..i], s.todo[i].mac) {
      if i < |Pairs(BUILTIN)| {
        PairsAreOrdered(BUILTIN, i);
      } else {
        PairsAreOrdered(file, i - |Pairs(BUILTIN)| - 2);
      }
      assert s.todo[..i][i - 1].AddDmac? && s.todo[..i][i - 1].mac == s.todo[i].mac;
    }
  }

  lemma StartPortsConfigured(file: seq<(Mac, Port)>)
    ensures PortInv(Start(file))
  {
    var s := Start(file);
    forall i | 0 <= i < |s.todo| && s.todo[i].AddDmac? ensures Known(s, s.todo[i].mac, s.todo[i].port) {
      if i < |Pairs(BUILTIN)| {
        PairsAreConfigured(BUILTIN, i);
      } else {
        PairsAreConfigured(file, i - |Pairs(BUILTIN)| - 2);
      }
    }
  }

  lemma {:induction false} RunKeepsInv(s: System, run: seq<Action>)
    requires OrderInv(s) && PortInv(s) && CanRun(s, run)
    ensures OrderInv(Run(s, run)) && PortInv(Run(s, run))
    decreases |run|
  {
    hide OrderInv, PortInv, Do, Enabled;
    if run != [] {
      StepKeepsOrder(s, run[0]);
      StepKeepsPorts(s, run[0]);
      RunKeepsInv(Do(s, run[0]), run[1..]);
    }
  }

  /** In every reachable state, under any interleaving: a MAC installed in smac is installed in
      dmac, unless its dmac message was dropped by a full controller output queue or lost on the way;
      and every dmac entry names a port where that MAC was seen as source or was configured. */
  lemma LearningIsSafe(file: seq<(Mac, Port)>, run: seq<Action>)
    requires CanRun(Start(file), run)
    ensures var s := Run(Start(file), run);
            && (forall m :: m in s.smac ==> m in s.dmac || m in s.lost)
            && (s.lost == {} ==> s.smac <= s.dmac.Keys)
            && (forall m :: m in s.dmac ==> Known(s, m, s.dmac[m]))
  {
    StartIsOrdered(file);
    StartPortsConfigured(file);
    RunKeepsInv(Start(file), run);
  }

  // ----- a full controller queue does break it -----

  lemma {:induction false} RunAppend(s: System, run: seq<Action>, more: seq<Action>)
    requires CanRun(s, run) && CanRun(Run(s, run), more)
    ensures CanRun(s, run + more) && Run(s, run + more) == Run(Run(s, run), more)
    decreases |run|
  {
    hide Do, Enabled;
    if run == [] {
      assert [] + more == more;
    } else {
      assert (run + more)[1..] == run[1..] + more;
      RunAppend(Do(s, run[0]), run[1..], more);
    }
  }

  lemma RunOne(s: System, a: Action)
    requires Enabled(s, a)
    ensures CanRun(s, [a]) && Run(s, [a]) == Do(s, a)
  {
    assert [a][1..] == [];
  }

  /** m is headed for smac alone. */
  ghost predicate Orphaned(s: System, m: Mac) {
    && m !in s.dmac && !Announced(InFlight(s), m)
    && (m in s.smac || AddSmac(m) in InFlight(s))
  }

  lemma InstallKeepsOrphan(s: System, m: Mac)
    requires Orphaned(s, m) && Enabled(s, Install)
    ensures Orphaned(Do(s, Install), m)
  {
    hide Announced;
    var s', x := Do(s, Install), s.switchIn[0];
    var rest := InFlight(s');
    InstallTakesFirst(s);
    AnnouncedFirst(x, rest, m);
    assert AddSmac(m) in [x] + rest ==> x == AddSmac(m) || AddSmac(m) in rest;
  }

  lemma TransportKeepsInFlight(s: System, a: Action)
    requires Enabled(s, a) && (a == MsgOut || a == MsgIn)
    ensures InFlight(Do(s, a)) == InFlight(s)
  {
    if a == MsgOut {
      assert s.ctrlOut == [s.ctrlOut[0]] + s.ctrlOut[1..];
    } else {
      assert s.downstream == [s.downstream[0]] + s.downstream[1..];
    }
  }

  lemma DeliverKeepsOrphan(s: System, m: Mac, a: Action)
    requires Orphaned(s, m) && Enabled(s, a) && (a == MsgOut || a == MsgIn || a == Install)
    ensures Orphaned(Do(s, a), m)
  {
    if a == Install {
      InstallKeepsOrphan(s, m);
    } else {
      hide InFlight, Announced;
      TransportKeepsInFlight(s, a);
    }
  }

  /** Messages lost between controller and switch. */
  function Losses(run: seq<Action>): nat {
    if run == [] then 0 else (if run[0] == MsgLoss then 1 else 0) + Losses(run[1..])
  }

  lemma {:induction false} LossesOf(run: seq<Action>, more: seq<Action>)
    ensures Losses(run + more) == Losses(run) + Losses(more)
  {
    if run == [] {
      assert [] + more == more;
    } else {
      assert (run + more)[1..] == run[1..] + more;
      LossesOf(run[1..], more);
    }
  }

  /** Delivering everything installs the orphan in smac only. */
  lemma {:induction false} DrainInstallsOrphan(s: System, m: Mac) returns (run: seq<Action>)
    requires Orphaned(s, m)
    ensures CanRun(s, run) && m in Run(s, run).smac && m !in Run(s, run).dmac
    ensures (forall i :: 0 <= i < |run| ==> !run[i].Packet?) && Losses(run) == 0
    decreases 3 * |s.ctrlOut| + 2 * |s.downstream| + |s.switchIn|
  {
    if InFlight(s) == [] {
      run := [];
    } else {
      var a := if s.switchIn != [] then Install else if s.downstream != [] then MsgIn else MsgOut;
      DeliverKeepsOrphan(s, m, a);
      var rest := DrainInstallsOrphan(Do(s, a), m);
      run := [a] + rest;
      assert run[1..] == rest;
    }
  }

  /** No digest is under way and nothing is left to configure. */
  predicate Idle(s: System) {
    s.learning && s.digests == s.upstream == s.ctrlIn == [] && s.pending == None && s.todo == []
  }

  const DIGEST_TRIP: seq<Action> := [DigestOut, DigestIn, LearnDmac]

  function AfterTrip(s: System, m: Mac, p: Port): System {
    s.(seen := s.seen + {(m, p)}, pending := Some(Digest(m, p)), sent := s.sent + [Digest(m, p)],
       log := s.log + [Learned(m, p)])
  }

  /** One packet with an unknown source, up to the controller's first answer. */
  lemma DigestTripTo(s: System, m: Mac, p: Port)
    requires Idle(s) && m !in s.smac
    ensures var run := [Packet(m, p)] + DIGEST_TRIP;
            && CanRun(s, run)
            && Run(s, run) == Send(AfterTrip(s, m, p), AddDmac(m, p))
  {
    var s1 := Do(s, Packet(m, p));
    var s2 := Do(s1, DigestOut);
    var s3 := Do(s2, DigestIn);
    assert s3 == s.(seen := s.seen + {(m, p)}, ctrlIn := [Digest(m, p)], sent := s.sent + [Digest(m, p)]);
    RunOne(s, Packet(m, p));
    RunOne(s1, DigestOut);
    RunOne(s2, DigestIn);
    RunOne(s3, LearnDmac);
    RunAppend(s, [Packet(m, p)], [DigestOut]);
    RunAppend(s, [Packet(m, p)] + [DigestOut], [DigestIn]);
    RunAppend(s, [Packet(m, p)] + [DigestOut] + [DigestIn], [LearnDmac]);
    assert [Packet(m, p)] + DIGEST_TRIP == [Packet(m, p)] + [DigestOut] + [DigestIn] + [LearnDmac];
  }

  /** k packets of one unknown source put 2k messages in the controller's output queue. */
  lemma {:induction false} Flood(s: System, k: nat) returns (run: seq<Action>)
    requires Idle(s) && 0 !in s.smac && |s.ctrlOut| + 2 * k <= QUEUE_SIZE
    ensures CanRun(s, run)
    ensures var s' := Run(s, run);
            && Idle(s') && s'.smac == s.smac && s'.dmac == s.dmac && s'.lost == s.lost
            && s'.switchIn == s.switchIn && s'.downstream == s.downstream
            && |s'.ctrlOut| == |s.ctrlOut| + 2 * k
            && (forall m: Mac :: m != 0 && !Announced(s.ctrlOut, m) ==> !Announced(s'.ctrlOut, m))
    decreases k
  {
    if k == 0 {
      run := [];
    } else {
      var trip := [Packet(0, 0)] + DIGEST_TRIP;
      DigestTripTo(s, 0, 0);
      var s1 := Run(s, trip);
      var s2 := Do(s1, LearnSmac);
      RunOne(s1, LearnSmac);
      RunAppend(s, trip, [LearnSmac]);
      assert s2.ctrlOut == s.ctrlOut + [AddDmac(0, 0), AddSmac(0)];
      var rest := Flood(s2, k - 1);
      run := trip + [LearnSmac] + rest;
      RunAppend(s, trip + [LearnSmac], rest);
    }
  }

  function Configures(n: nat): (run: seq<Action>)
    ensures |run| == n && forall i :: 0 <= i < n ==> run[i] == Configure
  {
    if n == 0 then [] else [Configure] + Configures(n - 1)
  }

  /** The controller sends its next n messages before the writer takes any. */
  lemma {:induction false} ConfigureMany(s: System, n: nat)
    requires n <= |s.todo| && |s.ctrlOut| + n <= QUEUE_SIZE
    ensures CanRun(s, Configures(n))
    ensures var s' := Run(s, Configures(n));
            s' == s.(ctrlOut := s.ctrlOut + s.todo[..n], todo := s.todo[n..], log := s'.log)
    decreases n
  {
    if n > 0 {
      var s' := Do(s, Configure);
      ConfigureMany(s', n - 1);
      assert Configures(n)[1..] == Configures(n - 1);
      assert s.ctrlOut + [s.todo[0]] + s.todo[1..][..n - 1] == s.ctrlOut + s.todo[..n];
      assert s.todo[1..][n - 1..] == s.todo[n..];
    }
  }

  /** The messages applied in order. */
  function Applied(s: System, msgs: seq<Msg>): System
    decreases |msgs|
  {
    if msgs == [] then s else Applied(Apply(s, msgs[0]), msgs[1..])
  }

  function Cleared(s: System): System {
    s.(switchIn := [], downstream := [], ctrlOut := [])
  }

  /** Delivering everything applies the messages in flight, oldest first. */
  lemma {:induction false} Drain(s: System) returns (run: seq<Action>)
    ensures CanRun(s, run) && Run(s, run) == Applied(Cleared(s), InFlight(s))
    decreases 3 * |s.ctrlOut| + 2 * |s.downstream| + |s.switchIn|
  {
    if InFlight(s) == [] {
      run := [];
    } else {
      var a := if s.switchIn != [] then Install else if s.downstream != [] then MsgIn else MsgOut;
      DeliverApplies(s, a);
      var rest := Drain(Do(s, a));
      run := [a] + rest;
      assert run[1..] == rest;
    }
  }

  lemma DeliverApplies(s: System, a: Action)
    requires Enabled(s, a) && (a == MsgOut || a == MsgIn || a == Install)
    ensures Applied(Cleared(Do(s, a)), InFlight(Do(s, a))) == Applied(Cleared(s), InFlight(s))
  {
    if a == Install {
      InstallTakesFirst(s);
      var rest := InFlight(Do(s, a));
      assert ([s.switchIn[0]] + rest)[1..] == rest;
      assert Cleared(Do(s, a)) == Apply(Cleared(s), s.switchIn[0]);
    } else {
      TransportKeepsInFlight(s, a);
      assert Cleared(Do(s, a)) == Cleared(s);
    }
  }

  /** The controller's first six messages reach the switch. */
  lemma Boot() returns (run: seq<Action>)
    ensures CanRun(Start([]), run)
    ensures var s := Run(Start([]), run);
            Idle(s) && s.smac == {BUILTIN[0].0, BUILTIN[1].0} == s.dmac.Keys && s.lost == {} && InFlight(s) == []
  {
    var s0 := Start([]);
    BuiltinTodo();
    StartsEmpty([]);
    hide Do, Enabled, Start, Pairs, Run, CanRun, Configures;
    ConfigureMany(s0, 6);
    assert s0.todo[..6] == s0.todo;
    var s1 := Run(s0, Configures(6));
    var drain := Drain(s1);
    RunAppend(s0, Configures(6), drain);
    run := Configures(6) + drain;
    AppliedBuiltin(s1);
  }

  lemma BuiltinTodo()
    ensures Start([]).todo == [AddDmac(BUILTIN[0].0, BUILTIN[0].1), AddSmac(BUILTIN[0].0),
                               AddDmac(BUILTIN[1].0, BUILTIN[1].1), AddSmac(BUILTIN[1].0), SmacLearns, DmacFloods]
  {
    assert BUILTIN[1..] == [BUILTIN[1]] && BUILTIN[1..][1..] == [];
  }

  lemma AppliedBuiltin(s: System)
    requires s.ctrlOut == Start([]).todo && s.switchIn == s.downstream == [] && s.smac == {} && s.dmac == map[]
    ensures Applied(Cleared(s), InFlight(s))
            == Cleared(s).(smac := {BUILTIN[0].0, BUILTIN[1].0}, learning := true,
                           dmac := map[BUILTIN[0].0 := BUILTIN[0].1, BUILTIN[1].0 := BUILTIN[1].1])
  {
    hide Applied, Pairs;
    BuiltinTodo();
    var a, b, tail := BUILTIN[0], BUILTIN[1], [SmacLearns, DmacFloods];
    var pair := [AddDmac(b.0, b.1), AddSmac(b.0)];
    assert InFlight(s) == [AddDmac(a.0, a.1), AddSmac(a.0)] + (pair + tail);
    hide Start;
    AppliedPair(Cleared(s), a, pair + tail);
    var s1 := Cleared(s).(dmac := Cleared(s).dmac[a.0 := a.1], smac := Cleared(s).smac + {a.0});
    AppliedPair(s1, b, tail);
    var s2 := s1.(dmac := s1.dmac[b.0 := b.1], smac := s1.smac + {b.0});
    AppliedDefaults(s2);
    assert s2.dmac == map[a.0 := a.1, b.0 := b.1] && s2.smac == {a.0, b.0};
  }

  lemma AppliedPair(s: System, e: (Mac, Port), rest: seq<Msg>)
    ensures Applied(s, [AddDmac(e.0, e.1), AddSmac(e.0)] + rest)
            == Applied(s.(dmac := s.dmac[e.0 := e.1], smac := s.smac + {e.0}), rest)
  {
    var msgs := [AddDmac(e.0, e.1), AddSmac(e.0)] + rest;
    assert msgs[1..] == [AddSmac(e.0)] + rest && ([AddSmac(e.0)] + rest)[1..] == rest;
    assert Applied(Apply(s, msgs[0]), [AddSmac(e.0)] + rest)
      == Applied(Apply(Apply(s, msgs[0]), AddSmac(e.0)), rest);
  }

  lemma AppliedDefaults(s: System)
    ensures Applied(s, [SmacLearns, DmacFloods]) == s.(learning := true)
  {
    assert [SmacLearns, DmacFloods][1..] == [DmacFloods] && [DmacFloods][1..] == [];
    assert Applied(s.(learning := true), [DmacFloods]) == s.(learning := true);
  }

  /** The assumption is needed: digests arriving while the controller's writer stalls fill its
      queue; the dmac message of one more MAC is dropped, one slot frees, and its smac message
      goes through. That MAC ends in smac and not in dmac, and so is never learned again. */
  lemma OverflowBreaksLearning() returns (run: seq<Action>)
    ensures CanRun(Start([]), run)
    ensures var s := Run(Start([]), run); exists m :: m in s.smac && m !in s.dmac
  {
    var start := Start([]);
    var boot := Boot();
    var s1 := Run(start, boot);
    var flood := Flood(s1, QUEUE_SIZE / 2);
    var s2 := Run(s1, flood);
    DigestTripTo(s2, 1, 0);
    var trip := [Packet(1, 0)] + DIGEST_TRIP;
    var s3 := Run(s2, trip);
    var s4 := Do(s3, MsgOut);
    RunOne(s3, MsgOut);
    var s5 := Do(s4, LearnSmac);
    RunOne(s4, LearnSmac);
    OrphanAppears(s2, s3, s4, s5);
    var drain := DrainInstallsOrphan(s5, 1);
    RunAppend(s4, [LearnSmac], drain);
    RunAppend(s3, [MsgOut], [LearnSmac] + drain);
    RunAppend(s2, trip, [MsgOut] + ([LearnSmac] + drain));
    RunAppend(s1, flood, trip + ([MsgOut] + ([LearnSmac] + drain)));
    run := boot + (flood + (trip + ([MsgOut] + ([LearnSmac] + drain))));
    RunAppend(start, boot, flood + (trip + ([MsgOut] + ([LearnSmac] + drain))));
    assert 1 in Run(start, run).smac;
  }

  lemma OrphanAppears(s2: System, s3: System, s4: System, s5: System)
    requires |s2.ctrlOut| == QUEUE_SIZE && 1 !in s2.dmac && !Announced(s2.ctrlOut, 1)
    requires s2.switchIn == s2.downstream == []
    requires s3 == Send(AfterTrip(s2, 1, 0), AddDmac(1, 0))
    requires s4 == Do(s3, MsgOut) && s5 == Do(s4, LearnSmac)
    ensures Orphaned(s5, 1)
  {
    assert s2.ctrlOut == [s2.ctrlOut[0]] + s2.ctrlOut[1..];
    assert InFlight(s5) == s2.ctrlOut + [AddSmac(1)];
    forall j | 0 <= j < |s2.ctrlOut| + 1
      ensures var x := (s2.ctrlOut + [AddSmac(1)])[j]; !(x.AddDmac? && x.mac == 1)
    {
      assert j < |s2.ctrlOut| ==> (s2.ctrlOut + [AddSmac(1)])[j] == s2.ctrlOut[j];
    }
    assert InFlight(s5)[|InFlight(s5)| - 1] == AddSmac(1);
  }

  // ----- how much the controller's queue can take -----

  /** The packet makes the switch send a digest. */
  predicate IsMiss(s: System, a: Action) {
    a.Packet? && a.src !in s.smac && s.learning
  }

  function Misses(s: System, run: seq<Action>): nat
    requires CanRun(s, run)
    decreases |run|
  {
    if run == [] then 0 else (if IsMiss(s, run[0]) then 1 else 0) + Misses(Do(s, run[0]), run[1..])
  }

  /** Messages in the controller's output queue and messages that will still be sent. */
  function Load(s: System): nat {
    |s.ctrlOut| + |s.todo| + 2 * (|s.digests| + |s.upstream| + |s.ctrlIn|) + if s.pending.Some? then 1 else 0
  }

  /** An smac message or a default action comes last. */
  predicate EndsPaired(todo: seq<Msg>) {
    todo != [] ==> !todo[|todo| - 1].AddDmac?
  }

  lemma StepKeepsLoad(s: System, a: Action)
    requires Enabled(s, a) && EndsPaired(s.todo)
    ensures Load(Do(s, a)) <= Load(s) + (if IsMiss(s, a) then 2 else 0)
    ensures EndsPaired(Do(s, a).todo)
    ensures Load(s) <= QUEUE_SIZE && a != MsgLoss ==> Do(s, a).lost == s.lost
  {
  }

  lemma {:induction false} LightRunsLoseNothing(s: System, run: seq<Action>)
    requires CanRun(s, run) && EndsPaired(s.todo) && Load(s) + 2 * Misses(s, run) <= QUEUE_SIZE && Losses(run) == 0
    ensures Run(s, run).lost == s.lost
    decreases |run|
  {
    hide Do, Load, EndsPaired, Enabled;
    if run != [] {
      StepKeepsLoad(s, run[0]);
      LightRunsLoseNothing(Do(s, run[0]), run[1..]);
    }
  }

  lemma {:induction false} PairsAt(entries: seq<(Mac, Port)>, i: nat)
    requires i < |entries|
    ensures |Pairs(entries)| == 2 * |entries|
    ensures Pairs(entries)[2 * i] == AddDmac(entries[i].0, entries[i].1)
    ensures Pairs(entries)[2 * i + 1] == AddSmac(entries[i].0)
  {
    if i > 0 {
      PairsAt(entries[1..], i - 1);
    } else if |entries| > 1 {
      PairsAt(entries[1..], 0);
    }
  }

  lemma StartLoad(file: seq<(Mac, Port)>)
    ensures Load(Start(file)) == 6 + 2 * |file|
    ensures EndsPaired(Start(file).todo)
  {
    PairsAt(BUILTIN, 0);
    if file != [] {
      PairsAt(file, |file| - 1);
    }
  }

  /** Every run with at most n entries in the file and packets from unlearned sources together, and
      with at most `losses` messages lost on the way, installs in smac only what is in dmac. */
  ghost predicate SafeWithin(n: nat, losses: nat) {
    forall file, run |
      CanRun(Start(file), run) && |file| + Misses(Start(file), run) <= n && Losses(run) <= losses ::
      Run(Start(file), run).smac <= Run(Start(file), run).dmac.Keys
  }

  lemma LightWorkloadsAreSafe(file: seq<(Mac, Port)>, run: seq<Action>)
    requires CanRun(Start(file), run)
    requires 6 + 2 * (|file| + Misses(Start(file), run)) <= QUEUE_SIZE && Losses(run) == 0
    ensures Run(Start(file), run).smac <= Run(Start(file), run).dmac.Keys
  {
    hide Load, EndsPaired;
    StartLoad(file);
    LightRunsLoseNothing(Start(file), run);
    LearningIsSafe(file, run);
  }

  lemma {:induction false} NoPacketsNoMisses(s: System, run: seq<Action>)
    requires CanRun(s, run) && forall i :: 0 <= i < |run| ==> !run[i].Packet?
    ensures Misses(s, run) == 0
    decreases |run|
  {
    hide Do, Enabled;
    if run != [] {
      NoPacketsNoMisses(Do(s, run[0]), run[1..]);
    }
  }

  lemma {:induction false} NoLosses(run: seq<Action>)
    requires forall i :: 0 <= i < |run| ==> run[i] != MsgLoss
    ensures Losses(run) == 0
  {
    if run != [] {
      NoLosses(run[1..]);
    }
  }

  /** One entry more than the queue has room for beside main's: MACs 0 .. FILE_SIZE-1. */
  const FILE_SIZE := QUEUE_SIZE / 2 - 2

  function FullFile(): (file: seq<(Mac, Port)>)
    ensures |file| == FILE_SIZE && forall i :: 0 <= i < FILE_SIZE ==> file[i] == (i, 0)
  {
    seq(FILE_SIZE, i requires 0 <= i < FILE_SIZE => (i, 0))
  }

  lemma FullTodo()
    ensures var todo := Start(FullFile()).todo;
            && |todo| == QUEUE_SIZE + 2
            && todo[QUEUE_SIZE..] == [AddDmac(FILE_SIZE - 1, 0), AddSmac(FILE_SIZE - 1)]
            && forall j :: 0 <= j < QUEUE_SIZE && todo[j].AddDmac? ==> todo[j].mac != FILE_SIZE - 1
  {
    var file := FullFile();
    hide FullFile, Pairs;
    BuiltinTodo();
    NoPairs();
    var first := Start([]).todo;
    var todo := Start(file).todo;
    assert todo == first + Pairs(file) by {
      assert Start([]).todo == Pairs(BUILTIN) + [SmacLearns, DmacFloods] + [];
    }
    PairsAt(file, FILE_SIZE - 1);
    forall j | 0 <= j < QUEUE_SIZE && todo[j].AddDmac? ensures todo[j].mac != FILE_SIZE - 1 {
      if j >= 6 {
        var i := (j - 6) / 2;
        PairsAt(file, i);
        assert j == 2 * i + 6 || j == 2 * i + 7;
      } else {
        assert todo[j] == first[j];
      }
    }
  }

  lemma NoPairs()
    ensures Pairs([]) == []
  {
  }

  /** The controller's messages, with the queue just full. */
  lemma QueueFull() returns (s: System)
    ensures var start := Start(FullFile());
            CanRun(start, Configures(QUEUE_SIZE)) && s == Run(start, Configures(QUEUE_SIZE))
    ensures |s.ctrlOut| == QUEUE_SIZE && s.dmac == map[] && s.switchIn == s.downstream == []
    ensures s.todo == [AddDmac(FILE_SIZE - 1, 0), AddSmac(FILE_SIZE - 1)] && !Announced(s.ctrlOut, FILE_SIZE - 1)
  {
    var start := Start(FullFile());
    hide Do, Enabled, Run, CanRun, FullFile, Pairs;
    FullTodo();
    ConfigureMany(start, QUEUE_SIZE);
    s := Run(start, Configures(QUEUE_SIZE));
    assert s.ctrlOut == start.todo[..QUEUE_SIZE];
  }

  /** Its next dmac message is lost, and after one slot has freed the smac message is not. */
  lemma LastPairSplits(s: System, m: Mac)
    requires |s.ctrlOut| == QUEUE_SIZE && m !in s.dmac && s.switchIn == s.downstream == []
    requires s.todo == [AddDmac(m, 0), AddSmac(m)] && !Announced(s.ctrlOut, m)
    ensures CanRun(s, [Configure] + [MsgOut] + [Configure])
    ensures Orphaned(Run(s, [Configure] + [MsgOut] + [Configure]), m)
  {
    var s1 := Do(s, Configure);
    var s2 := Do(s1, MsgOut);
    var s3 := Do(s2, Configure);
    RunOne(s, Configure);
    RunOne(s1, MsgOut);
    RunOne(s2, Configure);
    RunAppend(s, [Configure], [MsgOut]);
    RunAppend(s, [Configure] + [MsgOut], [Configure]);
    assert s.ctrlOut == [s.ctrlOut[0]] + s.ctrlOut[1..];
    assert InFlight(s3) == s.ctrlOut + [AddSmac(m)];
    assert InFlight(s3)[QUEUE_SIZE] == AddSmac(m);
    forall j | 0 <= j < |InFlight(s3)| ensures !(InFlight(s3)[j].AddDmac? && InFlight(s3)[j].mac == m) {
      assert j < QUEUE_SIZE ==> InFlight(s3)[j] == s.ctrlOut[j];
    }
  }

  lemma FullFileBreaks() returns (run: seq<Action>)
    ensures CanRun(Start(FullFile()), run) && Misses(Start(FullFile()), run) == 0 && Losses(run) == 0
    ensures var s := Run(Start(FullFile()), run); !(s.smac <= s.dmac.Keys)
  {
    hide Do, Enabled, Orphaned, Run, CanRun, Start, FullFile, Misses, Losses, Configures;
    var start := Start(FullFile());
    var s := QueueFull();
    var split := [Configure] + [MsgOut] + [Configure];
    LastPairSplits(s, FILE_SIZE - 1);
    var drain := DrainInstallsOrphan(Run(s, split), FILE_SIZE - 1);
    RunAppend(s, split, drain);
    RunAppend(start, Configures(QUEUE_SIZE), split + drain);
    run := Configures(QUEUE_SIZE) + (split + drain);
    NoPacketsNoMisses(start, run);
    NoLosses(Configures(QUEUE_SIZE));
    NoLosses(split);
    LossesOf(split, drain);
    LossesOf(Configures(QUEUE_SIZE), split + drain);
    assert FILE_SIZE - 1 in Run(start, run).smac && FILE_SIZE - 1 !in Run(start, run).dmac;
  }

  const ONE_LOSS: seq<Action> := [Configure] + [MsgOut] + [MsgLoss] + [Configure]

  /** The first entry of main loses its dmac message. */
  lemma FirstEntrySplits()
    ensures CanRun(Start([]), ONE_LOSS) && Orphaned(Run(Start([]), ONE_LOSS), BUILTIN[0].0)
  {
    var start := Start([]);
    BuiltinTodo();
    StartsEmpty([]);
    hide Start, Pairs, CanRun, Run;
    var s1 := Do(start, Configure);
    var s2 := Do(s1, MsgOut);
    var s3 := Do(s2, MsgLoss);
    var s4 := Do(s3, Configure);
    assert InFlight(s4) == [AddSmac(BUILTIN[0].0)];
    assert Orphaned(s4, BUILTIN[0].0);
    hide Do, Enabled;
    RunOne(start, Configure);
    RunOne(s1, MsgOut);
    RunOne(s2, MsgLoss);
    RunOne(s3, Configure);
    RunAppend(start, [Configure], [MsgOut]);
    RunAppend(start, [Configure] + [MsgOut], [MsgLoss]);
    RunAppend(start, [Configure] + [MsgOut] + [MsgLoss], [Configure]);
  }

  lemma StartsEmpty(file: seq<(Mac, Port)>)
    ensures var s := Start(file);
            && s.switchIn == s.downstream == s.ctrlOut == [] && s.digests == s.upstream == s.ctrlIn == []
            && s.dmac == map[] && s.smac == {} && s.lost == {} && s.pending == None
  {
  }

  /** One lost message is enough. */
  lemma LossBreaksLearning() returns (run: seq<Action>)
    ensures CanRun(Start([]), run) && Misses(Start([]), run) == 0 && Losses(run) == 1
    ensures !(Run(Start([]), run).smac <= Run(Start([]), run).dmac.Keys)
  {
    hide Do, Enabled, Orphaned, Run, CanRun, Start, Misses, Losses;
    var start, m := Start([]), BUILTIN[0].0;
    FirstEntrySplits();
    var drain := DrainInstallsOrphan(Run(start, ONE_LOSS), m);
    RunAppend(start, ONE_LOSS, drain);
    run := ONE_LOSS + drain;
    NoPacketsNoMisses(start, run);
    LossesOf(ONE_LOSS, drain);
    assert ONE_LOSS == [Configure, MsgOut, MsgLoss, Configure];
    OneLoss();
    assert m in Run(start, run).smac && m !in Run(start, run).dmac;
  }

  lemma OneLoss()
    ensures Losses([Configure, MsgOut, MsgLoss, Configure]) == 1
  {
    assert [Configure, MsgOut, MsgLoss, Configure][1..] == [MsgOut, MsgLoss, Configure];
    assert [MsgOut, MsgLoss, Configure][1..] == [MsgLoss, Configure];
    assert [MsgLoss, Configure][1..] == [Configure] && [Configure][1..] == [];
  }

  /** Learning is safe on all workloads of at most n file entries and misses, under any interleaving,
      if and only if no message is lost on the way and all messages, those of main's two entries and
      of the two default actions included, fit the controller's queue. */
  lemma LearningIsSafeIff(n: nat, losses: nat)
    ensures SafeWithin(n, losses) <==> losses == 0 && 6 + 2 * n <= QUEUE_SIZE
  {
    hide Run, Do, Start;
    if losses == 0 && 6 + 2 * n <= QUEUE_SIZE {
      forall file, run |
        CanRun(Start(file), run) && |file| + Misses(Start(file), run) <= n && Losses(run) <= losses
        ensures Run(Start(file), run).smac <= Run(Start(file), run).dmac.Keys
      {
        LightWorkloadsAreSafe(file, run);
      }
    } else if losses > 0 {
      var run := LossBreaksLearning();
      var file: seq<(Mac, Port)> := [];
      assert |file| + Misses(Start(file), run) <= n;
    } else {
      var run := FullFileBreaks();
      assert |FullFile()| + Misses(Start(FullFile()), run) <= n;
    }
  }
}

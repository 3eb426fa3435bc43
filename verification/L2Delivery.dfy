/** What learning achieves when nothing is lost: digests are answered in the order in which packets
    caused them, and once everything is delivered both tables hold what was learned or configured,
    with the port that came last. */
module L2Delivery {
  import opened Basics
  import opened Fifos
  import opened L2Learning

  // ----- runs without loss or drop -----

  predicate Sends(a: Action) {
    a == LearnDmac || a == LearnSmac || a == Configure
  }

  /** The step loses nothing on the way and finds room in the queue it adds to. */
  predicate Careful(s: System, a: Action) {
    && a != DigestLoss && a != MsgLoss
    && (a == DigestIn ==> |s.ctrlIn| < QUEUE_SIZE)
    && (Sends(a) ==> |s.ctrlOut| < QUEUE_SIZE)
  }

  ghost predicate NothingLost(s: System, run: seq<Action>)
    requires CanRun(s, run)
    decreases |run|
  {
    run == [] || (Careful(s, run[0]) && NothingLost(Do(s, run[0]), run[1..]))
  }

  // ----- what the histories say -----

  function Answered(log: seq<Cause>): seq<Digest> {
    if log == [] then [] else
      var c := log[|log| - 1];
      Answered(log[..|log| - 1]) + if c.Learned? then [Digest(c.mac, c.port)] else []
  }

  function ConfiguredIn(log: seq<Cause>): seq<(Mac, Port)> {
    if log == [] then [] else
      var c := log[|log| - 1];
      ConfiguredIn(log[..|log| - 1]) + if c.Configured? then [(c.mac, c.port)] else []
  }

  /** Entries whose dmac message is still to be sent. */
  function EntriesIn(todo: seq<Msg>): seq<(Mac, Port)> {
    if todo == [] then [] else (if todo[0].AddDmac? then [(todo[0].mac, todo[0].port)] else []) + EntriesIn(todo[1..])
  }

  ghost predicate Logged(log: seq<Cause>, m: Mac) {
    exists i :: 0 <= i < |log| && log[i].mac == m
  }

  /** The last cause for m has this port. */
  ghost predicate LastPort(log: seq<Cause>, m: Mac, p: Port) {
    exists i :: 0 <= i < |log| && log[i].mac == m && log[i].port == p
                && forall j :: i < j < |log| ==> log[j].mac != m
  }

  // ----- digests stay in order -----

  ghost predicate InOrder(s: System) {
    s.sent == Answered(s.log) + s.ctrlIn + s.upstream + s.digests
  }

  lemma AnsweredMore(log: seq<Cause>, c: Cause)
    ensures Answered(log + [c]) == Answered(log) + if c.Learned? then [Digest(c.mac, c.port)] else []
    ensures ConfiguredIn(log + [c]) == ConfiguredIn(log) + if c.Configured? then [(c.mac, c.port)] else []
  {
    assert (log + [c])[..|log|] == log;
  }

  lemma Regrouped(a: seq<Digest>, b: seq<Digest>, c: seq<Digest>, d: seq<Digest>, x: Digest)
    ensures d != [] ==> a + b + c + d == a + b + (c + [d[0]]) + d[1..]
    ensures c != [] ==> a + b + c + d == a + (b + [c[0]]) + c[1..] + d
    ensures b != [] ==> a + b + c + d == (a + [b[0]]) + b[1..] + c + d
    ensures (a + b + c + d) + [x] == a + b + c + (d + [x])
  {
  }

  lemma TripKeepsOrder(s: System, a: Action)
    requires InOrder(s) && Enabled(s, a) && Careful(s, a)
    requires a.Packet? || a == DigestOut || a == DigestIn || a == LearnDmac
    ensures InOrder(Do(s, a))
  {
    var x := if a.Packet? then Digest(a.src, a.port) else Digest(0, 0);
    Regrouped(Answered(s.log), s.ctrlIn, s.upstream, s.digests, x);
    hide Answered;
    if a == LearnDmac {
      AnsweredMore(s.log, Learned(s.ctrlIn[0].mac, s.ctrlIn[0].port));
    }
  }

  /** The other steps touch neither digests nor what has been answered. */
  lemma OthersKeepOrder(s: System, a: Action)
    requires InOrder(s) && Enabled(s, a) && (a == LearnSmac || a == MsgOut || a == MsgIn || a == Install)
    ensures InOrder(Do(s, a))
  {
    hide Answered;
  }

  lemma ConfigureKeepsDigests(s: System)
    requires InOrder(s) && Enabled(s, Configure)
    ensures InOrder(Do(s, Configure))
  {
    hide Answered;
    if s.todo[0].AddDmac? {
      AnsweredMore(s.log, Configured(s.todo[0].mac, s.todo[0].port));
      assert Answered(s.log) + [] == Answered(s.log);
    }
  }

  lemma DigestsStayInOrder(s: System, a: Action)
    requires InOrder(s) && Enabled(s, a) && Careful(s, a)
    ensures InOrder(Do(s, a))
  {
    hide InOrder, Do, Enabled;
    if a.Packet? || a == DigestOut || a == DigestIn || a == LearnDmac {
      TripKeepsOrder(s, a);
    } else if a == Configure {
      ConfigureKeepsDigests(s);
    } else {
      OthersKeepOrder(s, a);
    }
  }

  // ----- entries are configured in order -----

  lemma {:induction false} EntriesOfPairs(entries: seq<(Mac, Port)>, rest: seq<Msg>)
    ensures EntriesIn(Pairs(entries) + rest) == entries + EntriesIn(rest)
  {
    hide EntriesIn, Pairs;
    if entries == [] {
      PairsOfNone();
      assert [] + rest == rest && entries + EntriesIn(rest) == EntriesIn(rest);
    } else {
      var e, tail := entries[0], entries[1..];
      PairsMore(entries);
      assert Pairs(entries) + rest == [AddDmac(e.0, e.1), AddSmac(e.0)] + (Pairs(tail) + rest);
      EntriesOfPair(e, Pairs(tail) + rest);
      EntriesOfPairs(tail, rest);
      assert entries == [e] + tail && [e] + (tail + EntriesIn(rest)) == [e] + tail + EntriesIn(rest);
    }
  }

  lemma PairsOfNone()
    ensures Pairs([]) == []
  {
  }

  lemma PairsMore(entries: seq<(Mac, Port)>)
    requires entries != []
    ensures Pairs(entries) == [AddDmac(entries[0].0, entries[0].1), AddSmac(entries[0].0)] + Pairs(entries[1..])
  {
  }

  lemma EntriesOfPair(e: (Mac, Port), rest: seq<Msg>)
    ensures EntriesIn([AddDmac(e.0, e.1), AddSmac(e.0)] + rest) == [e] + EntriesIn(rest)
  {
    EntriesMore(AddDmac(e.0, e.1), [AddSmac(e.0)] + rest);
    EntriesMore(AddSmac(e.0), rest);
    hide EntriesIn;
    assert [AddDmac(e.0, e.1)] + ([AddSmac(e.0)] + rest) == [AddDmac(e.0, e.1), AddSmac(e.0)] + rest;
    assert [] + EntriesIn(rest) == EntriesIn(rest);
  }

  lemma EntriesMore(m: Msg, rest: seq<Msg>)
    ensures EntriesIn([m] + rest) == (if m.AddDmac? then [(m.mac, m.port)] else []) + EntriesIn(rest)
  {
    assert ([m] + rest)[1..] == rest;
  }

  /** The entries are those configured and those still to be sent. */
  ghost predicate EntriesKept(s: System, entries: seq<(Mac, Port)>) {
    entries == ConfiguredIn(s.log) + EntriesIn(s.todo)
  }

  lemma ConfigureKeepsEntries(s: System, entries: seq<(Mac, Port)>)
    requires EntriesKept(s, entries) && Enabled(s, Configure)
    ensures EntriesKept(Do(s, Configure), entries)
  {
    var x, rest := s.todo[0], s.todo[1..];
    assert s.todo == [x] + rest;
    EntriesMore(x, rest);
    hide ConfiguredIn, EntriesIn;
    if x.AddDmac? {
      AnsweredMore(s.log, Configured(x.mac, x.port));
      assert ConfiguredIn(s.log) + ([(x.mac, x.port)] + EntriesIn(rest))
        == ConfiguredIn(s.log) + [(x.mac, x.port)] + EntriesIn(rest);
    } else {
      assert [] + EntriesIn(rest) == EntriesIn(rest);
    }
  }

  lemma OthersKeepEntries(s: System, a: Action, entries: seq<(Mac, Port)>)
    requires EntriesKept(s, entries) && Enabled(s, a) && a != Configure
    ensures EntriesKept(Do(s, a), entries)
  {
    hide ConfiguredIn, EntriesIn;
    if a == LearnDmac {
      AnsweredMore(s.log, Learned(s.ctrlIn[0].mac, s.ctrlIn[0].port));
      assert ConfiguredIn(s.log) + [] == ConfiguredIn(s.log);
    }
  }

  lemma EntriesStay(s: System, a: Action, entries: seq<(Mac, Port)>)
    requires EntriesKept(s, entries) && Enabled(s, a)
    ensures EntriesKept(Do(s, a), entries)
  {
    hide EntriesKept, Do, Enabled;
    if a == Configure {
      ConfigureKeepsEntries(s, entries);
    } else {
      OthersKeepEntries(s, a, entries);
    }
  }

  // ----- the dmac table -----

  /** The table after messages. */
  function DmacWith(t: map<Mac, Port>, msgs: seq<Msg>): map<Mac, Port>
    decreases |msgs|
  {
    if msgs == [] then t
    else DmacWith(if msgs[0].AddDmac? then t[msgs[0].mac := msgs[0].port] else t, msgs[1..])
  }

  lemma {:induction false} DmacWithMore(t: map<Mac, Port>, msgs: seq<Msg>, m: Msg)
    ensures DmacWith(t, msgs + [m])
            == if m.AddDmac? then DmacWith(t, msgs)[m.mac := m.port] else DmacWith(t, msgs)
    decreases |msgs|
  {
    if msgs == [] {
      assert msgs + [m] == [m] && [m][1..] == [];
    } else {
      assert (msgs + [m])[1..] == msgs[1..] + [m];
      DmacWithMore(if msgs[0].AddDmac? then t[msgs[0].mac := msgs[0].port] else t, msgs[1..], m);
    }
  }

  /** The ports that the log ends with. */
  function DmacOf(log: seq<Cause>): map<Mac, Port> {
    if log == [] then map[] else
      var c := log[|log| - 1];
      DmacOf(log[..|log| - 1])[c.mac := c.port]
  }

  lemma DmacOfMore(log: seq<Cause>, c: Cause)
    ensures DmacOf(log + [c]) == DmacOf(log)[c.mac := c.port]
  {
    assert (log + [c])[..|log|] == log;
  }

  lemma {:induction false} DmacOfIs(log: seq<Cause>, m: Mac)
    ensures m in DmacOf(log) <==> Logged(log, m)
    ensures m in DmacOf(log) ==> LastPort(log, m, DmacOf(log)[m])
  {
    if log != [] {
      var n := |log| - 1;
      DmacOfIs(log[..n], m);
      if log[n].mac == m {
        assert Logged(log, m) && LastPort(log, m, log[n].port);
      } else {
        LoggedBefore(log, n, m);
        if m in DmacOf(log[..n]) {
          LastPortBefore(log, n, m, DmacOf(log[..n])[m]);
        }
      }
    }
  }

  lemma LoggedBefore(log: seq<Cause>, n: nat, m: Mac)
    requires n + 1 == |log| && log[n].mac != m
    ensures Logged(log, m) <==> Logged(log[..n], m)
  {
    if Logged(log, m) {
      var i :| 0 <= i < |log| && log[i].mac == m;
      assert log[..n][i].mac == m;
    }
    if Logged(log[..n], m) {
      var i :| 0 <= i < n && log[..n][i].mac == m;
      assert log[i].mac == m;
    }
  }

  lemma LastPortBefore(log: seq<Cause>, n: nat, m: Mac, p: Port)
    requires n + 1 == |log| && log[n].mac != m && LastPort(log[..n], m, p)
    ensures LastPort(log, m, p)
  {
    var front := log[..n];
    var i :| 0 <= i < n && front[i].mac == m && front[i].port == p && forall j :: i < j < n ==> front[j].mac != m;
    forall j | i < j < |log| ensures log[j].mac != m {
      assert j < n ==> log[j] == front[j];
    }
    assert log[i].mac == m && log[i].port == p;
  }

  /** With the messages on their way the table is what the log says. */
  ghost predicate DmacFollows(s: System) {
    DmacWith(s.dmac, InFlight(s)) == DmacOf(s.log)
  }

  lemma SentGoesLast(s: System, s0: System, m: Msg)
    requires |s0.ctrlOut| < QUEUE_SIZE
    requires s0.ctrlOut == s.ctrlOut && s0.downstream == s.downstream && s0.switchIn == s.switchIn
    ensures InFlight(Send(s0, m)) == InFlight(s) + [m]
  {
  }

  lemma SendFollows(s: System, s0: System, m: Msg, log: seq<Cause>)
    requires |s0.ctrlOut| < QUEUE_SIZE && s == Send(s0, m)
    requires DmacWith(s0.dmac, InFlight(s0)) == DmacOf(log)
    requires if m.AddDmac? then s0.log == log + [Learned(m.mac, m.port)] || s0.log == log + [Configured(m.mac, m.port)]
             else s0.log == log
    ensures DmacFollows(s)
  {
    hide InFlight, DmacOf, DmacWith;
    SentGoesLast(s0, s0, m);
    DmacWithMore(s0.dmac, InFlight(s0), m);
    if m.AddDmac? {
      DmacOfMore(log, Learned(m.mac, m.port));
      DmacOfMore(log, Configured(m.mac, m.port));
    }
  }

  lemma InstallFollows(s: System)
    requires DmacFollows(s) && Enabled(s, Install)
    ensures DmacFollows(Do(s, Install))
  {
    hide InFlight, DmacOf;
    InstallTakesFirst(s);
    var rest := InFlight(Do(s, Install));
    assert ([s.switchIn[0]] + rest)[1..] == rest;
  }

  lemma DmacKeepsFollowing(s: System, a: Action)
    requires DmacFollows(s) && Enabled(s, a) && Careful(s, a)
    ensures DmacFollows(Do(s, a))
  {
    if a == Install {
      InstallFollows(s);
    } else if a == MsgOut || a == MsgIn {
      TransportKeepsInFlight(s, a);
    } else if Sends(a) {
      SendingFollows(s, a);
    }
  }

  lemma SendingFollows(s: System, a: Action)
    requires DmacFollows(s) && Enabled(s, a) && Careful(s, a) && Sends(a)
    ensures DmacFollows(Do(s, a))
  {
    hide DmacOf, DmacWith;
    match a
    case LearnDmac =>
      var d := s.ctrlIn[0];
      var s0 := s.(ctrlIn := s.ctrlIn[1..], pending := Some(d), log := s.log + [Learned(d.mac, d.port)]);
      SendFollows(Do(s, a), s0, AddDmac(d.mac, d.port), s.log);
    case LearnSmac => SendFollows(Do(s, a), s.(pending := None), AddSmac(s.pending.value.mac), s.log);
    case Configure =>
      var m := s.todo[0];
      var s0 := s.(todo := s.todo[1..], log := if m.AddDmac? then s.log + [Configured(m.mac, m.port)] else s.log);
      SendFollows(Do(s, a), s0, m, s.log);
  }

  // ----- the smac table -----

  /** Its dmac message is sent, its smac message comes next. */
  predicate HalfWay(s: System, m: Mac) {
    || (s.pending.Some? && s.pending.value.mac == m)
    || (s.todo != [] && s.todo[0] == AddSmac(m))
  }

  ghost predicate ForSmac(s: System, m: Mac) {
    m in s.smac || AddSmac(m) in InFlight(s) || HalfWay(s, m)
  }

  /** In what is left to configure every dmac message is followed by its smac message. */
  predicate Paired(todo: seq<Msg>) {
    && (forall i :: 0 <= i < |todo| && todo[i].AddDmac? ==> i + 1 < |todo| && todo[i + 1] == AddSmac(todo[i].mac))
    && (forall i :: 0 < i < |todo| && todo[i].AddSmac? ==> todo[i - 1].AddDmac? && todo[i - 1].mac == todo[i].mac)
  }

  /** With the messages on their way smac holds the MACs of the log. */
  ghost predicate SmacFollows(s: System) {
    Paired(s.todo) && forall m: Mac :: ForSmac(s, m) <==> Logged(s.log, m)
  }

  lemma LoggedMore(log: seq<Cause>, c: Cause, m: Mac)
    ensures Logged(log + [c], m) <==> Logged(log, m) || c.mac == m
  {
    if Logged(log, m) {
      var i :| 0 <= i < |log| && log[i].mac == m;
      assert (log + [c])[i].mac == m;
    }
    assert (log + [c])[|log|] == c;
    if Logged(log + [c], m) && c.mac != m {
      var i :| 0 <= i < |log + [c]| && (log + [c])[i].mac == m;
      assert log[i].mac == m;
    }
  }

  lemma SmacOfOne(s: System, a: Action, m: Mac)
    requires Paired(s.todo) && Enabled(s, a) && Careful(s, a) && (ForSmac(s, m) <==> Logged(s.log, m))
    ensures ForSmac(Do(s, a), m) <==> Logged(Do(s, a).log, m)
  {
    hide Logged, Do, ForSmac, Enabled, Careful, Paired;
    match a
    case LearnDmac => LearnDmacFollows(s, m);
    case LearnSmac => LearnSmacFollows(s, m);
    case Configure => ConfigureFollows(s, m);
    case _ => DeliveryFollows(s, a, m);
  }

  lemma LearnSmacFollows(s: System, m: Mac)
    requires Enabled(s, LearnSmac) && Careful(s, LearnSmac) && (ForSmac(s, m) <==> Logged(s.log, m))
    ensures ForSmac(Do(s, LearnSmac), m) <==> Logged(Do(s, LearnSmac).log, m)
  {
    hide Logged, InFlight;
    SentGoesLast(s, s.(pending := None), AddSmac(s.pending.value.mac));
  }

  lemma DeliveryFollows(s: System, a: Action, m: Mac)
    requires Enabled(s, a) && Careful(s, a) && !Sends(a) && (ForSmac(s, m) <==> Logged(s.log, m))
    ensures ForSmac(Do(s, a), m) <==> Logged(Do(s, a).log, m)
  {
    hide Logged;
    if a == Install {
      InstallTakesFirst(s);
      hide InFlight;
      assert AddSmac(m) in [s.switchIn[0]] + InFlight(Do(s, a)) <==>
        s.switchIn[0] == AddSmac(m) || AddSmac(m) in InFlight(Do(s, a));
    } else if a == MsgOut || a == MsgIn {
      TransportKeepsInFlight(s, a);
    }
  }

  lemma LearnDmacFollows(s: System, m: Mac)
    requires Enabled(s, LearnDmac) && Careful(s, LearnDmac) && (ForSmac(s, m) <==> Logged(s.log, m))
    ensures ForSmac(Do(s, LearnDmac), m) <==> Logged(Do(s, LearnDmac).log, m)
  {
    hide Logged, InFlight;
    var d := s.ctrlIn[0];
    LoggedMore(s.log, Learned(d.mac, d.port), m);
    SentGoesLast(s, s.(ctrlIn := s.ctrlIn[1..], pending := Some(d), log := s.log + [Learned(d.mac, d.port)]),
                 AddDmac(d.mac, d.port));
  }

  lemma ConfigureFollows(s: System, m: Mac)
    requires Paired(s.todo) && Enabled(s, Configure) && Careful(s, Configure)
    requires ForSmac(s, m) <==> Logged(s.log, m)
    ensures ForSmac(Do(s, Configure), m) <==> Logged(Do(s, Configure).log, m)
  {
    hide Logged, InFlight;
    var x := s.todo[0];
    if x.AddDmac? {
      LoggedMore(s.log, Configured(x.mac, x.port), m);
      assert s.todo[1..][0] == AddSmac(x.mac);
    }
    assert |s.todo| > 1 && s.todo[1].AddSmac? ==> x.AddDmac? && x.mac == s.todo[1].mac;
    SentGoesLast(s, s.(todo := s.todo[1..],
                       log := if x.AddDmac? then s.log + [Configured(x.mac, x.port)] else s.log), x);
  }

  lemma SmacKeepsFollowing(s: System, a: Action)
    requires SmacFollows(s) && Enabled(s, a) && Careful(s, a)
    ensures SmacFollows(Do(s, a))
  {
    forall m: Mac ensures ForSmac(Do(s, a), m) <==> Logged(Do(s, a).log, m) {
      SmacOfOne(s, a, m);
    }
    hide ForSmac, Logged, InFlight;
    assert Do(s, a).todo == s.todo || Do(s, a).todo == s.todo[1..];
  }

  // ----- the switch reports packets -----

  /** Digests come only after the default action of smac is set, whose message is on its way. */
  ghost predicate ReportsWhenSet(s: System) {
    && (s.learning || SmacLearns in InFlight(s) || SmacLearns in s.todo)
    && (s.sent != [] ==> s.learning)
  }

  lemma SendingReports(s: System, a: Action)
    requires ReportsWhenSet(s) && Enabled(s, a) && Careful(s, a) && Sends(a)
    ensures ReportsWhenSet(Do(s, a))
  {
    hide InFlight;
    match a
    case LearnDmac =>
      var d := s.ctrlIn[0];
      SentGoesLast(s, s.(ctrlIn := s.ctrlIn[1..], pending := Some(d), log := s.log + [Learned(d.mac, d.port)]),
                   AddDmac(d.mac, d.port));
    case LearnSmac => SentGoesLast(s, s.(pending := None), AddSmac(s.pending.value.mac));
    case Configure =>
      var x := s.todo[0];
      SentGoesLast(s, s.(todo := s.todo[1..],
                         log := if x.AddDmac? then s.log + [Configured(x.mac, x.port)] else s.log), x);
      assert s.todo == [x] + s.todo[1..];
  }

  lemma DeliveryReports(s: System, a: Action)
    requires ReportsWhenSet(s) && Enabled(s, a) && Careful(s, a) && !Sends(a)
    ensures ReportsWhenSet(Do(s, a))
  {
    if a == Install {
      InstallTakesFirst(s);
      hide InFlight;
      assert SmacLearns in [s.switchIn[0]] + InFlight(Do(s, a)) ==>
        s.switchIn[0] == SmacLearns || SmacLearns in InFlight(Do(s, a));
    } else if a == MsgOut || a == MsgIn {
      TransportKeepsInFlight(s, a);
    }
  }

  lemma ReportingStays(s: System, a: Action)
    requires ReportsWhenSet(s) && Enabled(s, a) && Careful(s, a)
    ensures ReportsWhenSet(Do(s, a))
  {
    hide ReportsWhenSet, Do, Enabled, Careful;
    if Sends(a) {
      SendingReports(s, a);
    } else {
      DeliveryReports(s, a);
    }
  }

  // ----- every run -----

  ghost predicate Flows(s: System, entries: seq<(Mac, Port)>) {
    InOrder(s) && EntriesKept(s, entries) && DmacFollows(s) && SmacFollows(s) && ReportsWhenSet(s)
  }

  lemma StepFlows(s: System, a: Action, entries: seq<(Mac, Port)>)
    requires Flows(s, entries) && Enabled(s, a) && Careful(s, a)
    ensures Flows(Do(s, a), entries)
  {
    hide InOrder, EntriesKept, DmacFollows, SmacFollows, ReportsWhenSet, Do, Enabled, Careful;
    DigestsStayInOrder(s, a);
    EntriesStay(s, a, entries);
    DmacKeepsFollowing(s, a);
    SmacKeepsFollowing(s, a);
    ReportingStays(s, a);
  }

  lemma {:induction false} RunFlows(s: System, run: seq<Action>, entries: seq<(Mac, Port)>)
    requires Flows(s, entries) && CanRun(s, run) && NothingLost(s, run)
    ensures Flows(Run(s, run), entries)
    decreases |run|
  {
    hide Flows, Do, Enabled, Careful;
    if run != [] {
      StepFlows(s, run[0], entries);
      RunFlows(Do(s, run[0]), run[1..], entries);
    }
  }

  lemma {:induction false} PairsArePaired(entries: seq<(Mac, Port)>)
    ensures Paired(Pairs(entries)) && (entries != [] ==> Pairs(entries)[0].AddDmac?)
  {
    if entries != [] {
      PairsArePaired(entries[1..]);
      hide Pairs;
      PairedMore(entries[0], Pairs(entries[1..]));
    }
  }

  lemma PairedMore(e: (Mac, Port), rest: seq<Msg>)
    requires Paired(rest) && (rest != [] ==> !rest[0].AddSmac?)
    ensures Paired([AddDmac(e.0, e.1), AddSmac(e.0)] + rest)
  {
    var todo := [AddDmac(e.0, e.1), AddSmac(e.0)] + rest;
    forall i | 2 <= i < |todo| ensures todo[i] == rest[i - 2] {
    }
  }

  lemma PairedConcat(a: seq<Msg>, b: seq<Msg>)
    requires Paired(a) && Paired(b) && (b != [] ==> !b[0].AddSmac?)
    ensures Paired(a + b)
  {
    var todo := a + b;
    forall i | 0 <= i < |todo| && todo[i].AddDmac?
      ensures i + 1 < |todo| && todo[i + 1] == AddSmac(todo[i].mac)
    {
      if i >= |a| {
        assert todo[i] == b[i - |a|] && todo[i + 1] == b[i - |a| + 1];
      }
    }
    forall i | 0 < i < |todo| && todo[i].AddSmac? ensures todo[i - 1].AddDmac? && todo[i - 1].mac == todo[i].mac {
      if i >= |a| {
        assert todo[i] == b[i - |a|];
        assert i > |a| ==> todo[i - 1] == b[i - |a| - 1];
      }
    }
  }

  lemma StartEntries(file: seq<(Mac, Port)>)
    ensures EntriesKept(Start(file), BUILTIN + file)
  {
    hide EntriesIn, Pairs;
    var defaults := [SmacLearns, DmacFloods];
    assert Pairs(BUILTIN) + defaults + Pairs(file) == Pairs(BUILTIN) + (defaults + Pairs(file));
    NoDmac(Pairs(file));
    EntriesOfPairs(BUILTIN, defaults + Pairs(file));
    EntriesOfPairs(file, []);
    NoEntries();
    assert Pairs(file) + [] == Pairs(file) && file + [] == file && [] + (BUILTIN + file) == BUILTIN + file;
  }

  lemma NoEntries()
    ensures EntriesIn([]) == []
  {
  }

  lemma StartSmac(file: seq<(Mac, Port)>)
    ensures SmacFollows(Start(file))
  {
    var s, defaults := Start(file), [SmacLearns, DmacFloods];
    PairsArePaired(BUILTIN);
    PairsArePaired(file);
    PairsMore(BUILTIN);
    hide Pairs;
    assert Paired(defaults);
    PairedConcat(Pairs(BUILTIN), defaults);
    PairedConcat(Pairs(BUILTIN) + defaults, Pairs(file));
    assert s.todo[0] == Pairs(BUILTIN)[0];
    assert InFlight(s) == [];
  }

  lemma StartReports(file: seq<(Mac, Port)>)
    ensures ReportsWhenSet(Start(file)) && DmacFollows(Start(file)) && InOrder(Start(file))
  {
    hide Pairs;
    var s := Start(file);
    assert s.todo[|Pairs(BUILTIN)|] == SmacLearns;
    assert InFlight(s) == [] && [] + s.todo == s.todo;
  }

  lemma StartFlows(file: seq<(Mac, Port)>)
    ensures Flows(Start(file), BUILTIN + file)
  {
    hide Start, EntriesKept, SmacFollows, ReportsWhenSet, DmacFollows, InOrder;
    StartEntries(file);
    StartSmac(file);
    StartReports(file);
  }

  lemma NoDmac(rest: seq<Msg>)
    ensures EntriesIn([SmacLearns, DmacFloods] + rest) == EntriesIn(rest)
  {
    var msgs := [SmacLearns, DmacFloods] + rest;
    assert msgs == [SmacLearns] + ([DmacFloods] + rest);
    EntriesMore(SmacLearns, [DmacFloods] + rest);
    EntriesMore(DmacFloods, rest);
  }

  /** Nothing is on its way and nothing is left to send. */
  predicate Quiet(s: System) {
    && s.digests == s.upstream == s.ctrlIn == [] && s.pending == None && s.todo == []
    && s.ctrlOut == s.downstream == s.switchIn == []
  }

  /** In every state reached without loss or drop: the digests sent are those answered and those still
      queued, in order; entries are configured in order; and what the tables hold, with the messages on
      their way delivered, is decided by the last cause of each MAC. */
  lemma LearningKeepsOrder(file: seq<(Mac, Port)>, run: seq<Action>)
    requires CanRun(Start(file), run) && NothingLost(Start(file), run)
    ensures var s := Run(Start(file), run);
            && s.sent == Answered(s.log) + s.ctrlIn + s.upstream + s.digests
            && BUILTIN + file == ConfiguredIn(s.log) + EntriesIn(s.todo)
            && (s.sent != [] ==> s.learning)
            && (InFlight(s) == [] ==>
                  forall m: Mac :: if m in s.dmac then LastPort(s.log, m, s.dmac[m]) else !Logged(s.log, m))
  {
    StartFlows(file);
    RunFlows(Start(file), run, BUILTIN + file);
    var s := Run(Start(file), run);
    if InFlight(s) == [] {
      hide InFlight, Run;
      forall m: Mac ensures if m in s.dmac then LastPort(s.log, m, s.dmac[m]) else !Logged(s.log, m) {
        DmacOfIs(s.log, m);
      }
    }
  }

  /** Once everything is delivered both tables hold exactly the MACs learned or configured, every digest
      is answered and every entry sent. */
  lemma LearningCompletes(file: seq<(Mac, Port)>, run: seq<Action>)
    requires CanRun(Start(file), run) && NothingLost(Start(file), run) && Quiet(Run(Start(file), run))
    ensures var s := Run(Start(file), run);
            && s.learning && s.sent == Answered(s.log) && ConfiguredIn(s.log) == BUILTIN + file
            && (forall m: Mac :: m in s.smac <==> Logged(s.log, m))
            && (forall m: Mac :: if m in s.dmac then LastPort(s.log, m, s.dmac[m]) else !Logged(s.log, m))
            && s.smac == s.dmac.Keys
  {
    LearningKeepsOrder(file, run);
    StartFlows(file);
    RunFlows(Start(file), run, BUILTIN + file);
    var s := Run(Start(file), run);
    assert InFlight(s) == [] && Answered(s.log) + [] + [] + [] == Answered(s.log) && EntriesIn([]) == [];
    assert ConfiguredIn(s.log) + [] == ConfiguredIn(s.log);
    hide InFlight, Run, Logged, LastPort;
    forall m: Mac ensures m in s.smac <==> Logged(s.log, m) {
      assert ForSmac(s, m) <==> m in s.smac;
    }
    forall m: Mac ensures m in s.smac <==> m in s.dmac {
      DmacOfIs(s.log, m);
    }
  }

  // ----- every packet is learned -----

  lemma StepGrows(s: System, a: Action)
    requires Enabled(s, a)
    ensures s.smac <= Do(s, a).smac && s.sent <= Do(s, a).sent
  {
  }

  lemma {:induction false} RunGrows(s: System, run: seq<Action>)
    requires CanRun(s, run)
    ensures s.smac <= Run(s, run).smac && s.sent <= Run(s, run).sent
    decreases |run|
  {
    hide Do, Enabled;
    if run != [] {
      StepGrows(s, run[0]);
      RunGrows(Do(s, run[0]), run[1..]);
    }
  }

  lemma {:induction false} AnsweredIsLogged(log: seq<Cause>, d: Digest)
    requires d in Answered(log)
    ensures Logged(log, d.mac)
  {
    var n := |log| - 1;
    if log[n].mac != d.mac {
      assert d in Answered(log[..n]);
      AnsweredIsLogged(log[..n], d);
      LoggedBefore(log, n, d.mac);
    }
  }

  lemma PacketIsReported(s: System, m: Mac, p: Port)
    requires s.learning
    ensures var s' := Do(s, Packet(m, p)); m in s'.smac || Digest(m, p) in s'.sent
  {
  }

  /** The source of every packet that the switch sees once its default action is set is in both tables
      when everything is delivered. */
  lemma HeardIsLearned(file: seq<(Mac, Port)>, before: seq<Action>, m: Mac, p: Port, after: seq<Action>)
    requires CanRun(Start(file), before) && Run(Start(file), before).learning
    requires CanRun(Do(Run(Start(file), before), Packet(m, p)), after)
    requires var run := before + ([Packet(m, p)] + after);
             && CanRun(Start(file), run) && NothingLost(Start(file), run) && Quiet(Run(Start(file), run))
    ensures var s := Run(Start(file), before + ([Packet(m, p)] + after)); m in s.smac && m in s.dmac
  {
    var s0, run := Start(file), before + ([Packet(m, p)] + after);
    LearningCompletes(file, run);
    var s1 := Run(s0, before);
    var s2 := Do(s1, Packet(m, p));
    PacketIsReported(s1, m, p);
    RunGrows(s2, after);
    RunOne(s1, Packet(m, p));
    RunAppend(s1, [Packet(m, p)], after);
    RunAppend(s0, before, [Packet(m, p)] + after);
    var s := Run(s0, run);
    hide Run, CanRun, NothingLost, Do, Start, Answered;
    assert s == Run(s2, after);
    if m !in s2.smac {
      assert Digest(m, p) in s.sent;
      AnsweredIsLogged(s.log, Digest(m, p));
    }
  }

  // ----- what is learned is final -----

  /** No message about m is under way and none is left to send. */
  ghost predicate NoneAbout(s: System, m: Mac) {
    && (forall d :: d in s.digests || d in s.upstream || d in s.ctrlIn || s.pending == Some(d) ==> d.mac != m)
    && (forall x :: (x in s.todo || x in InFlight(s)) && x.AddDmac? ==> x.mac != m)
  }

  ghost predicate Settled(s: System, m: Mac, p: Port) {
    m in s.smac && m in s.dmac && s.dmac[m] == p && NoneAbout(s, m)
  }

  /** No digest sent since the first n is about m. */
  ghost predicate SilentSince(sent: seq<Digest>, n: nat, m: Mac) {
    forall i :: n <= i < |sent| ==> sent[i].mac != m
  }

  lemma SendStaysSettled(s: System, x: Msg, m: Mac, p: Port)
    requires Settled(s, m, p) && (x.AddDmac? ==> x.mac != m)
    ensures Settled(Send(s, x), m, p)
  {
  }

  lemma SendingStaysSettled(s: System, a: Action, m: Mac, p: Port)
    requires Settled(s, m, p) && Enabled(s, a) && Sends(a)
    ensures Settled(Do(s, a), m, p) && Do(s, a).sent == s.sent
  {
    match a
    case LearnDmac =>
      var d := s.ctrlIn[0];
      var s0 := s.(ctrlIn := s.ctrlIn[1..], pending := Some(d), log := s.log + [Learned(d.mac, d.port)]);
      SendStaysSettled(s0, AddDmac(d.mac, d.port), m, p);
    case LearnSmac => SendStaysSettled(s.(pending := None), AddSmac(s.pending.value.mac), m, p);
    case Configure =>
      var x := s.todo[0];
      var s0 := s.(todo := s.todo[1..], log := if x.AddDmac? then s.log + [Configured(x.mac, x.port)] else s.log);
      SendStaysSettled(s0, x, m, p);
  }

  lemma StepStaysSettled(s: System, a: Action, m: Mac, p: Port)
    requires Settled(s, m, p) && Enabled(s, a)
    ensures Settled(Do(s, a), m, p)
    ensures s.sent <= Do(s, a).sent && SilentSince(Do(s, a).sent, |s.sent|, m)
  {
    if Sends(a) {
      SendingStaysSettled(s, a, m, p);
    }
  }

  lemma {:induction false} RunStaysSettled(s: System, run: seq<Action>, m: Mac, p: Port)
    requires Settled(s, m, p) && CanRun(s, run)
    ensures Settled(Run(s, run), m, p)
    ensures s.sent <= Run(s, run).sent && SilentSince(Run(s, run).sent, |s.sent|, m)
    decreases |run|
  {
    if run != [] {
      hide Settled, Do, Enabled;
      StepStaysSettled(s, run[0], m, p);
      RunStaysSettled(Do(s, run[0]), run[1..], m, p);
    }
  }

  /** Once everything is delivered what was learned is final: whatever happens next, losses and packets
      of the same address from other ports included, a MAC of the tables keeps its port and no digest
      about it is sent any more. So a host that moves is never learned on its new port. */
  lemma LearnedIsFinal(file: seq<(Mac, Port)>, run: seq<Action>, more: seq<Action>, m: Mac)
    requires CanRun(Start(file), run) && NothingLost(Start(file), run) && Quiet(Run(Start(file), run))
    requires CanRun(Run(Start(file), run), more) && m in Run(Start(file), run).smac
    ensures var s, s' := Run(Start(file), run), Run(Run(Start(file), run), more);
            && m in s'.smac && m in s.dmac && m in s'.dmac && s'.dmac[m] == s.dmac[m]
            && s.sent <= s'.sent && SilentSince(s'.sent, |s.sent|, m)
  {
    LearningCompletes(file, run);
    var s := Run(Start(file), run);
    hide Run, CanRun, NothingLost, Start;
    assert InFlight(s) == [];
    RunStaysSettled(s, more, m, s.dmac[m]);
  }
}

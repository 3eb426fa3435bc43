/** Packets one after another through one descriptor. Slots and flags of headers that a packet
    lacks outlive it, so the flags of one packet decide whether the next one faults, besides its own
    steps on headers it lacks. */
module CacheSequences {
  import opened Words
  import opened FieldMacros
  import opened HeaderRecord
  import opened FieldCache
  import opened CacheCoherence

  /** A packet, the fields of its extracted headers and the steps that run on it. */
  datatype Arrival = Arrival(mem: Memory, present: set<nat>, run: seq<Step>)

  /** The descriptor sees every packet with the same fields and slots. */
  function ContextAt(fields: seq<FieldDesc>, cached: set<nat>, a: Arrival): Context {
    Context(fields, a.present, cached, |a.mem|)
  }

  ghost predicate Fit(fields: seq<FieldDesc>, cached: set<nat>, arrivals: seq<Arrival>) {
    forall i :: 0 <= i < |arrivals| ==>
      ContextAt(fields, cached, arrivals[i]).WellFormed()
        && ContextAt(fields, cached, arrivals[i]).NamesAll(arrivals[i].run)
  }

  /** What becomes of the packets, up to the first fault. */
  function HandleAll(fields: seq<FieldDesc>, slots: map<nat, Word>, marked: set<nat>, arrivals: seq<Arrival>)
    : (outs: seq<Outcome>)
    requires Fit(fields, slots.Keys, arrivals)
    ensures |outs| <= |arrivals|
    decreases |arrivals|
  {
    if arrivals == [] then [] else
      var ctx := ContextAt(fields, slots.Keys, arrivals[0]);
      match HandlePacket(ctx, State(arrivals[0].mem, slots, marked), arrivals[0].run)
      case Fault => [Fault]
      case Packet(mem, seen, slots', marked') =>
        SlotsStay(ctx, State(arrivals[0].mem, slots, marked), arrivals[0].run);
        [Packet(mem, seen, slots', marked')] + HandleAll(fields, slots', marked', arrivals[1..])
  }

  lemma SlotsStay(ctx: Context, g: State, run: seq<Step>)
    requires ctx.WellFormed() && Slots(ctx, g) && ctx.NamesAll(run)
    ensures var out := HandlePacket(ctx, g, run); out.Packet? ==> out.cache.Keys == g.cache.Keys
  {
    hide Parse, GeneratedRun, Flush;
  }

  // ----- the flags a packet leaves -----

  /** A packet that gets through leaves exactly the flags of its own run. */
  lemma PacketLeavesItsFlags(ctx: Context, g: State, run: seq<Step>)
    requires ctx.WellFormed() && Slots(ctx, g) && ctx.NamesAll(run)
    ensures HandlePacket(ctx, g, run).Packet? <==> g.marked * ctx.cached <= ctx.present && ctx.RunsAll(run)
    ensures var out := HandlePacket(ctx, g, run); out.Packet? ==> out.marked * ctx.cached == Flagged(ctx, run)
  {
    FaultsIff(ctx, g, run);
    if g.marked * ctx.cached <= ctx.present && ctx.RunsAll(run) {
      RunsAllIff(ctx, run);
      RunFlags(ctx, Parse(ctx, g), run);
      FlagsAreSlots(ctx, run);
      hide Flush, GeneratedRun, Flagged;
    }
  }

  /** The actions of every packet keep to the headers it has. */
  ghost predicate RunsMeetTheirHeaders(fields: seq<FieldDesc>, cached: set<nat>, arrivals: seq<Arrival>) {
    forall i :: 0 <= i < |arrivals| ==> ContextAt(fields, cached, arrivals[i]).RunsAll(arrivals[i].run)
  }

  /** Packet i + 1 extracts every header with a field that packet i has flagged. */
  ghost predicate FlagsMeetTheirHeaders(fields: seq<FieldDesc>, cached: set<nat>, arrivals: seq<Arrival>)
    requires Fit(fields, cached, arrivals)
  {
    forall i :: 0 <= i < |arrivals| - 1 ==>
      Flagged(ContextAt(fields, cached, arrivals[i]), arrivals[i].run) <= arrivals[i + 1].present
  }

  ghost predicate NoFault(outs: seq<Outcome>) {
    forall o :: o in outs ==> o.Packet?
  }

  lemma FlagsOfTail(fields: seq<FieldDesc>, cached: set<nat>, arrivals: seq<Arrival>)
    requires Fit(fields, cached, arrivals) && |arrivals| > 1
    ensures Fit(fields, cached, arrivals[1..])
    ensures RunsMeetTheirHeaders(fields, cached, arrivals) <==>
      && ContextAt(fields, cached, arrivals[0]).RunsAll(arrivals[0].run)
      && RunsMeetTheirHeaders(fields, cached, arrivals[1..])
    ensures FlagsMeetTheirHeaders(fields, cached, arrivals) <==>
      && Flagged(ContextAt(fields, cached, arrivals[0]), arrivals[0].run) <= arrivals[1].present
      && FlagsMeetTheirHeaders(fields, cached, arrivals[1..])
  {
    hide Flagged, Context.RunsAll;
    assert arrivals == [arrivals[0]] + arrivals[1..];
    if FlagsMeetTheirHeaders(fields, cached, arrivals[1..])
       && Flagged(ContextAt(fields, cached, arrivals[0]), arrivals[0].run) <= arrivals[1].present {
      forall i | 0 <= i < |arrivals| - 1
        ensures Flagged(ContextAt(fields, cached, arrivals[i]), arrivals[i].run) <= arrivals[i + 1].present
      {
        if i > 0 {
          assert arrivals[i] == arrivals[1..][i - 1] && arrivals[i + 1] == arrivals[1..][i];
        }
      }
    }
    if FlagsMeetTheirHeaders(fields, cached, arrivals) {
      forall i | 0 <= i < |arrivals[1..]| - 1
        ensures Flagged(ContextAt(fields, cached, arrivals[1..][i]), arrivals[1..][i].run)
                <= arrivals[1..][i + 1].present
      {
        assert arrivals[1..][i] == arrivals[i + 1] && arrivals[1..][i + 1] == arrivals[i + 2];
      }
    }
  }

  /** Starting with the flags `marked`, all packets get through if and only if their actions keep to
      the headers they have, the first one extracts what is flagged and each later one what the
      packet before it has flagged. */
  lemma {:induction false} NoFaultIff(fields: seq<FieldDesc>, slots: map<nat, Word>, marked: set<nat>,
          arrivals: seq<Arrival>)
    requires Fit(fields, slots.Keys, arrivals)
    ensures NoFault(HandleAll(fields, slots, marked, arrivals)) <==>
      && RunsMeetTheirHeaders(fields, slots.Keys, arrivals)
      && (arrivals != [] ==> marked * slots.Keys <= arrivals[0].present)
      && FlagsMeetTheirHeaders(fields, slots.Keys, arrivals)
    decreases |arrivals|
  {
    hide HandlePacket, Flagged, Context.RunsAll, Context.NamesAll;
    if arrivals == [] {
    } else {
      var ctx, g := ContextAt(fields, slots.Keys, arrivals[0]), State(arrivals[0].mem, slots, marked);
      PacketLeavesItsFlags(ctx, g, arrivals[0].run);
      SlotsStay(ctx, g, arrivals[0].run);
      var out := HandlePacket(ctx, g, arrivals[0].run);
      if |arrivals| > 1 {
        FlagsOfTail(fields, slots.Keys, arrivals);
      }
      if out.Packet? {
        NoFaultIff(fields, out.cache, out.marked, arrivals[1..]);
        assert HandleAll(fields, slots, marked, arrivals)
          == [out] + HandleAll(fields, out.cache, out.marked, arrivals[1..]);
      } else {
        assert Fault in HandleAll(fields, slots, marked, arrivals);
      }
    }
  }

  /** A fresh descriptor faults on its first packet when an action of that adds to a cached field of
      a header that the packet lacks: the slot is there, the header is not. */
  lemma AbsentHeaderFaults(fields: seq<FieldDesc>, slots: map<nat, Word>, arrivals: seq<Arrival>, f: nat, c: Word)
    requires Fit(fields, slots.Keys, arrivals) && arrivals != []
    requires f in slots.Keys && f !in arrivals[0].present && arrivals[0].run == [AddConst(f, c)]
    ensures HandleAll(fields, slots, {}, arrivals) == [Fault]
    ensures ContextAt(fields, slots.Keys, arrivals[0]).ReachesAll(arrivals[0].run)
  {
    hide HandlePacket;
    var ctx, g := ContextAt(fields, slots.Keys, arrivals[0]), State(arrivals[0].mem, slots, {});
    PacketLeavesItsFlags(ctx, g, arrivals[0].run);
    assert !ctx.Runs(arrivals[0].run[0]);
  }

  /** A fresh descriptor faults on its second packet as soon as that lacks a header with a field
      that the first packet's actions flagged. */
  lemma SecondPacketFaults(fields: seq<FieldDesc>, slots: map<nat, Word>, arrivals: seq<Arrival>, f: nat)
    requires Fit(fields, slots.Keys, arrivals) && |arrivals| >= 2
    requires ContextAt(fields, slots.Keys, arrivals[0]).RunsAll(arrivals[0].run)
    requires f in Flagged(ContextAt(fields, slots.Keys, arrivals[0]), arrivals[0].run) && f !in arrivals[1].present
    ensures var outs := HandleAll(fields, slots, {}, arrivals);
            |outs| == 2 && outs[0].Packet? && outs[1] == Fault
  {
    hide HandlePacket, Flagged;
    var ctx, g := ContextAt(fields, slots.Keys, arrivals[0]), State(arrivals[0].mem, slots, {});
    PacketLeavesItsFlags(ctx, g, arrivals[0].run);
    SlotsStay(ctx, g, arrivals[0].run);
    FlagsAreSlots(ctx, arrivals[0].run);
    var out := HandlePacket(ctx, g, arrivals[0].run);
    assert f in out.marked * ctx.cached;
    assert arrivals[1..][0] == arrivals[1];
    FirstPacketFaults(fields, out.cache, out.marked, arrivals[1..], f);
  }

  lemma FirstPacketFaults(fields: seq<FieldDesc>, slots: map<nat, Word>, marked: set<nat>, arrivals: seq<Arrival>,
          f: nat)
    requires Fit(fields, slots.Keys, arrivals) && arrivals != []
    requires f in marked && f in slots.Keys && f !in arrivals[0].present
    ensures HandleAll(fields, slots, marked, arrivals) == [Fault]
  {
    hide HandlePacket;
    var ctx, g := ContextAt(fields, slots.Keys, arrivals[0]), State(arrivals[0].mem, slots, marked);
    PacketLeavesItsFlags(ctx, g, arrivals[0].run);
  }

  // ----- which fields are flagged, by the fields and steps alone -----

  /** The step reads or assigns f through its 32-bit value; the other steps work on bytes of the
      packet. */
  predicate Modifies(fields: seq<FieldDesc>, s: Step, f: nat) {
    match s
    case ModifyConst(dst, _) => f == dst
    case AddConst(dst, _) => f == dst
    case AddFrom(dst, src) => f == dst || f == src
    case ModifyFrom(dst, src, _) =>
      dst < |fields| && src < |fields| && fields[dst].meta != fields[src].meta && (f == dst || f == src)
    case _ => false
  }

  lemma {:induction false} FlaggedIff(ctx: Context, run: seq<Step>, f: nat)
    requires ctx.NamesAll(run)
    ensures f in Flagged(ctx, run) <==> exists t :: 0 <= t < |run| && f in Touches(ctx, run[t])
    decreases |run|
  {
    hide Touches;
    if run != [] {
      FlaggedIff(ctx, run[1..], f);
      assert run == [run[0]] + run[1..];
      if f in Flagged(ctx, run[1..]) {
        var t :| 0 <= t < |run[1..]| && f in Touches(ctx, run[1..][t]);
        assert f in Touches(ctx, run[t + 1]);
      }
    }
  }

  /** A slot exists for every field that a step of the program can touch through one. */
  lemma TouchedIff(fields: seq<FieldDesc>, program: seq<Step>, present: set<nat>, size: nat, s: Step, f: nat)
    requires ContextOf(fields, program, present, size).Names(s) && InProgram(program, s)
    ensures f in Touches(ContextOf(fields, program, present, size), s) <==>
      f < |fields| && !fields[f].meta && fields[f].bitWidth <= 32 && Modifies(fields, s, f)
  {
    if s in program {
      var t :| 0 <= t < |program| && program[t] == s;
    }
  }

  /** From a descriptor without flags, a run of the program that gets through leaves exactly those
      fields flagged that lie in the packet, have at most 32 bits, and are an operand of some constant
      assignment, addition, or copy between packet and metadata of the run. */
  lemma MarksAreOperands(fields: seq<FieldDesc>, program: seq<Step>, present: set<nat>, g: State, run: seq<Step>,
          f: nat)
    requires var ctx := ContextOf(fields, program, present, |g.mem|);
             && ctx.WellFormed() && Slots(ctx, g) && g.marked == {} && RunOf(ctx, program, run)
             && HandlePacket(ctx, g, run).Packet?
    ensures var out := HandlePacket(ContextOf(fields, program, present, |g.mem|), g, run);
            f in out.marked <==>
              && f < |fields| && !fields[f].meta && fields[f].bitWidth <= 32
              && exists t :: 0 <= t < |run| && Modifies(fields, run[t], f)
  {
    var ctx := ContextOf(fields, program, present, |g.mem|);
    LeavesOnlyFlags(ctx, g, run);
    FlaggedIff(ctx, run, f);
    hide HandlePacket, ContextOf, Touches, Flagged, Modifies, InProgram;
    forall t | 0 <= t < |run|
      ensures f in Touches(ctx, run[t]) <==>
        f < |fields| && !fields[f].meta && fields[f].bitWidth <= 32 && Modifies(fields, run[t], f)
    {
      TouchedIff(fields, program, present, |g.mem|, run[t], f);
    }
  }

  lemma LeavesOnlyFlags(ctx: Context, g: State, run: seq<Step>)
    requires ctx.WellFormed() && Slots(ctx, g) && g.marked == {} && ctx.NamesAll(run)
    requires HandlePacket(ctx, g, run).Packet?
    ensures HandlePacket(ctx, g, run).marked == Flagged(ctx, run)
  {
    FaultsIff(ctx, g, run);
    RunsAllIff(ctx, run);
    RunFlags(ctx, Parse(ctx, g), run);
    hide Flush, GeneratedRun, Flagged;
  }

  /** The time to live of a packet is counted down in its slot; the next packet, if it lacks that
      header, ends at a null pointer. Slots are those of the compiled program. */
  lemma CountedFieldFaultsLater(fields: seq<FieldDesc>, program: seq<Step>, slots: map<nat, Word>,
          arrivals: seq<Arrival>, f: nat, c: Word)
    requires slots.Keys == ContextOf(fields, program, {}, 0).cached && Fit(fields, slots.Keys, arrivals)
    requires AddConst(f, c) in program && f < |fields| && !fields[f].meta && fields[f].bitWidth <= 32
    requires |arrivals| >= 2 && arrivals[0].run == [AddConst(f, c)]
    requires f in arrivals[0].present && f !in arrivals[1].present
    ensures var outs := HandleAll(fields, slots, {}, arrivals);
            |outs| == 2 && outs[0].Packet? && outs[1] == Fault
  {
    hide HandleAll;
    var ctx := ContextAt(fields, slots.Keys, arrivals[0]);
    var s := AddConst(f, c);
    TouchedIff(fields, program, arrivals[0].present, |arrivals[0].mem|, s, f);
    assert f in Touches(ctx, arrivals[0].run[0]);
    assert ctx.RunsAll(arrivals[0].run);
    SecondPacketFaults(fields, slots, arrivals, f);
  }

  // ----- coherent programs on all packets of a sequence -----

  /** Every packet is sent as direct execution leaves it. */
  ghost predicate AllDirect(fields: seq<FieldDesc>, cached: set<nat>, arrivals: seq<Arrival>, outs: seq<Outcome>)
    requires Fit(fields, cached, arrivals)
  {
    && |outs| == |arrivals|
    && RunsMeetTheirHeaders(fields, cached, arrivals)
    && forall i :: 0 <= i < |arrivals| ==> IsDirect(ContextAt(fields, cached, arrivals[i]), arrivals[i], outs[i])
  }

  ghost predicate IsDirect(ctx: Context, arrival: Arrival, out: Outcome)
    requires ctx.WellFormed() && ctx.InMemory(arrival.mem) && ctx.RunsAll(arrival.run)
  {
    var (mem, seen) := DirectRun(ctx, arrival.mem, arrival.run);
    out.Packet? && out.mem == mem && out.seen == seen
  }

  ghost predicate CoherentOn(fields: seq<FieldDesc>, cached: set<nat>, program: seq<Step>, arrivals: seq<Arrival>)
    requires Fit(fields, cached, arrivals)
  {
    forall i :: 0 <= i < |arrivals| ==>
      var ctx := ContextAt(fields, cached, arrivals[i]);
      CoherentProgram(ctx, program) && RunOf(ctx, program, arrivals[i].run)
  }

  /** From a fresh descriptor a program that is coherent for the headers of every packet handles
      the whole sequence as direct execution does, if and only if runs and flags meet their headers. */
  lemma {:induction false} SequenceIsDirectIff(fields: seq<FieldDesc>, slots: map<nat, Word>, marked: set<nat>,
                                               program: seq<Step>, arrivals: seq<Arrival>)
    requires Fit(fields, slots.Keys, arrivals) && CoherentOn(fields, slots.Keys, program, arrivals)
    ensures AllDirect(fields, slots.Keys, arrivals, HandleAll(fields, slots, marked, arrivals)) <==>
      && RunsMeetTheirHeaders(fields, slots.Keys, arrivals)
      && (arrivals != [] ==> marked * slots.Keys <= arrivals[0].present)
      && FlagsMeetTheirHeaders(fields, slots.Keys, arrivals)
  {
    var outs := HandleAll(fields, slots, marked, arrivals);
    NoFaultIff(fields, slots, marked, arrivals);
    if NoFault(outs) {
      NoFaultIsDirect(fields, slots, marked, program, arrivals);
    }
    if AllDirect(fields, slots.Keys, arrivals, outs) {
      hide HandleAll, Fit;
      forall o | o in outs ensures o.Packet? {
        var i :| 0 <= i < |outs| && outs[i] == o;
      }
    }
  }

  lemma {:induction false} NoFaultIsDirect(fields: seq<FieldDesc>, slots: map<nat, Word>, marked: set<nat>,
                                           program: seq<Step>, arrivals: seq<Arrival>)
    requires Fit(fields, slots.Keys, arrivals) && CoherentOn(fields, slots.Keys, program, arrivals)
    requires NoFault(HandleAll(fields, slots, marked, arrivals))
    ensures AllDirect(fields, slots.Keys, arrivals, HandleAll(fields, slots, marked, arrivals))
    decreases |arrivals|
  {
    hide HandlePacket, CoherentProgram, RunOf, DirectRun;
    if arrivals == [] {
    } else {
      var ctx, g := ContextAt(fields, slots.Keys, arrivals[0]), State(arrivals[0].mem, slots, marked);
      CacheRefinesDirect(ctx, program, g, arrivals[0].run);
      PacketLeavesItsFlags(ctx, g, arrivals[0].run);
      SlotsStay(ctx, g, arrivals[0].run);
      var outs, out := HandleAll(fields, slots, marked, arrivals), HandlePacket(ctx, g, arrivals[0].run);
      assert outs[0] == out;
      assert out.Packet?;
      var rest := HandleAll(fields, out.cache, out.marked, arrivals[1..]);
      assert outs == [out] + rest;
      assert forall o :: o in rest ==> o in outs;
      NoFaultIsDirect(fields, out.cache, out.marked, program, arrivals[1..]);
      assert IsDirect(ctx, arrivals[0], out);
      hide IsDirect, HandleAll;
      forall i | 0 < i < |arrivals| ensures arrivals[i] == arrivals[1..][i - 1] && outs[i] == rest[i - 1] {
      }
    }
  }
}

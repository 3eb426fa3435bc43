/** The shortest leak of the cache: an overflowed slot read into a wider field. */
module CacheLeaks {
  import opened Words
  import opened FieldMacros
  import opened HeaderRecord
  import opened FieldCache

  lemma OneBitAbove(k: nat, w: nat)
    requires k < w <= 32
    ensures Low(Ones(k, k + 1), k) == ZERO && Low(Ones(k, k + 1), w) != ZERO
  {
    assert Low(Ones(k, k + 1), w)[k];
  }

  lemma ZeroSum(w: nat)
    ensures SumIn(ZERO, ZERO, w) == ZERO
  {
    hide Nat, Pow2, ToWord, ZERO;
    NatOfZero();
    ModUnique(0, Pow2(w), 0, 0);
  }

  /** What a handled packet is sent with. */
  lemma HandledReads(ctx: Context, g: State, run: seq<Step>, f: nat)
    requires ctx.WellFormed() && Slots(ctx, g) && g.marked * ctx.cached <= ctx.present
    requires ctx.RunsAll(run) && ctx.NamesAll(run) && ctx.ReachesAll(run) && f in ctx.present
    ensures var out, g1 := HandlePacket(ctx, g, run), GeneratedRun(ctx, Parse(ctx, g), run).0;
            && out.Packet? && ctx.InMemory(out.mem)
            && ctx.Read(out.mem, f)
               == if f in ctx.cached && f in g1.marked then Low(g1.cache[f], ctx.Width(f)) else ctx.Read(g1.mem, f)
  {
    FaultsIff(ctx, g, run);
    hide Parse, GeneratedRun, Flush, Low, Context.Read, Context.RunsAll, Context.NamesAll, Context.ReachesAll;
    ReadAfterFlush(ctx, GeneratedRun(ctx, Parse(ctx, g), run).0, f);
  }

  /** A program outside the condition, on every packet: overflow a narrow field by one, clear a
      wider one and add the first to the second. The packet should end with zero in the wider
      field; the generated code leaves 2^width of the narrow one. */
  lemma NarrowSourceLeaks(ctx: Context, g: State, src: nat, dst: nat)
    requires ctx.WellFormed() && Slots(ctx, g) && src in ctx.present && dst in ctx.present
    requires src in ctx.cached && ctx.Width(src) < ctx.Width(dst) && g.marked * ctx.cached <= ctx.present
    ensures var run := [ModifyConst(src, Ones(ctx.Width(src), ctx.Width(src) + 1)), ModifyConst(dst, ZERO),
                        AddFrom(dst, src)];
            && ctx.RunsAll(run)
            && ctx.Read(DirectRun(ctx, g.mem, run).0, dst) == ZERO &&
            var out := HandlePacket(ctx, g, run);
            && out.Packet? && ctx.InMemory(out.mem)
            && ctx.Read(out.mem, dst) == Low(Ones(ctx.Width(src), ctx.Width(src) + 1), ctx.Width(dst)) != ZERO
  {
    var v := Ones(ctx.Width(src), ctx.Width(src) + 1);
    var run := [ModifyConst(src, v), ModifyConst(dst, ZERO), AddFrom(dst, src)];
    OneBitAbove(ctx.Width(src), ctx.Width(dst));
    hide Parse, DirectRun, GeneratedRun, Flush, Nat, Pow2, Low, ZERO, Ones, Context.Read, Context.Write,
         HandlePacket;
    LeakDirect(ctx, g.mem, src, dst, v, run);
    LeakGenerated(ctx, Parse(ctx, g), src, dst, v, run);
    HandledReads(ctx, g, run, dst);
  }

  lemma DirectRunOfThree(ctx: Context, mem: Memory, a: Step, b: Step, c: Step)
    requires ctx.WellFormed() && ctx.InMemory(mem) && ctx.Runs(a) && ctx.Runs(b) && ctx.Runs(c)
    ensures ctx.RunsAll([a, b, c])
    ensures DirectRun(ctx, mem, [a, b, c]).0
            == DirectStep(ctx, DirectStep(ctx, DirectStep(ctx, mem, a).0, b).0, c).0
  {
    hide DirectStep;
    var mem1 := DirectStep(ctx, mem, a).0;
    var mem2 := DirectStep(ctx, mem1, b).0;
    assert [a, b, c][1..] == [b, c] && [b, c][1..] == [c] && [c][1..] == [];
    assert DirectRun(ctx, mem2, [c]).0 == DirectStep(ctx, mem2, c).0;
    assert DirectRun(ctx, mem1, [b, c]).0 == DirectRun(ctx, mem2, [c]).0;
  }

  lemma LeakDirect(ctx: Context, mem: Memory, src: nat, dst: nat, v: Word, run: seq<Step>)
    requires ctx.WellFormed() && ctx.InMemory(mem) && src in ctx.present && dst in ctx.present && src != dst
    requires Low(v, ctx.Width(src)) == ZERO && ctx.Width(src) <= 32
    requires run == [ModifyConst(src, v), ModifyConst(dst, ZERO), AddFrom(dst, src)]
    ensures ctx.RunsAll(run) && ctx.Read(DirectRun(ctx, mem, run).0, dst) == ZERO
  {
    hide NetBit, ReadField, WriteField, Pow2, Nat, Low, ZERO, ToWord;
    NatOfZero();
    NatOfLow(v, ctx.Width(src));
    ModUnique(0, Pow2(ctx.Width(dst)), 0, 0);
    ZeroSum(ctx.Width(dst));
    var mem1 := ctx.Write(mem, src, ZERO);
    var mem2 := ctx.Write(mem1, dst, ZERO);
    ReadOfWrite(ctx, mem, src, ZERO, src);
    ReadOfWrite(ctx, mem1, dst, ZERO, src);
    ReadOfWrite(ctx, mem1, dst, ZERO, dst);
    ReadOfWrite(ctx, mem2, dst, ZERO, dst);
    LowOfZero(ctx.Width(src));
    LowOfZero(ctx.Width(dst));
    assert DirectStep(ctx, mem, run[0]).0 == mem1;
    assert DirectStep(ctx, mem1, run[1]).0 == mem2;
    assert DirectStep(ctx, mem2, run[2]).0 == ctx.Write(mem2, dst, ZERO);
    DirectRunOfThree(ctx, mem, run[0], run[1], run[2]);
  }

  lemma GeneratedRunOfThree(ctx: Context, g: State, a: Step, b: Step, c: Step)
    requires ctx.WellFormed() && Slots(ctx, g) && ctx.NamesAll([a, b, c]) && ctx.ReachesAll([a, b, c])
    requires ctx.Names(a) && ctx.Reaches(a) && ctx.Names(b) && ctx.Reaches(b) && ctx.Names(c) && ctx.Reaches(c)
    ensures GeneratedRun(ctx, g, [a, b, c]).0
            == GeneratedStep(ctx, GeneratedStep(ctx, GeneratedStep(ctx, g, a).0, b).0, c).0
  {
    hide GeneratedStep, Context.Names, Context.Reaches;
    var g1 := GeneratedStep(ctx, g, a).0;
    var g2 := GeneratedStep(ctx, g1, b).0;
    assert [a, b, c][1..] == [b, c] && [b, c][1..] == [c] && [c][1..] == [];
    assert GeneratedRun(ctx, g2, [c]).0 == GeneratedStep(ctx, g2, c).0;
    assert GeneratedRun(ctx, g1, [b, c]).0 == GeneratedRun(ctx, g2, [c]).0;
  }

  lemma LeakGenerated(ctx: Context, g: State, src: nat, dst: nat, v: Word, run: seq<Step>)
    requires ctx.WellFormed() && Slots(ctx, g) && src in ctx.present && dst in ctx.present && src != dst
    requires src in ctx.cached
    requires run == [ModifyConst(src, v), ModifyConst(dst, ZERO), AddFrom(dst, src)]
    ensures ctx.RunsAll(run) && ctx.NamesAll(run) && ctx.ReachesAll(run)
    ensures var g' := GeneratedRun(ctx, g, run).0;
            if dst in ctx.cached then g'.cache[dst] == v && dst in g'.marked
            else ctx.Read(g'.mem, dst) == Low(v, ctx.Width(dst))
  {
    hide NetBit, ReadField, WriteField, Pow2, Nat, Low, ZERO, ToWord;
    RunsAreReached(ctx, run);
    NatOfZero();
    WordOfNat(v);
    var g1 := Assign(ctx, g, src, v);
    var g2 := Assign(ctx, g1, dst, ZERO);
    LowOfZero(ctx.Width(dst));
    if dst !in ctx.cached {
      ReadOfWrite(ctx, g1.mem, dst, ZERO, dst);
      ReadOfWrite(ctx, g2.mem, dst, v, dst);
    }
    assert AddWords(v, ZERO) == v;
    assert GeneratedStep(ctx, g, run[0]).0 == g1;
    assert GeneratedStep(ctx, g1, run[1]).0 == g2;
    GeneratedRunOfThree(ctx, g, run[0], run[1], run[2]);
  }
}

/** The condition of CacheCoherence is exact: a program outside it has a run on a fresh packet that
    the cache gets wrong. Every witness is one step, or one step repeated until a slot bit has
    moved, followed by the step that the cache disturbs. */
module CacheExactness {
  import Basics
  import opened Words
  import opened FieldMacros
  import opened HeaderRecord
  import opened FieldCache
  import opened CacheCoherence

  // ----- bits of words and of sums -----

  /** Bit k in terms of the value. */
  lemma BitOfNat(x: Word, k: nat)
    requires k < 32
    ensures x[k] <==> Nat(x) % Pow2(k + 1) >= Pow2(k)
    ensures x[k] ==> Nat(x) % Pow2(k + 1) == Pow2(k) + Nat(x) % Pow2(k)
    ensures !x[k] ==> Nat(x) % Pow2(k + 1) == Nat(x) % Pow2(k)
  {
    NatOfPrefix(x, k + 1);
    NatOfPrefix(x, k);
    assert x[..k + 1] == x[..k] + [x[k]];
    NatOfLast(x[..k], x[k]);
  }

  lemma {:induction false} NatOfLast(s: seq<bool>, b: bool)
    ensures Nat(s + [b]) == Nat(s) + if b then Pow2(|s|) else 0
  {
    if s == [] {
      assert [b][1..] == [];
    } else {
      NatOfLast(s[1..], b);
      assert (s + [b])[1..] == s[1..] + [b];
    }
  }

  /** The word with one bit. */
  lemma NatOfOneBit(j: nat)
    requires j < 32
    ensures Nat(Ones(j, j + 1)) == Pow2(j)
  {
    var x := Ones(j, j + 1);
    var pad := seq(32 - (j + 1), _ => false);
    assert x == (x[..j] + [true]) + pad;
    NatOfPadded(x[..j] + [true], pad);
    NatOfLast(x[..j], true);
    NatOfZeros(x[..j]);
  }

  /** Adding half the modulus. */
  lemma AddHalf(c: nat, p: nat)
    requires p >= 1
    ensures (c + p) % (2 * p) == if c % (2 * p) >= p then c % (2 * p) - p else c % (2 * p) + p
  {
    var q, r := c / (2 * p), c % (2 * p);
    assert c == q * (2 * p) + r;
    if r >= p {
      assert c + p == (q + 1) * (2 * p) + (r - p);
      ModUnique(c + p, 2 * p, q + 1, r - p);
    } else {
      ModUnique(c + p, 2 * p, q, r + p);
    }
  }

  /** Adding 2^j flips bit j. */
  lemma FlipByAdding(c: Word, j: nat)
    requires j < 32
    ensures AddWords(c, Ones(j, j + 1))[j] != c[j]
  {
    var v := AddWords(c, Ones(j, j + 1));
    hide Nat, Pow2, AddWords, Ones;
    NatOfOneBit(j);
    NatOfSum(c, Ones(j, j + 1), j + 1);
    PowerDoubles(j);
    AddHalf(Nat(c), Pow2(j));
    BitOfNat(c, j);
    BitOfNat(v, j);
  }

  lemma PowerDoubles(j: nat)
    ensures Pow2(j + 1) == 2 * Pow2(j)
  {
  }

  lemma AddZero(x: Word)
    ensures AddWords(x, ZERO) == x && AddWords(ZERO, x) == x
  {
    hide Nat, ToWord, ZERO;
    NatOfZero();
    WordOfNat(x);
  }

  lemma CancelTerm(x: nat, a: nat, b: nat, m: nat)
    requires m >= 1 && (x + b) % m == (a + b) % m
    ensures x % m == a % m
  {
    var q := (x + b) / m - (a + b) / m;
    assert x - a == q * m;
    ModUnique(x, m, q + a / m, a % m);
  }

  lemma CancelResidue(x: Word, a: Word, b: Word, m: nat)
    requires m >= 1 && (Nat(x) + Nat(b)) % m == (Nat(a) + Nat(b)) % m
    ensures Nat(x) % m == Nat(a) % m
  {
    hide Nat, Pow2;
    CancelTerm(Nat(x), Nat(a), Nat(b), m);
  }

  /** Equal sums modulo 2^w have equal terms modulo 2^w. */
  lemma CancelSum(x: Word, a: Word, b: Word, w: nat)
    requires w <= 32 && Low(AddWords(x, b), w) == Low(SumIn(a, b, w), w)
    ensures Low(x, w) == Low(a, w)
  {
    hide Nat, Pow2, Low, AddWords, SumIn;
    SumResidues(a, b, a, b, w);
    SameResidueSameBits(AddWords(x, b), AddWords(a, b), w);
    NatOfSum(x, b, w);
    NatOfSum(a, b, w);
    CancelResidue(x, a, b, Pow2(w));
    SameResidueSameBits(x, a, w);
  }

  // ----- a fresh packet -----

  /** All fields zero but f. */
  function Base(ctx: Context, f: nat, v: Word): (mem: Memory)
    requires ctx.WellFormed() && f in ctx.present
    ensures ctx.InMemory(mem)
  {
    ctx.Write(ZeroBytes(ctx.size), f, v)
  }

  lemma BaseReads(ctx: Context, f: nat, v: Word, h: nat)
    requires ctx.WellFormed() && f in ctx.present && h in ctx.present
    ensures ctx.Read(Base(ctx, f, v), h) == if h == f then Low(v, ctx.Width(f)) else ZERO
  {
    hide ReadField, WriteField;
    var zeros := ZeroBytes(ctx.size);
    ReadOfWrite(ctx, zeros, f, v, h);
    var x := ctx.Read(zeros, h);
    forall k | 0 <= k < 32 ensures x[k] == ZERO[k] {
      ReadFieldAt(AutoEncoding(ctx.fields[h]), zeros, ctx.fields[h], k);
    }
    assert x == ZERO;
  }

  /** A descriptor that carries nothing over. */
  function Fresh(ctx: Context, mem: Memory): (g: State)
    requires ctx.WellFormed() && ctx.InMemory(mem)
    ensures Slots(ctx, g)
  {
    State(mem, map f | f in ctx.cached :: ZERO, {})
  }

  /** The state with which its actions start. */
  function Loaded(ctx: Context, mem: Memory): (g: State)
    requires ctx.WellFormed() && ctx.InMemory(mem)
    ensures Slots(ctx, g) && g.mem == mem && g.marked == {}
    ensures forall f :: f in ctx.cached && f in ctx.present ==> g.cache[f] == ctx.Read(mem, f)
  {
    Parse(ctx, Fresh(ctx, mem))
  }

  /** The actions of a packet in a descriptor that carries nothing over. */
  function RunLoaded(ctx: Context, mem: Memory, run: seq<Step>): (r: (State, seq<Word>))
    requires ctx.WellFormed() && ctx.InMemory(mem) && ctx.RunsAll(run)
    ensures Slots(ctx, r.0)
  {
    RunsAreReached(ctx, run);
    GeneratedRun(ctx, Loaded(ctx, mem), run)
  }

  /** What field f holds once the slots are written back. */
  function Sent(ctx: Context, g: State, f: nat): Word
    requires ctx.WellFormed() && Slots(ctx, g) && f in ctx.present
  {
    if f in ctx.cached && f in g.marked then Low(g.cache[f], ctx.Width(f)) else ctx.Read(g.mem, f)
  }

  /** A run on a fresh packet that sends or sees something else than the direct run. */
  ghost predicate Wrong(ctx: Context, mem: Memory, run: seq<Step>)
    requires ctx.WellFormed() && ctx.InMemory(mem) && ctx.RunsAll(run)
  {
    var (g', seen) := RunLoaded(ctx, mem, run);
    var (mem', seen') := DirectRun(ctx, mem, run);
    seen != seen' || exists f :: f in ctx.present && Sent(ctx, g', f) != ctx.Read(mem', f)
  }

  lemma WrongBreaks(ctx: Context, mem: Memory, run: seq<Step>)
    requires ctx.WellFormed() && ctx.InMemory(mem) && ctx.NamesAll(run) && ctx.RunsAll(run) && Wrong(ctx, mem, run)
    ensures !Refines(ctx, Fresh(ctx, mem), run)
  {
    hide Flush, GeneratedRun, DirectRun, Context.Read, Low;
    var (g', seen) := GeneratedRun(ctx, Loaded(ctx, mem), run);
    var (mem', seen') := DirectRun(ctx, mem, run);
    FaultsIff(ctx, Fresh(ctx, mem), run);
    if seen == seen' {
      var f :| f in ctx.present && Sent(ctx, g', f) != ctx.Read(mem', f);
      ReadAfterFlush(ctx, g', f);
    }
  }

  // ----- runs that end in one more step -----

  lemma {:induction false} GeneratedSnoc(ctx: Context, g: State, run: seq<Step>, x: Step)
    requires ctx.WellFormed() && Slots(ctx, g) && ctx.RunsAll(run) && ctx.Runs(x)
    ensures ctx.RunsAll(run + [x])
    ensures GeneratedRun(ctx, g, run + [x]).0 == GeneratedStep(ctx, GeneratedRun(ctx, g, run).0, x).0
    ensures GeneratedRun(ctx, g, run + [x]).1
            == GeneratedRun(ctx, g, run).1 + GeneratedStep(ctx, GeneratedRun(ctx, g, run).0, x).1
    decreases |run|
  {
    hide GeneratedStep;
    if run == [] {
      assert [] + [x] == [x] && [x][1..] == [];
    } else {
      GeneratedSnoc(ctx, GeneratedStep(ctx, g, run[0]).0, run[1..], x);
      assert (run + [x])[1..] == run[1..] + [x];
    }
  }

  lemma {:induction false} DirectSnoc(ctx: Context, mem: Memory, run: seq<Step>, x: Step)
    requires ctx.WellFormed() && ctx.InMemory(mem) && ctx.RunsAll(run) && ctx.Runs(x)
    ensures ctx.RunsAll(run + [x])
    ensures DirectRun(ctx, mem, run + [x]).0 == DirectStep(ctx, DirectRun(ctx, mem, run).0, x).0
    ensures DirectRun(ctx, mem, run + [x]).1
            == DirectRun(ctx, mem, run).1 + DirectStep(ctx, DirectRun(ctx, mem, run).0, x).1
    decreases |run|
  {
    hide DirectStep;
    if run == [] {
      assert [] + [x] == [x] && [x][1..] == [];
    } else {
      DirectSnoc(ctx, DirectStep(ctx, mem, run[0]).0, run[1..], x);
      assert (run + [x])[1..] == run[1..] + [x];
    }
  }

  // ----- a step that assigns a slot, over and over -----

  /** The step assigns the slot of f. */
  predicate Assigns(ctx: Context, t: Step, f: nat)
    requires ctx.WellFormed() && ctx.Runs(t)
  {
    f in Touches(ctx, t) && t.dst == f
  }

  /** The word it assigns, when the slot holds x and the packet is `mem`. */
  function NextSlot(ctx: Context, mem: Memory, t: Step, f: nat, x: Word): Word
    requires ctx.WellFormed() && ctx.InMemory(mem) && ctx.Runs(t) && Assigns(ctx, t, f)
  {
    match t
    case ModifyConst(_, c) => c
    case ModifyFrom(_, src, mask) => And(ctx.Read(mem, src), MaskBits(mask))
    case AddConst(_, c) => AddWords(c, x)
    case AddFrom(_, src) => AddWords(if src == f then x else ctx.Read(mem, src), x)
    case _ => x
  }

  /** Only the slot of f has changed, and the packet agrees with it. */
  ghost predicate Tracks(ctx: Context, mem: Memory, f: nat, g: State, mem': Memory)
    requires ctx.WellFormed() && ctx.InMemory(mem) && f in ctx.present && f in ctx.cached
  {
    && Slots(ctx, g) && ctx.InMemory(mem') && g.mem == mem
    && ctx.Read(mem', f) == Low(g.cache[f], ctx.Width(f))
    && (forall h :: h in ctx.present && h != f ==> ctx.Read(mem', h) == ctx.Read(mem, h))
    && (forall h :: h in ctx.present && h in ctx.cached && h != f ==> g.cache[h] == ctx.Read(mem, h))
  }

  /** The word that the direct step writes. */
  function DirectValue(ctx: Context, mem: Memory, t: Step, f: nat): Word
    requires ctx.WellFormed() && ctx.InMemory(mem) && ctx.Runs(t) && Assigns(ctx, t, f)
  {
    match t
    case ModifyConst(_, c) => Reduced(c, ctx.Width(f))
    case ModifyFrom(_, src, mask) => And(ctx.Read(mem, src), MaskBits(mask))
    case AddConst(_, c) => SumIn(ctx.Read(mem, f), c, ctx.Width(f))
    case AddFrom(_, src) => SumIn(ctx.Read(mem, src), ctx.Read(mem, f), ctx.Width(f))
    case _ => ZERO
  }

  lemma DirectValueAgrees(ctx: Context, mem: Memory, f: nat, g: State, mem': Memory, t: Step)
    requires ctx.WellFormed() && ctx.InMemory(mem) && f in ctx.present && f in ctx.cached
      && Tracks(ctx, mem, f, g, mem')
    requires ctx.Runs(t) && Assigns(ctx, t, f)
    ensures Low(DirectValue(ctx, mem', t, f), ctx.Width(f))
            == Low(NextSlot(ctx, mem, t, f, g.cache[f]), ctx.Width(f))
  {
    var w, x, a := ctx.Width(f), g.cache[f], ctx.Read(mem', f);
    LowTwice(x, w);
    hide Context.Read, AddWords, SumIn, Reduced, Low;
    match t
    case ModifyConst(_, c) => LowOfReduced(c, w);
    case AddConst(_, c) => SumResidues(c, x, c, a, w);
    case AddFrom(_, src) =>
      var b := ctx.Read(mem', src);
      SumResidues(if src == f then x else ctx.Read(mem, src), x, b, a, w);
    case _ =>
  }

  lemma GeneratedAssign(ctx: Context, mem: Memory, f: nat, g: State, mem': Memory, t: Step)
    requires ctx.WellFormed() && ctx.InMemory(mem) && f in ctx.present && f in ctx.cached
      && Tracks(ctx, mem, f, g, mem')
    requires ctx.Runs(t) && Assigns(ctx, t, f)
    ensures var (g1, seen) := GeneratedStep(ctx, g, t);
            && g1.mem == mem && g1.cache == g.cache[f := NextSlot(ctx, mem, t, f, g.cache[f])]
            && g1.marked == g.marked + Touches(ctx, t) && seen == []
  {
    hide Context.Read, Context.Write, AddWords, Low;
  }

  lemma DirectAssign(ctx: Context, mem: Memory, f: nat, t: Step)
    requires ctx.WellFormed() && ctx.InMemory(mem) && f in ctx.present && f in ctx.cached
    requires ctx.Runs(t) && Assigns(ctx, t, f)
    ensures DirectStep(ctx, mem, t) == (ctx.Write(mem, f, DirectValue(ctx, mem, t, f)), [])
  {
    hide Context.Read, Context.Write, SumIn, Reduced;
  }

  lemma AssignTracks(ctx: Context, mem: Memory, f: nat, g: State, mem': Memory, t: Step)
    requires ctx.WellFormed() && ctx.InMemory(mem) && f in ctx.present && f in ctx.cached
      && Tracks(ctx, mem, f, g, mem')
    requires ctx.Runs(t) && Assigns(ctx, t, f)
    ensures var g1 := GeneratedStep(ctx, g, t).0;
            && Tracks(ctx, mem, f, g1, DirectStep(ctx, mem', t).0)
            && g1.cache[f] == NextSlot(ctx, mem, t, f, g.cache[f])
            && g1.marked == g.marked + Touches(ctx, t)
    ensures GeneratedStep(ctx, g, t).1 == [] && DirectStep(ctx, mem', t).1 == []
  {
    hide Context.Read, Context.Write, NextSlot, DirectValue, Low, GeneratedStep, DirectStep;
    GeneratedAssign(ctx, mem, f, g, mem', t);
    DirectAssign(ctx, mem', f, t);
    DirectValueAgrees(ctx, mem, f, g, mem', t);
    hide Touches;
    var v := DirectValue(ctx, mem', t, f);
    forall h | h in ctx.present
      ensures ctx.Read(ctx.Write(mem', f, v), h) == if h == f then Low(v, ctx.Width(f)) else ctx.Read(mem', h)
    {
      ReadOfWrite(ctx, mem', f, v, h);
    }
  }

  function Repeat(t: Step, n: nat): (run: seq<Step>)
    ensures |run| == n && forall i :: 0 <= i < n ==> run[i] == t
  {
    if n == 0 then [] else Repeat(t, n - 1) + [t]
  }

  /** The slot of f after n executions on a fresh packet. */
  function SlotAfter(ctx: Context, mem: Memory, t: Step, f: nat, n: nat): Word
    requires ctx.WellFormed() && ctx.InMemory(mem) && ctx.Runs(t) && Assigns(ctx, t, f)
  {
    if n == 0 then ctx.Read(mem, f) else NextSlot(ctx, mem, t, f, SlotAfter(ctx, mem, t, f, n - 1))
  }

  /** The run has put the n-th word into the slot of f, and changed nothing else. */
  ghost predicate HasAssigned(ctx: Context, mem: Memory, t: Step, f: nat, n: nat, run: seq<Step>)
    requires ctx.WellFormed() && ctx.InMemory(mem) && ctx.Runs(t) && Assigns(ctx, t, f) && ctx.RunsAll(run)
  {
    var (g, seen) := RunLoaded(ctx, mem, run);
    var (mem', seen') := DirectRun(ctx, mem, run);
    && Tracks(ctx, mem, f, g, mem')
    && g.cache[f] == SlotAfter(ctx, mem, t, f, n)
    && g.marked == (if n == 0 then {} else Touches(ctx, t))
    && seen == seen' == []
  }

  lemma NothingAssigned(ctx: Context, mem: Memory, t: Step, f: nat)
    requires ctx.WellFormed() && ctx.InMemory(mem) && ctx.Runs(t) && Assigns(ctx, t, f)
    ensures HasAssigned(ctx, mem, t, f, 0, [])
  {
    ReadBound(ctx, mem, f);
  }

  lemma AssignedOnceMore(ctx: Context, mem: Memory, t: Step, f: nat, n: nat, run: seq<Step>)
    requires ctx.WellFormed() && ctx.InMemory(mem) && ctx.Runs(t) && Assigns(ctx, t, f) && ctx.RunsAll(run)
    requires HasAssigned(ctx, mem, t, f, n, run)
    ensures ctx.RunsAll(run + [t]) && HasAssigned(ctx, mem, t, f, n + 1, run + [t])
  {
    assert f in ctx.present && f in ctx.cached;
    RunsAreReached(ctx, run);
    hide GeneratedRun, DirectRun, GeneratedStep, DirectStep, Tracks, Loaded, Touches, NextSlot, Context.Read,
         Context.RunsAll, Context.NamesAll, Context.ReachesAll;
    var g0 := Loaded(ctx, mem);
    var g, mem' := GeneratedRun(ctx, g0, run).0, DirectRun(ctx, mem, run).0;
    GeneratedSnoc(ctx, g0, run, t);
    DirectSnoc(ctx, mem, run, t);
    RunsAreReached(ctx, run + [t]);
    AssignTracks(ctx, mem, f, g, mem', t);
    assert SlotAfter(ctx, mem, t, f, n + 1) == NextSlot(ctx, mem, t, f, SlotAfter(ctx, mem, t, f, n));
    hide SlotAfter;
  }

  lemma {:induction false} RepeatAssigns(ctx: Context, mem: Memory, t: Step, f: nat, n: nat)
    requires ctx.WellFormed() && ctx.InMemory(mem) && ctx.Runs(t) && Assigns(ctx, t, f)
    ensures ctx.RunsAll(Repeat(t, n)) && HasAssigned(ctx, mem, t, f, n, Repeat(t, n))
  {
    hide HasAssigned, Touches;
    if n == 0 {
      NothingAssigned(ctx, mem, t, f);
    } else {
      RepeatAssigns(ctx, mem, t, f, n - 1);
      AssignedOnceMore(ctx, mem, t, f, n - 1, Repeat(t, n - 1));
    }
  }

  // ----- moving a bit of a slot -----

  /** The smallest multiple of a from p on stays below 2p. */
  lemma FirstMultiple(a: nat, p: nat) returns (n: nat)
    requires 1 <= a < 2 * p
    ensures n >= 1 && p <= n * a < 2 * p
  {
    if a > p {
      n := 1;
    } else {
      n := (p + a - 1) / a;
      var r := (p + a - 1) % a;
      assert n * a + r == p + a - 1;
    }
  }

  /** The step adds the same word each time. */
  predicate Adds(ctx: Context, mem: Memory, t: Step, f: nat, c: Word)
    requires ctx.WellFormed() && ctx.InMemory(mem) && ctx.Runs(t)
  {
    (t.AddConst? && t.c == c) || (t.AddFrom? && t.src != f && ctx.Read(mem, t.src) == c)
  }

  lemma {:induction false} SlotOfSums(ctx: Context, mem: Memory, t: Step, f: nat, c: Word, n: nat, k: nat)
    requires ctx.WellFormed() && ctx.InMemory(mem) && ctx.Runs(t) && Assigns(ctx, t, f)
    requires Adds(ctx, mem, t, f, c) && ctx.Read(mem, f) == ZERO && k < 32
    ensures Nat(SlotAfter(ctx, mem, t, f, n)) % Pow2(k + 1) == n * (Nat(c) % Pow2(k + 1)) % Pow2(k + 1)
  {
    hide Pow2, Nat, Touches, Context.Read, AddWords, ZERO;
    var q := Pow2(k + 1);
    var a := Nat(c) % q;
    if n == 0 {
      NatOfZero();
      assert n * a == 0;
    } else {
      SlotOfSums(ctx, mem, t, f, c, n - 1, k);
      var x := SlotAfter(ctx, mem, t, f, n - 1);
      NatOfSum(c, x, k + 1);
      OneMore(Nat(c), Nat(x), n, q);
    }
  }

  lemma OneMore(c: nat, x: nat, n: nat, q: nat)
    requires q >= 1 && n >= 1 && x % q == (n - 1) * (c % q) % q
    ensures (c + x) % q == n * (c % q) % q
  {
    var a := c % q;
    ResidueOfSum(c, x, q);
    ResidueOfSum(a, (n - 1) * a, q);
    ModUnique(a, q, 0, a);
    assert n * a == a + (n - 1) * a;
  }

  /** Adding c to a zero slot often enough moves every bit from the lowest bit of c on. */
  lemma SumsMove(ctx: Context, mem: Memory, t: Step, f: nat, c: Word, k: nat) returns (n: nat)
    requires ctx.WellFormed() && ctx.InMemory(mem) && ctx.Runs(t) && Assigns(ctx, t, f)
    requires Adds(ctx, mem, t, f, c) && ctx.Read(mem, f) == ZERO && k < 32 && Nat(c) % Pow2(k + 1) != 0
    ensures n >= 1 && SlotAfter(ctx, mem, t, f, n)[k] && !ctx.Read(mem, f)[k]
  {
    hide Nat, Context.Read, SlotAfter, Adds, Assigns;
    PowerDoubles(k);
    hide Pow2;
    n := FirstMultiple(Nat(c) % Pow2(k + 1), Pow2(k));
    SlotOfSums(ctx, mem, t, f, c, n, k);
    SmallResidue(n * (Nat(c) % Pow2(k + 1)), Pow2(k + 1));
    BitOfNat(SlotAfter(ctx, mem, t, f, n), k);
  }

  lemma SmallResidue(n: nat, q: nat)
    requires n < q
    ensures n % q == n
  {
  }

  /** Doubling one moves its bit away from place 0 and up to any other place. */
  lemma {:induction false} SlotOfDoubles(ctx: Context, mem: Memory, f: nat, n: nat)
    requires ctx.WellFormed() && ctx.InMemory(mem) && f in ctx.present && f in ctx.cached && n < 32
    requires ctx.Read(mem, f) == Ones(0, 1)
    ensures Assigns(ctx, AddFrom(f, f), f) && SlotAfter(ctx, mem, AddFrom(f, f), f, n) == Ones(n, n + 1)
  {
    hide Context.Read, AddWords, Ones;
    if n > 0 {
      SlotOfDoubles(ctx, mem, f, n - 1);
      DoubleOneBit(n - 1);
    }
  }

  lemma DoubleOneBit(j: nat)
    requires j + 1 < 32
    ensures AddWords(Ones(j, j + 1), Ones(j, j + 1)) == Ones(j + 1, j + 2)
  {
    hide Nat, Ones;
    NatOfOneBit(j);
    NatOfOneBit(j + 1);
    PowerDoubles(j);
    hide Pow2, ToWord;
    WordOfNat(Ones(j + 1, j + 2));
  }

  lemma MovesAssigns(ctx: Context, t: Step, f: nat, k: nat)
    requires ctx.WellFormed() && ctx.Runs(t) && f in Touches(ctx, t) && k < 32 && Moves(ctx, t, f, k)
    ensures Assigns(ctx, t, f) && f in ctx.present && f in ctx.cached
  {
  }

  lemma LowOfOnes(w: nat, n: nat)
    requires 1 <= w <= 32 && n <= 32
    ensures Low(Ones(0, n), w) == Ones(0, if n <= w then n else w)
  {
  }

  /** A bit that a step can move does move, for some packet and number of executions. */
  lemma MovedBit(ctx: Context, t: Step, f: nat, k: nat) returns (mem: Memory, n: nat)
    requires ctx.WellFormed() && ctx.Runs(t) && f in Touches(ctx, t) && k < 32 && Moves(ctx, t, f, k)
    ensures Assigns(ctx, t, f) && ctx.InMemory(mem) && n >= 1 && f in ctx.present
    ensures SlotAfter(ctx, mem, t, f, n)[k] != ctx.Read(mem, f)[k]
  {
    MovesAssigns(ctx, t, f, k);
    match t
    case ModifyConst(_, c) => mem, n := Base(ctx, f, Not(c)), 1; ConstMoves(ctx, f, c, k);
    case ModifyFrom(_, src, mask) => mem := CrossMoves(ctx, f, src, mask, k); n := 1;
    case AddConst(_, c) =>
      mem := Base(ctx, f, ZERO);
      AdditionStart(ctx, f);
      n := SumsMove(ctx, mem, t, f, c, k);
    case AddFrom(_, src) =>
      if src == f {
        mem, n := DoublingMoves(ctx, f, k);
      } else {
        mem := Base(ctx, src, Ones(0, 1));
        n := AddingOneMoves(ctx, f, src, k);
      }
  }

  lemma ConstMoves(ctx: Context, f: nat, c: Word, k: nat)
    requires ctx.WellFormed() && f in ctx.present && f in ctx.cached && k < 32 && (k < ctx.Width(f) || c[k])
    ensures SlotAfter(ctx, Base(ctx, f, Not(c)), ModifyConst(f, c), f, 1)[k] != ctx.Read(Base(ctx, f, Not(c)), f)[k]
  {
    hide Context.Read, Base;
    BaseReads(ctx, f, Not(c), f);
    LowAt(Not(c), ctx.Width(f), k);
    var mem := Base(ctx, f, Not(c));
    assert SlotAfter(ctx, mem, ModifyConst(f, c), f, 1)
      == NextSlot(ctx, mem, ModifyConst(f, c), f, SlotAfter(ctx, mem, ModifyConst(f, c), f, 0));
  }

  lemma CrossMoves(ctx: Context, f: nat, src: nat, mask: Basics.Option<Word>, k: nat) returns (mem: Memory)
    requires var t := ModifyFrom(f, src, mask);
             && ctx.WellFormed() && ctx.Runs(t) && f in Touches(ctx, t) && k < 32 && Moves(ctx, t, f, k)
    ensures ctx.InMemory(mem) && Assigns(ctx, ModifyFrom(f, src, mask), f)
    ensures SlotAfter(ctx, mem, ModifyFrom(f, src, mask), f, 1)[k] != ctx.Read(mem, f)[k]
  {
    var h := if MaskBits(mask)[k] && k < ctx.Width(src) then src else f;
    mem := Base(ctx, h, Ones(0, 32));
    hide Context.Read, Base;
    BaseReads(ctx, h, Ones(0, 32), f);
    BaseReads(ctx, h, Ones(0, 32), src);
    LowAt(Ones(0, 32), ctx.Width(h), k);
    assert !ZERO[k];
    var t := ModifyFrom(f, src, mask);
    assert SlotAfter(ctx, mem, t, f, 1) == NextSlot(ctx, mem, t, f, SlotAfter(ctx, mem, t, f, 0));
  }

  lemma AdditionStart(ctx: Context, f: nat)
    requires ctx.WellFormed() && f in ctx.present
    ensures ctx.Read(Base(ctx, f, ZERO), f) == ZERO
  {
    hide Context.Read, Base, ZERO;
    BaseReads(ctx, f, ZERO, f);
    LowOfZero(ctx.Width(f));
  }

  lemma AddingOneMoves(ctx: Context, f: nat, src: nat, k: nat) returns (n: nat)
    requires ctx.WellFormed() && f in ctx.present && f in ctx.cached && src in ctx.present && src != f && k < 32
    ensures var mem := Base(ctx, src, Ones(0, 1));
            n >= 1 && SlotAfter(ctx, mem, AddFrom(f, src), f, n)[k] && !ctx.Read(mem, f)[k]
  {
    var mem := Base(ctx, src, Ones(0, 1));
    hide Context.Read, Base, Ones, Low, SlotAfter, Nat, Pow2, ZERO;
    BaseReads(ctx, src, Ones(0, 1), f);
    BaseReads(ctx, src, Ones(0, 1), src);
    LowOfOnes(ctx.Width(src), 1);
    assert Adds(ctx, mem, AddFrom(f, src), f, Ones(0, 1));
    OneIsOdd(k);
    n := SumsMove(ctx, mem, AddFrom(f, src), f, Ones(0, 1), k);
  }

  lemma OneIsOdd(k: nat)
    ensures Nat(Ones(0, 1)) % Pow2(k + 1) != 0
  {
    hide Nat, Ones;
    NatOfOneBit(0);
    PowerDoubles(k);
    hide Pow2;
    assert Pow2(0) == 1 by { PowerOfNone(); }
    SmallResidue(1, Pow2(k + 1));
  }

  lemma PowerOfNone()
    ensures Pow2(0) == 1
  {
  }

  lemma DoublingMoves(ctx: Context, f: nat, k: nat) returns (mem: Memory, n: nat)
    requires ctx.WellFormed() && f in ctx.present && f in ctx.cached && k < 32
    ensures ctx.InMemory(mem) && n >= 1 && Assigns(ctx, AddFrom(f, f), f)
    ensures SlotAfter(ctx, mem, AddFrom(f, f), f, n)[k] != ctx.Read(mem, f)[k]
  {
    mem, n := Base(ctx, f, Ones(0, 1)), if k == 0 then 1 else k;
    hide Context.Read, Base, Low, SlotAfter;
    BaseReads(ctx, f, Ones(0, 1), f);
    LowOfOnes(ctx.Width(f), 1);
    SlotOfDoubles(ctx, mem, f, n);
  }

  // ----- leaks of a moved bit -----

  /** After the run the slot of f differs in bit k from the loaded field, everything else is as
      loaded, and the packet agrees. */
  ghost predicate Moved(ctx: Context, mem: Memory, t: Step, f: nat, k: nat, run: seq<Step>)
    requires ctx.WellFormed() && ctx.InMemory(mem) && ctx.Runs(t) && f in Touches(ctx, t) && k < 32 && ctx.RunsAll(run)
  {
    var (g, seen) := RunLoaded(ctx, mem, run);
    var (mem', seen') := DirectRun(ctx, mem, run);
    && Tracks(ctx, mem, f, g, mem')
    && g.cache[f][k] != ctx.Read(mem, f)[k]
    && g.marked == Touches(ctx, t)
    && seen == seen' == []
  }

  lemma MovedRun(ctx: Context, t: Step, f: nat, k: nat) returns (mem: Memory, run: seq<Step>)
    requires ctx.WellFormed() && ctx.Runs(t) && f in Touches(ctx, t) && k < 32 && Moves(ctx, t, f, k)
    ensures ctx.InMemory(mem) && ctx.RunsAll(run) && (forall i :: 0 <= i < |run| ==> run[i] == t)
    ensures Moved(ctx, mem, t, f, k, run)
  {
    var n;
    mem, n := MovedBit(ctx, t, f, k);
    run := Repeat(t, n);
    hide GeneratedRun, DirectRun, Tracks, Loaded, Touches, SlotAfter, Context.Read;
    RepeatAssigns(ctx, mem, t, f, n);
  }

  /** A direct read does not see the slot. */
  lemma ObserveWrong(ctx: Context, mem: Memory, t: Step, src: nat, k: nat, run: seq<Step>)
    requires ctx.WellFormed() && ctx.InMemory(mem) && ctx.Runs(t) && src in Touches(ctx, t) && k < 32
      && ctx.RunsAll(run)
    requires k < ctx.Width(src) && Moved(ctx, mem, t, src, k, run) && ctx.Runs(Observe(src))
    ensures ctx.RunsAll(run + [Observe(src)]) && Wrong(ctx, mem, run + [Observe(src)])
  {
    hide GeneratedRun, DirectRun, Loaded, Context.Read, Low, Sent;
    assert src in ctx.cached;
    RunsAreReached(ctx, run);
    hide Touches, Context.RunsAll, Context.NamesAll, Context.ReachesAll;
    var x := Observe(src);
    var g, mem' := GeneratedRun(ctx, Loaded(ctx, mem), run).0, DirectRun(ctx, mem, run).0;
    GeneratedSnoc(ctx, Loaded(ctx, mem), run, x);
    DirectSnoc(ctx, mem, run, x);
    RunsAreReached(ctx, run + [x]);
    LowAt(g.cache[src], ctx.Width(src), k);
    assert DirectRun(ctx, mem, run + [x]).1 == [ctx.Read(mem', src)];
    assert GeneratedRun(ctx, Loaded(ctx, mem), run + [x]).1 == [ctx.Read(mem, src)];
  }

  /** Nor does a digest of bytes that the field lies in. */
  lemma DigestWrong(ctx: Context, mem: Memory, t: Step, src: nat, f: nat, k: nat, run: seq<Step>)
    requires ctx.WellFormed() && ctx.InMemory(mem) && ctx.Runs(t) && f in Touches(ctx, t) && k < 32
      && ctx.RunsAll(run) && f in ctx.present
    requires ctx.Runs(Digest(src)) && InDigest(ctx, src, f, k) && Moved(ctx, mem, t, f, k, run)
    ensures ctx.RunsAll(run + [Digest(src)]) && Wrong(ctx, mem, run + [Digest(src)])
  {
    hide GeneratedRun, DirectRun, Loaded, Context.Read, Low, Sent, DigestBytes, InDigest;
    assert f in ctx.cached;
    RunsAreReached(ctx, run);
    hide Touches, Context.RunsAll, Context.NamesAll, Context.ReachesAll;
    var x := Digest(src);
    var g, mem' := GeneratedRun(ctx, Loaded(ctx, mem), run).0, DirectRun(ctx, mem, run).0;
    GeneratedSnoc(ctx, Loaded(ctx, mem), run, x);
    DirectSnoc(ctx, mem, run, x);
    RunsAreReached(ctx, run + [x]);
    LowAt(g.cache[f], ctx.Width(f), k);
    assert k < ctx.Width(f) by { InDigestWidth(ctx, src, f, k); }
    DigestShows(ctx, mem, mem', src, f, k);
    assert DirectRun(ctx, mem, run + [x]).1 == [DigestBytes(ctx, mem', src)];
    assert GeneratedRun(ctx, Loaded(ctx, mem), run + [x]).1 == [DigestBytes(ctx, mem, src)];
  }

  lemma InDigestWidth(ctx: Context, src: nat, f: nat, k: nat)
    requires ctx.WellFormed() && src in ctx.present && f in ctx.present && InDigest(ctx, src, f, k)
    ensures k < ctx.Width(f)
  {
  }

  lemma DigestShows(ctx: Context, mem: Memory, mem': Memory, src: nat, f: nat, k: nat)
    requires ctx.WellFormed() && ctx.InMemory(mem) && ctx.InMemory(mem') && src in ctx.present && f in ctx.present
    requires k < 32 && InDigest(ctx, src, f, k) && ctx.Read(mem, f)[k] != ctx.Read(mem', f)[k]
    ensures DigestBytes(ctx, mem, src) != DigestBytes(ctx, mem', src)
  {
    hide ReadField, NetBit, PositionOf, Load;
    var d, e := ctx.fields[src], ctx.fields[f];
    ReadFieldAt(AutoEncoding(e), mem, e, k);
    ReadFieldAt(AutoEncoding(e), mem', e, k);
    var p := PositionOf(AutoEncoding(e), e, k);
    LoadAt(mem, d.byteAddr, DigestLength(d), p - 8 * d.byteAddr);
    LoadAt(mem', d.byteAddr, DigestLength(d), p - 8 * d.byteAddr);
  }

  /** A copy of packet memory does not see the slot of its source. */
  lemma CopyMissesSlot(ctx: Context, mem: Memory, t: Step, dst: nat, src: nat, mask: Basics.Option<Word>, k: nat,
          run: seq<Step>)
    requires ctx.WellFormed() && ctx.InMemory(mem) && ctx.Runs(t) && ctx.RunsAll(run)
    requires dst in ctx.present && src in ctx.present && ctx.SameClass(dst, src) && Transfers(ctx, dst, src, mask, k)
    requires src in Touches(ctx, t) && dst !in Touches(ctx, t)
    requires var j := HostBit(ctx, src, SourcePlace(ctx, dst, mask, k)); j < 32 && Moved(ctx, mem, t, src, j, run)
    ensures ctx.RunsAll(run + [ModifyFrom(dst, src, mask)]) && Wrong(ctx, mem, run + [ModifyFrom(dst, src, mask)])
  {
    hide GeneratedRun, DirectRun, Loaded, Context.Read, Low, CopyBits, HostBit;
    assert src in ctx.cached;
    var j := HostBit(ctx, src, SourcePlace(ctx, dst, mask, k));
    RunsAreReached(ctx, run);
    hide Touches, SourcePlace, Context.RunsAll, Context.NamesAll, Context.ReachesAll;
    var x := ModifyFrom(dst, src, mask);
    var g, mem' := GeneratedRun(ctx, Loaded(ctx, mem), run).0, DirectRun(ctx, mem, run).0;
    GeneratedSnoc(ctx, Loaded(ctx, mem), run, x);
    DirectSnoc(ctx, mem, run, x);
    RunsAreReached(ctx, run + [x]);
    LowAt(g.cache[src], ctx.Width(src), j);
    CopyBitAt(ctx, mem, dst, src, mask, k);
    CopyBitAt(ctx, mem', dst, src, mask, k);
    assert Sent(ctx, GeneratedRun(ctx, Loaded(ctx, mem), run + [x]).0, dst)
      == ctx.Read(CopyBits(ctx, mem, dst, src, mask), dst);
  }

  /** Metadata receives a bit above the field. */
  lemma CrossLeaks(ctx: Context, mem: Memory, t: Step, dst: nat, src: nat, mask: Basics.Option<Word>, k: nat,
          run: seq<Step>)
    requires ctx.WellFormed() && ctx.InMemory(mem) && ctx.Runs(t) && ctx.RunsAll(run)
    requires dst in ctx.present && src in ctx.present && !ctx.SameClass(dst, src) && src in Touches(ctx, t)
    requires k < 32 && ctx.Width(src) <= k < ctx.Width(dst) && MaskBits(mask)[k] && Moved(ctx, mem, t, src, k, run)
    ensures ctx.RunsAll(run + [ModifyFrom(dst, src, mask)]) && Wrong(ctx, mem, run + [ModifyFrom(dst, src, mask)])
  {
    hide GeneratedRun, DirectRun, Loaded, Context.Read, Context.Write, Low;
    assert src in ctx.cached && dst !in ctx.cached;
    RunsAreReached(ctx, run);
    hide Touches, Context.RunsAll, Context.NamesAll, Context.ReachesAll;
    var x := ModifyFrom(dst, src, mask);
    var g, mem' := GeneratedRun(ctx, Loaded(ctx, mem), run).0, DirectRun(ctx, mem, run).0;
    GeneratedSnoc(ctx, Loaded(ctx, mem), run, x);
    DirectSnoc(ctx, mem, run, x);
    RunsAreReached(ctx, run + [x]);
    var v, v' := And(g.cache[src], MaskBits(mask)), And(ctx.Read(mem', src), MaskBits(mask));
    ReadOfWrite(ctx, mem, dst, v, dst);
    ReadOfWrite(ctx, mem', dst, v', dst);
    BitAbove(ctx, mem, src, k);
    BitAbove(ctx, mem', src, k);
    LowAt(v, ctx.Width(dst), k);
    LowAt(v', ctx.Width(dst), k);
    assert Sent(ctx, GeneratedRun(ctx, Loaded(ctx, mem), run + [x]).0, dst) == Low(v, ctx.Width(dst));
  }

  lemma BitAbove(ctx: Context, mem: Memory, f: nat, k: nat)
    requires ctx.WellFormed() && ctx.InMemory(mem) && f in ctx.present && ctx.Width(f) <= k < 32
    ensures !ctx.Read(mem, f)[k]
  {
    hide Context.Read, Low;
    ReadBound(ctx, mem, f);
    LowAt(ctx.Read(mem, f), ctx.Width(f), k);
  }

  lemma SumsDiffer(x: Word, a: Word, b: Word, w: nat, k: nat)
    requires k < w <= 32 && x[k] != a[k]
    ensures Low(AddWords(x, b), w) != Low(SumIn(a, b, w), w)
  {
    hide Low, AddWords, SumIn;
    LowAt(x, w, k);
    LowAt(a, w, k);
    if Low(AddWords(x, b), w) == Low(SumIn(a, b, w), w) {
      CancelSum(x, a, b, w);
    }
  }

  lemma AssignSends(ctx: Context, g: State, f: nat, v: Word)
    requires ctx.WellFormed() && Slots(ctx, g) && f in ctx.present
    ensures Sent(ctx, Assign(ctx, g, f, v), f) == Low(v, ctx.Width(f))
  {
    hide ReadField, WriteField, Low;
    ReadOfWrite(ctx, g.mem, f, v, f);
  }

  lemma SumSent(ctx: Context, mem: Memory, dst: nat, src: nat, g: State, mem': Memory)
    requires ctx.WellFormed() && ctx.InMemory(mem) && dst in ctx.present && src in ctx.present && src in ctx.cached
    requires dst != src && Tracks(ctx, mem, src, g, mem') && ctx.Runs(AddFrom(dst, src))
    ensures Sent(ctx, GeneratedStep(ctx, g, AddFrom(dst, src)).0, dst)
            == Low(AddWords(g.cache[src], ctx.Read(mem, dst)), ctx.Width(dst))
  {
    hide Context.Read, Context.Write, AddWords, Low, Sent, Assign;
    var (g1, slot) := Fetch(ctx, g, src);
    var (g2, res) := Fetch(ctx, g1, dst);
    assert slot == g.cache[src] && res == ctx.Read(mem, dst);
    hide Tracks, Fetch;
    AssignSends(ctx, g2, dst, AddWords(slot, res));
  }

  /** A sum receives a bit above the field. */
  lemma SumLeaks(ctx: Context, mem: Memory, t: Step, dst: nat, src: nat, k: nat, run: seq<Step>)
    requires ctx.WellFormed() && ctx.InMemory(mem) && ctx.Runs(t) && ctx.RunsAll(run)
    requires dst in ctx.present && src in ctx.present && src in Touches(ctx, t)
    requires k < 32 && ctx.Width(src) <= k < ctx.Width(dst) && Moved(ctx, mem, t, src, k, run)
    ensures ctx.RunsAll(run + [AddFrom(dst, src)]) && Wrong(ctx, mem, run + [AddFrom(dst, src)])
  {
    hide GeneratedRun, DirectRun, GeneratedStep, Loaded, Context.Read, Context.Write, Low, AddWords, SumIn, Sent;
    assert src in ctx.cached;
    RunsAreReached(ctx, run);
    hide Touches, Context.RunsAll, Context.NamesAll, Context.ReachesAll;
    var x, w := AddFrom(dst, src), ctx.Width(dst);
    var g, mem' := GeneratedRun(ctx, Loaded(ctx, mem), run).0, DirectRun(ctx, mem, run).0;
    SumSent(ctx, mem, dst, src, g, mem');
    GeneratedSnoc(ctx, Loaded(ctx, mem), run, x);
    DirectSnoc(ctx, mem, run, x);
    RunsAreReached(ctx, run + [x]);
    var slot, a, b := g.cache[src], ctx.Read(mem', src), ctx.Read(mem, dst);
    ReadOfWrite(ctx, mem', dst, SumIn(a, b, w), dst);
    BitAbove(ctx, mem, src, k);
    BitAbove(ctx, mem', src, k);
    SumsDiffer(slot, a, b, w, k);
  }

  // ----- writes beside a live slot -----

  /** The slot of f after step t on a fresh packet. */
  function TouchedSlot(ctx: Context, mem: Memory, t: Step, f: nat): Word
    requires ctx.WellFormed() && ctx.InMemory(mem) && ctx.Runs(t) && f in Touches(ctx, t)
  {
    if Assigns(ctx, t, f) then NextSlot(ctx, mem, t, f, ctx.Read(mem, f)) else ctx.Read(mem, f)
  }

  lemma StepTouches(ctx: Context, g: State, t: Step, f: nat)
    requires ctx.WellFormed() && Slots(ctx, g) && ctx.Runs(t) && f in Touches(ctx, t)
    requires forall h :: h in ctx.present && h in ctx.cached ==> g.cache[h] == ctx.Read(g.mem, h)
    ensures f in ctx.present && f in ctx.cached
    ensures var g1 := GeneratedStep(ctx, g, t).0; f in g1.marked && g1.cache[f] == TouchedSlot(ctx, g.mem, t, f)
  {
    hide Context.Read, Context.Write, AddWords;
  }

  lemma RunOfOne(ctx: Context, mem: Memory, t: Step)
    requires ctx.WellFormed() && ctx.InMemory(mem) && ctx.Runs(t)
    ensures ctx.RunsAll([t])
    ensures GeneratedRun(ctx, Loaded(ctx, mem), [t]).0 == GeneratedStep(ctx, Loaded(ctx, mem), t).0
    ensures DirectRun(ctx, mem, [t]).0 == DirectStep(ctx, mem, t).0
  {
    hide GeneratedStep, DirectStep, Loaded;
    assert [t][1..] == [];
    assert GeneratedRun(ctx, GeneratedStep(ctx, Loaded(ctx, mem), t).0, []).0
      == GeneratedStep(ctx, Loaded(ctx, mem), t).0;
  }

  lemma TouchOnce(ctx: Context, mem: Memory, t: Step, f: nat)
    requires ctx.WellFormed() && ctx.InMemory(mem) && ctx.Runs(t) && f in Touches(ctx, t)
    ensures ctx.RunsAll([t]) && f in ctx.present && f in ctx.cached
    ensures var g := GeneratedRun(ctx, Loaded(ctx, mem), [t]).0;
            f in g.marked && g.cache[f] == TouchedSlot(ctx, mem, t, f)
    ensures DirectRun(ctx, mem, [t]).0 == DirectStep(ctx, mem, t).0
  {
    hide Context.Read, GeneratedStep, GeneratedRun, DirectRun, DirectStep, TouchedSlot, Loaded, Touches;
    StepTouches(ctx, Loaded(ctx, mem), t, f);
    RunOfOne(ctx, mem, t);
  }

  /** A direct step leaves the fields that it does not assign. */
  lemma DirectKeepsOthers(ctx: Context, mem: Memory, t: Step, f: nat, h: nat)
    requires ctx.WellFormed() && ctx.InMemory(mem) && ctx.Runs(t) && f in Touches(ctx, t)
    requires h in ctx.present && h != t.dst
    ensures ctx.Read(DirectStep(ctx, mem, t).0, h) == ctx.Read(mem, h)
  {
    hide ReadField, WriteField, AddWords, SumIn, Reduced;
    var v := match t
      case ModifyConst(dst, c) => Reduced(c, ctx.Width(dst))
      case ModifyFrom(_, src, mask) => And(ctx.Read(mem, src), MaskBits(mask))
      case ModifyParam(_, p) => p
      case AddConst(dst, c) => SumIn(ctx.Read(mem, dst), c, ctx.Width(dst))
      case AddFrom(dst, src) => SumIn(ctx.Read(mem, src), ctx.Read(mem, dst), ctx.Width(dst));
    assert DirectStep(ctx, mem, t).0 == ctx.Write(mem, t.dst, v);
    ReadOfWrite(ctx, mem, t.dst, v, h);
  }

  /** A parameter written beside a flagged slot is lost. */
  lemma ParamLost(ctx: Context, t: Step, dst: nat) returns (mem: Memory, p: Word)
    requires ctx.WellFormed() && ctx.Runs(t) && dst in Touches(ctx, t)
    ensures ctx.InMemory(mem) && ctx.RunsAll([t] + [ModifyParam(dst, p)])
    ensures Wrong(ctx, mem, [t] + [ModifyParam(dst, p)])
  {
    hide GeneratedRun, DirectRun, Loaded, Context.Read, Context.Write, Low, TouchedSlot;
    mem := ZeroBytes(ctx.size);
    TouchOnce(ctx, mem, t, dst);
    RunsAreReached(ctx, [t]);
    hide Touches, Context.RunsAll, Context.NamesAll, Context.ReachesAll;
    var v, w := TouchedSlot(ctx, mem, t, dst), ctx.Width(dst);
    p := Not(v);
    var x := ModifyParam(dst, p);
    GeneratedSnoc(ctx, Loaded(ctx, mem), [t], x);
    DirectSnoc(ctx, mem, [t], x);
    RunsAreReached(ctx, [t] + [x]);
    ReadOfWrite(ctx, DirectRun(ctx, mem, [t]).0, dst, p, dst);
    LowAt(v, w, 0);
    LowAt(p, w, 0);
    assert Sent(ctx, GeneratedRun(ctx, Loaded(ctx, mem), [t] + [x]).0, dst) == Low(v, w);
  }

  /** A copy onto a flagged field is lost when the slot has another bit than the copy brings. */
  lemma CopyLost(ctx: Context, mem: Memory, t: Step, dst: nat, src: nat, mask: Basics.Option<Word>, k: nat)
    requires ctx.WellFormed() && ctx.InMemory(mem) && ctx.Runs(t) && dst in Touches(ctx, t)
    requires dst in ctx.present && src in ctx.present && ctx.SameClass(dst, src) && k < ctx.Width(dst) <= 32
    requires TouchedSlot(ctx, mem, t, dst)[HostBit(ctx, dst, k)]
             != (Transfers(ctx, dst, src, mask, k)
                 && BroughtBit(ctx, mem, t, src, SourcePlace(ctx, dst, mask, k)))
    ensures ctx.RunsAll([t] + [ModifyFrom(dst, src, mask)])
    ensures Wrong(ctx, mem, [t] + [ModifyFrom(dst, src, mask)])
  {
    hide GeneratedRun, DirectRun, Loaded, Context.Read, Low, TouchedSlot, CopyBits, HostBit, SourcePlace;
    TouchOnce(ctx, mem, t, dst);
    RunsAreReached(ctx, [t]);
    hide Touches, Context.RunsAll, Context.NamesAll, Context.ReachesAll;
    var v, x := TouchedSlot(ctx, mem, t, dst), ModifyFrom(dst, src, mask);
    var mem' := DirectRun(ctx, mem, [t]).0;
    GeneratedSnoc(ctx, Loaded(ctx, mem), [t], x);
    DirectSnoc(ctx, mem, [t], x);
    RunsAreReached(ctx, [t] + [x]);
    CopyBitAt(ctx, mem', dst, src, mask, k);
    LowAt(v, ctx.Width(dst), HostBit(ctx, dst, k));
    assert Sent(ctx, GeneratedRun(ctx, Loaded(ctx, mem), [t] + [x]).0, dst) == Low(v, ctx.Width(dst));
  }

  /** Bit k of src, in host numbering, in the packet after step t. */
  ghost predicate BroughtBit(ctx: Context, mem: Memory, t: Step, src: nat, k: nat)
    requires ctx.WellFormed() && ctx.InMemory(mem) && ctx.Runs(t) && src in ctx.present && k < ctx.Width(src) && k < 32
  {
    ctx.Read(DirectStep(ctx, mem, t).0, src)[HostBit(ctx, src, k)]
  }

  lemma TouchReadsOperands(ctx: Context, mem: Memory, mem': Memory, t: Step, f: nat)
    requires ctx.WellFormed() && ctx.InMemory(mem) && ctx.InMemory(mem') && ctx.Runs(t) && f in Touches(ctx, t)
    requires forall h :: h in Operands(t) ==> ctx.Read(mem, h) == ctx.Read(mem', h)
    ensures TouchedSlot(ctx, mem, t, f) == TouchedSlot(ctx, mem', t, f)
  {
    hide Context.Read, AddWords;
  }

  lemma SumWithZero(ctx: Context, mem: Memory, dst: nat, src: nat)
    requires ctx.WellFormed() && ctx.InMemory(mem) && dst in ctx.present && src in ctx.present
    requires ctx.Read(mem, src) == ZERO
    ensures ctx.Read(DirectStep(ctx, mem, AddFrom(dst, src)).0, dst) == ctx.Read(mem, dst)
  {
    hide ReadField, WriteField, AddWords, SumIn, Low;
    var a, w := ctx.Read(mem, dst), ctx.Width(dst);
    ReadBound(ctx, mem, dst);
    AddZero(a);
    SumResidues(ZERO, a, ZERO, a, w);
    ReadOfWrite(ctx, mem, dst, SumIn(ZERO, a, w), dst);
  }

  lemma IndependentSource(ctx: Context, t: Step, dst: nat, src: nat, mask: Basics.Option<Word>, k: nat)
    returns (mem: Memory)
    requires ctx.WellFormed() && ctx.Runs(t) && dst in Touches(ctx, t) && src in ctx.present && src !in Operands(t)
    requires ctx.SameClass(dst, src) && Transfers(ctx, dst, src, mask, k)
    ensures ctx.InMemory(mem) && ctx.RunsAll([t] + [ModifyFrom(dst, src, mask)])
    ensures Wrong(ctx, mem, [t] + [ModifyFrom(dst, src, mask)])
  {
    hide Context.Read, Base, Low, Wrong, TouchedSlot, DirectStep;
    var zero, ones := Base(ctx, src, ZERO), Base(ctx, src, Ones(0, 32));
    forall h | h in Operands(t) ensures ctx.Read(zero, h) == ctx.Read(ones, h) {
      BaseReads(ctx, src, ZERO, h);
      BaseReads(ctx, src, Ones(0, 32), h);
    }
    TouchReadsOperands(ctx, zero, ones, t, dst);
    BaseReads(ctx, src, ZERO, src);
    BaseReads(ctx, src, Ones(0, 32), src);
    var j := HostBit(ctx, src, SourcePlace(ctx, dst, mask, k));
    LowAt(ZERO, ctx.Width(src), j);
    LowAt(Ones(0, 32), ctx.Width(src), j);
    mem := if TouchedSlot(ctx, zero, t, dst)[HostBit(ctx, dst, k)] then zero else ones;
    DirectKeepsOthers(ctx, mem, t, dst, src);
    CopyLost(ctx, mem, t, dst, src, mask, k);
  }

  /** The source was added to the flagged field. */
  lemma AddedSource(ctx: Context, dst: nat, src: nat, mask: Basics.Option<Word>, k: nat) returns (mem: Memory)
    requires ctx.WellFormed() && dst in ctx.present && dst in ctx.cached && src in ctx.present && src != dst
    requires ctx.SameClass(dst, src) && Transfers(ctx, dst, src, mask, k)
    ensures ctx.InMemory(mem) && ctx.RunsAll([AddFrom(dst, src)] + [ModifyFrom(dst, src, mask)])
    ensures Wrong(ctx, mem, [AddFrom(dst, src)] + [ModifyFrom(dst, src, mask)])
  {
    hide Context.Read, Base, Low, Wrong, AddWords, DirectStep;
    mem := Base(ctx, dst, Ones(0, 32));
    BaseReads(ctx, dst, Ones(0, 32), dst);
    BaseReads(ctx, dst, Ones(0, 32), src);
    AddZero(ctx.Read(mem, dst));
    LowAt(Ones(0, 32), ctx.Width(dst), HostBit(ctx, dst, k));
    DirectKeepsOthers(ctx, mem, AddFrom(dst, src), dst, src);
    CopyLost(ctx, mem, AddFrom(dst, src), dst, src, mask, k);
  }

  /** The flagged field was added to the source. */
  lemma AddedToSource(ctx: Context, dst: nat, src: nat, mask: Basics.Option<Word>, k: nat) returns (mem: Memory)
    requires ctx.WellFormed() && dst in ctx.present && dst in ctx.cached && src in ctx.present && src != dst
    requires ctx.SameClass(dst, src) && Transfers(ctx, dst, src, mask, k)
    ensures ctx.InMemory(mem) && ctx.RunsAll([AddFrom(src, dst)] + [ModifyFrom(dst, src, mask)])
    ensures Wrong(ctx, mem, [AddFrom(src, dst)] + [ModifyFrom(dst, src, mask)])
  {
    hide Context.Read, Base, Low, Wrong, AddWords, DirectStep;
    mem := Base(ctx, src, Ones(0, 32));
    BaseReads(ctx, src, Ones(0, 32), dst);
    BaseReads(ctx, src, Ones(0, 32), src);
    SumWithZero(ctx, mem, src, dst);
    LowAt(Ones(0, 32), ctx.Width(src), HostBit(ctx, src, SourcePlace(ctx, dst, mask, k)));
    CopyLost(ctx, mem, AddFrom(src, dst), dst, src, mask, k);
  }

  /** A copy of some bit onto a flagged field is lost: the source can be chosen against the slot. */
  lemma TransferLost(ctx: Context, t: Step, dst: nat, src: nat, mask: Basics.Option<Word>, k: nat) returns (mem: Memory)
    requires ctx.WellFormed() && ctx.Runs(t) && dst in Touches(ctx, t) && src in ctx.present && src != dst
    requires ctx.SameClass(dst, src) && Transfers(ctx, dst, src, mask, k)
    ensures ctx.InMemory(mem) && ctx.RunsAll([t] + [ModifyFrom(dst, src, mask)])
    ensures Wrong(ctx, mem, [t] + [ModifyFrom(dst, src, mask)])
  {
    hide Wrong;
    if src !in Operands(t) {
      mem := IndependentSource(ctx, t, dst, src, mask, k);
    } else if t.dst == dst {
      assert t == AddFrom(dst, src);
      mem := AddedSource(ctx, dst, src, mask, k);
    } else {
      assert t == AddFrom(src, dst);
      mem := AddedToSource(ctx, dst, src, mask, k);
    }
  }

  /** A step that may keep bit j keeps it for some packet, unless it only doubles the field. */
  lemma KeptBit(ctx: Context, t: Step, f: nat, j: nat) returns (mem: Memory)
    requires ctx.WellFormed() && ctx.Runs(t) && f in Touches(ctx, t) && j < ctx.Width(f) <= 32
    requires Keeps(ctx, t, f, j) && (t == AddFrom(f, f) ==> j > 0)
    ensures ctx.InMemory(mem) && TouchedSlot(ctx, mem, t, f)[j]
  {
    hide Context.Read, Base, Low, AddWords;
    mem := ZeroBytes(ctx.size);
    match t
    case ModifyConst(_, _) =>
    case ModifyFrom(dst, src, _) => mem := KeptByReading(ctx, src, j, src);
    case AddConst(_, c) => mem := KeptByAddConst(ctx, f, c, j);
    case AddFrom(dst, src) =>
      if dst == src {
        mem := Base(ctx, f, Ones(j - 1, j));
        BaseReads(ctx, f, Ones(j - 1, j), f);
        LowOfOneBit(j - 1, ctx.Width(f));
        DoubleOneBit(j - 1);
      } else {
        mem := KeptByReading(ctx, f, j, src);
        AddZero(ctx.Read(mem, f));
      }
    case _ =>
  }

  lemma KeptByReading(ctx: Context, f: nat, j: nat, h: nat) returns (mem: Memory)
    requires ctx.WellFormed() && f in ctx.present && h in ctx.present && j < ctx.Width(f) && j < 32
    ensures ctx.InMemory(mem) && ctx.Read(mem, f)[j] && (h != f ==> ctx.Read(mem, h) == ZERO)
  {
    hide Context.Read, Base, Low;
    mem := Base(ctx, f, Ones(0, 32));
    BaseReads(ctx, f, Ones(0, 32), f);
    BaseReads(ctx, f, Ones(0, 32), h);
    LowAt(Ones(0, 32), ctx.Width(f), j);
  }

  lemma KeptByAddConst(ctx: Context, f: nat, c: Word, j: nat) returns (mem: Memory)
    requires ctx.WellFormed() && f in ctx.present && f in ctx.cached && j < ctx.Width(f) <= 32
    ensures ctx.InMemory(mem) && TouchedSlot(ctx, mem, AddConst(f, c), f)[j]
  {
    hide Context.Read, Base, Low, AddWords;
    var v := if c[j] then ZERO else Ones(j, j + 1);
    mem := Base(ctx, f, v);
    BaseReads(ctx, f, v, f);
    KeptByAdding(c, j, ctx.Width(f));
  }

  lemma LowOfOneBit(j: nat, w: nat)
    requires j < w <= 32
    ensures Low(Ones(j, j + 1), w) == Ones(j, j + 1)
  {
  }

  lemma KeptByAdding(c: Word, j: nat, w: nat)
    requires j < w <= 32
    ensures AddWords(c, Low(if c[j] then ZERO else Ones(j, j + 1), w))[j]
  {
    LowOfZero(w);
    LowOfOneBit(j, w);
    hide Low, AddWords, ZERO, Ones;
    AddZero(c);
    FlipByAdding(c, j);
  }

  /** A copy that clears a bit of a flagged field is lost when the step before has kept the bit. */
  lemma HoleLost(ctx: Context, t: Step, dst: nat, src: nat, mask: Basics.Option<Word>, k: nat)
    returns (mem: Memory, run: seq<Step>)
    requires ctx.WellFormed() && ctx.Runs(t) && dst in Touches(ctx, t) && src in ctx.present
    requires src == dst || forall i: nat :: !Transfers(ctx, dst, src, mask, i)
    requires ctx.SameClass(dst, src) && Hole(ctx, dst, src, mask, k) && ctx.Width(dst) <= 32
    requires Keeps(ctx, t, dst, HostBit(ctx, dst, k))
    ensures run == [t] + [ModifyFrom(dst, src, mask)] || run == [ModifyFrom(dst, src, mask)] + [t]
    ensures ctx.InMemory(mem) && ctx.RunsAll(run) && Wrong(ctx, mem, run)
  {
    hide Wrong, HostBit, TouchedSlot;
    if src == dst && SourcePlace(ctx, dst, mask, k) != k {
      run := [t] + [ModifyFrom(dst, src, mask)];
      mem := ShiftedCopyLost(ctx, t, dst, mask, k);
    } else if t == AddFrom(dst, dst) && HostBit(ctx, dst, k) == 0 {
      run := [ModifyFrom(dst, src, mask)] + [t];
      mem := Base(ctx, dst, Ones(0, 1));
      ClearedThenDoubled(ctx, dst, src, mask, k);
    } else {
      run := [t] + [ModifyFrom(dst, src, mask)];
      mem := KeptBit(ctx, t, dst, HostBit(ctx, dst, k));
      CopyLost(ctx, mem, t, dst, src, mask, k);
    }
  }

  /** The direct step leaves in f what the slot sends. */
  lemma TouchAgrees(ctx: Context, mem: Memory, t: Step, f: nat)
    requires ctx.WellFormed() && ctx.InMemory(mem) && ctx.Runs(t) && f in Touches(ctx, t)
    ensures ctx.Read(DirectStep(ctx, mem, t).0, f) == Low(TouchedSlot(ctx, mem, t, f), ctx.Width(f))
  {
    assert f in ctx.present && f in ctx.cached;
    hide Context.Read, Context.Write, NextSlot, DirectValue, DirectStep, Loaded, Low;
    ReadBound(ctx, mem, f);
    if Assigns(ctx, t, f) {
      DirectAssign(ctx, mem, f, t);
      DirectValueAgrees(ctx, mem, f, Loaded(ctx, mem), mem, t);
      ReadOfWrite(ctx, mem, f, DirectValue(ctx, mem, t, f), f);
    } else {
      DirectKeepsOthers(ctx, mem, t, f, f);
    }
  }

  /** Every bit of dst is the one that the shifted copy would bring. */
  ghost predicate FixedByShift(ctx: Context, v: Word, dst: nat, mask: Basics.Option<Word>)
    requires ctx.WellFormed() && dst in ctx.present
  {
    forall k: nat :: k < ctx.Width(dst) && HostBit(ctx, dst, k) < 32 ==>
      (v[HostBit(ctx, dst, k)] ==>
         Transfers(ctx, dst, dst, mask, k) && HostBit(ctx, dst, SourcePlace(ctx, dst, mask, k)) < 32
         && v[HostBit(ctx, dst, SourcePlace(ctx, dst, mask, k))])
  }

  /** A shift keeps no value but zero. */
  lemma ShiftFixesZero(ctx: Context, v: Word, dst: nat, mask: Basics.Option<Word>, k: nat)
    requires ctx.WellFormed() && dst in ctx.present && FixedByShift(ctx, v, dst, mask)
    requires k < ctx.Width(dst) && SourcePlace(ctx, dst, mask, k) > k && HostBit(ctx, dst, k) < 32
    ensures !v[HostBit(ctx, dst, k)]
    decreases ctx.Width(dst) - k
  {
    hide HostBit;
    if v[HostBit(ctx, dst, k)] {
      ShiftFixesZero(ctx, v, dst, mask, SourcePlace(ctx, dst, mask, k));
    }
  }

  /** A copy of a flagged field onto itself is lost when it shifts and some bit has been kept. */
  lemma ShiftedCopyLost(ctx: Context, t: Step, dst: nat, mask: Basics.Option<Word>, k: nat) returns (mem: Memory)
    requires ctx.WellFormed() && ctx.Runs(t) && dst in Touches(ctx, t) && k < ctx.Width(dst) <= 32
    requires SourcePlace(ctx, dst, mask, k) != k && dst in ctx.present && Keeps(ctx, t, dst, HostBit(ctx, dst, k))
    ensures ctx.InMemory(mem) && ctx.RunsAll([t] + [ModifyFrom(dst, dst, mask)])
    ensures Wrong(ctx, mem, [t] + [ModifyFrom(dst, dst, mask)])
  {
    hide HostBit, Wrong, TouchedSlot, Touches, DirectStep, Context.Read, Low;
    var j := if t == AddFrom(dst, dst) then 1 else HostBit(ctx, dst, k);
    mem := KeptBit(ctx, t, dst, j);
    var v := TouchedSlot(ctx, mem, t, dst);
    var i := HostBitOnto(ctx, dst, j);
    if FixedByShift(ctx, v, dst, mask) {
      ShiftFixesZero(ctx, v, dst, mask, i);
    }
    var p: nat :| p < ctx.Width(dst) && HostBit(ctx, dst, p) < 32 && v[HostBit(ctx, dst, p)]
      && !(Transfers(ctx, dst, dst, mask, p) && HostBit(ctx, dst, SourcePlace(ctx, dst, mask, p)) < 32
           && v[HostBit(ctx, dst, SourcePlace(ctx, dst, mask, p))]);
    TouchAgrees(ctx, mem, t, dst);
    if Transfers(ctx, dst, dst, mask, p) {
      LowAt(v, ctx.Width(dst), HostBit(ctx, dst, SourcePlace(ctx, dst, mask, p)));
    }
    CopyLost(ctx, mem, t, dst, dst, mask, p);
  }

  /** The copy clears the only bit that is set. */
  lemma ClearingCopy(ctx: Context, mem: Memory, dst: nat, src: nat, mask: Basics.Option<Word>, k: nat)
    requires ctx.WellFormed() && ctx.InMemory(mem) && dst in ctx.present && src in ctx.present
    requires src == dst || forall i: nat :: !Transfers(ctx, dst, src, mask, i)
    requires src == dst ==> SourcePlace(ctx, dst, mask, k) == k
    requires Hole(ctx, dst, src, mask, k) && HostBit(ctx, dst, k) == 0 && ctx.Read(mem, dst) == Ones(0, 1)
    ensures ctx.Read(CopyBits(ctx, mem, dst, src, mask), dst) == ZERO
  {
    hide HostBit, CopyBits, Context.Read, Low;
    var w, x := ctx.Width(dst), ctx.Read(CopyBits(ctx, mem, dst, src, mask), dst);
    CopyBitAt(ctx, mem, dst, src, mask, k);
    forall j: nat | j < 32 ensures !x[j] {
      if j >= w {
        BitAbove(ctx, CopyBits(ctx, mem, dst, src, mask), dst, j);
      } else if j > 0 {
        var i := HostBitOnto(ctx, dst, j);
        CopyBitAt(ctx, mem, dst, src, mask, i);
      }
    }
    assert x == ZERO;
  }

  lemma ClearedThenDoubled(ctx: Context, dst: nat, src: nat, mask: Basics.Option<Word>, k: nat)
    requires ctx.WellFormed() && dst in ctx.present && src in ctx.present && dst in ctx.cached
      && 1 < ctx.Width(dst) <= 32
    requires src == dst || forall i: nat :: !Transfers(ctx, dst, src, mask, i)
    requires src == dst ==> SourcePlace(ctx, dst, mask, k) == k
    requires ctx.SameClass(dst, src) && Hole(ctx, dst, src, mask, k) && HostBit(ctx, dst, k) == 0
    ensures var mem, run := Base(ctx, dst, Ones(0, 1)), [ModifyFrom(dst, src, mask)] + [AddFrom(dst, dst)];
            ctx.InMemory(mem) && ctx.RunsAll(run) && Wrong(ctx, mem, run)
  {
    hide HostBit, CopyBits, Context.Read, Context.Write, Low, AddWords, SumIn, GeneratedRun, DirectRun, Base,
         Loaded, Hole, Transfers;
    var mem, w, c, t := Base(ctx, dst, Ones(0, 1)), ctx.Width(dst), ModifyFrom(dst, src, mask), AddFrom(dst, dst);
    BaseReads(ctx, dst, Ones(0, 1), dst);
    LowOfOneBit(0, w);
    ClearingCopy(ctx, mem, dst, src, mask, k);
    var mem1 := CopyBits(ctx, mem, dst, src, mask);
    RunOfOne(ctx, mem, c);
    GeneratedSnoc(ctx, Loaded(ctx, mem), [c], t);
    DirectSnoc(ctx, mem, [c], t);
    SumWithZero(ctx, mem1, dst, dst);
    DoubleOneBit(0);
    LowOfOneBit(1, w);
    assert Sent(ctx, GeneratedRun(ctx, Loaded(ctx, mem), [c] + [t]).0, dst) == Ones(1, 2);
    assert Ones(1, 2)[1];
  }

  // ----- the theorem -----

  lemma Mover(ctx: Context, program: seq<Step>, f: nat, k: nat) returns (t: Step)
    requires ctx.WellFormed() && k < 32 && CanMove(ctx, program, f, k)
    ensures t in program && ctx.Runs(t) && f in Touches(ctx, t) && Moves(ctx, t, f, k)
  {
    t :| t in program && ctx.Runs(t) && f in Touches(ctx, t) && Moves(ctx, t, f, k);
  }

  lemma Toucher(ctx: Context, program: seq<Step>, f: nat) returns (t: Step)
    requires ctx.WellFormed() && Slotted(ctx, program, f)
    ensures t in program && ctx.Runs(t) && f in Touches(ctx, t) && f in ctx.present
  {
    t :| t in program && ctx.Runs(t) && f in Touches(ctx, t);
  }

  /** A run of the program on a fresh packet that goes wrong. */
  ghost predicate Breaks(ctx: Context, program: seq<Step>, mem: Memory, run: seq<Step>)
    requires ctx.WellFormed()
  {
    RunOf(ctx, program, run) && ctx.InMemory(mem) && ctx.RunsAll(run) && Wrong(ctx, mem, run)
  }

  lemma BrokenRunBreaks(ctx: Context, program: seq<Step>, mem: Memory, run: seq<Step>)
    requires ctx.WellFormed() && Breaks(ctx, program, mem, run)
    ensures RunOf(ctx, program, run) && ctx.InMemory(mem) && ctx.NamesAll(run)
    ensures !Refines(ctx, Fresh(ctx, mem), run)
  {
    RunsAreReached(ctx, run);
    hide Wrong, Refines;
    WrongBreaks(ctx, mem, run);
  }

  lemma ObserveBreaks(ctx: Context, program: seq<Step>, src: nat, k: nat) returns (mem: Memory, run: seq<Step>)
    requires ctx.WellFormed() && Observe(src) in program && ctx.Runs(Observe(src))
    requires k < 32 && k < ctx.Width(src) && CanMove(ctx, program, src, k)
    ensures Breaks(ctx, program, mem, run)
  {
    hide Wrong, Moved, Moves, Touches, CanMove;
    var t := Mover(ctx, program, src, k);
    mem, run := MovedRun(ctx, t, src, k);
    ObserveWrong(ctx, mem, t, src, k, run);
    run := run + [Observe(src)];
  }

  lemma DigestBreaks(ctx: Context, program: seq<Step>, src: nat, f: nat, k: nat) returns (mem: Memory, run: seq<Step>)
    requires ctx.WellFormed() && Digest(src) in program && ctx.Runs(Digest(src)) && f in ctx.present
    requires k < 32 && InDigest(ctx, src, f, k) && CanMove(ctx, program, f, k)
    ensures Breaks(ctx, program, mem, run)
  {
    hide Wrong, Moved, Moves, Touches, CanMove, InDigest;
    var t := Mover(ctx, program, f, k);
    mem, run := MovedRun(ctx, t, f, k);
    DigestWrong(ctx, mem, t, src, f, k, run);
    run := run + [Digest(src)];
  }

  lemma SumBreaks(ctx: Context, program: seq<Step>, dst: nat, src: nat, k: nat) returns (mem: Memory, run: seq<Step>)
    requires ctx.WellFormed() && AddFrom(dst, src) in program && ctx.Runs(AddFrom(dst, src))
    requires k < 32 && ctx.Width(src) <= k < ctx.Width(dst) && CanMove(ctx, program, src, k)
    ensures Breaks(ctx, program, mem, run)
  {
    hide Wrong, Moved, Moves, Touches, CanMove;
    var t := Mover(ctx, program, src, k);
    mem, run := MovedRun(ctx, t, src, k);
    SumLeaks(ctx, mem, t, dst, src, k, run);
    run := run + [AddFrom(dst, src)];
  }

  lemma CrossBreaks(ctx: Context, program: seq<Step>, dst: nat, src: nat, mask: Basics.Option<Word>, k: nat)
    returns (mem: Memory, run: seq<Step>)
    requires ctx.WellFormed() && ModifyFrom(dst, src, mask) in program && ctx.Runs(ModifyFrom(dst, src, mask))
    requires !ctx.SameClass(dst, src)
    requires k < 32 && ctx.Width(src) <= k < ctx.Width(dst) && MaskBits(mask)[k] && CanMove(ctx, program, src, k)
    ensures Breaks(ctx, program, mem, run)
  {
    hide Wrong, Moved, Moves, Touches, CanMove;
    var t := Mover(ctx, program, src, k);
    mem, run := MovedRun(ctx, t, src, k);
    CrossLeaks(ctx, mem, t, dst, src, mask, k, run);
    run := run + [ModifyFrom(dst, src, mask)];
  }

  lemma ParamBreaks(ctx: Context, program: seq<Step>, dst: nat, q: Word) returns (mem: Memory, run: seq<Step>)
    requires ctx.WellFormed() && ModifyParam(dst, q) in program && Slotted(ctx, program, dst)
    ensures Breaks(ctx, program, mem, run)
  {
    hide Wrong, Touches, Slotted;
    var t := Toucher(ctx, program, dst);
    var p;
    mem, p := ParamLost(ctx, t, dst);
    run := [t] + [ModifyParam(dst, p)];
    assert InProgram(program, ModifyParam(dst, p));
  }

  lemma UnslottedCopyBreaks(ctx: Context, program: seq<Step>, dst: nat, src: nat, mask: Basics.Option<Word>, k: nat)
    returns (mem: Memory, run: seq<Step>)
    requires ctx.WellFormed() && ModifyFrom(dst, src, mask) in program && ctx.Runs(ModifyFrom(dst, src, mask))
    requires ctx.SameClass(dst, src) && !Slotted(ctx, program, dst) && Transfers(ctx, dst, src, mask, k)
    requires var j := HostBit(ctx, src, SourcePlace(ctx, dst, mask, k)); j < 32 && CanMove(ctx, program, src, j)
    ensures Breaks(ctx, program, mem, run)
  {
    hide Wrong, Moved, Moves, Touches, CanMove, HostBit;
    var j := HostBit(ctx, src, SourcePlace(ctx, dst, mask, k));
    var t := Mover(ctx, program, src, j);
    mem, run := MovedRun(ctx, t, src, j);
    CopyMissesSlot(ctx, mem, t, dst, src, mask, k, run);
    run := run + [ModifyFrom(dst, src, mask)];
  }

  lemma TransferBreaks(ctx: Context, program: seq<Step>, dst: nat, src: nat, mask: Basics.Option<Word>, k: nat)
    returns (mem: Memory, run: seq<Step>)
    requires ctx.WellFormed() && ModifyFrom(dst, src, mask) in program && ctx.Runs(ModifyFrom(dst, src, mask))
    requires ctx.SameClass(dst, src) && Slotted(ctx, program, dst) && src != dst && Transfers(ctx, dst, src, mask, k)
    ensures Breaks(ctx, program, mem, run)
  {
    hide Wrong, Touches, Slotted;
    var t := Toucher(ctx, program, dst);
    mem := TransferLost(ctx, t, dst, src, mask, k);
    run := [t] + [ModifyFrom(dst, src, mask)];
  }

  lemma HoleBreaks(ctx: Context, program: seq<Step>, dst: nat, src: nat, mask: Basics.Option<Word>, k: nat, t: Step)
    returns (mem: Memory, run: seq<Step>)
    requires ctx.WellFormed() && ModifyFrom(dst, src, mask) in program && ctx.Runs(ModifyFrom(dst, src, mask))
    requires ctx.SameClass(dst, src) && Hole(ctx, dst, src, mask, k)
    requires src == dst || forall i: nat :: !Transfers(ctx, dst, src, mask, i)
    requires t in program && ctx.Runs(t) && dst in Touches(ctx, t) && ctx.Width(dst) <= 32
    requires Keeps(ctx, t, dst, HostBit(ctx, dst, k))
    ensures Breaks(ctx, program, mem, run)
  {
    hide Wrong, Touches, HostBit, Keeps;
    mem, run := HoleLost(ctx, t, dst, src, mask, k);
  }

  lemma CopyBreaks(ctx: Context, program: seq<Step>, dst: nat, src: nat, mask: Basics.Option<Word>)
    returns (mem: Memory, run: seq<Step>)
    requires ctx.WellFormed() && ModifyFrom(dst, src, mask) in program && ctx.Runs(ModifyFrom(dst, src, mask))
    requires ctx.SameClass(dst, src) && !CopyCoherent(ctx, program, dst, src, mask)
    ensures Breaks(ctx, program, mem, run)
  {
    hide Wrong, HostBit, Touches, Keeps, Slotted, CanMove, Breaks;
    if !Slotted(ctx, program, dst) {
      var k: nat :| Transfers(ctx, dst, src, mask, k)
        && CanMove(ctx, program, src, HostBit(ctx, src, SourcePlace(ctx, dst, mask, k)));
      mem, run := UnslottedCopyBreaks(ctx, program, dst, src, mask, k);
    } else if src != dst && exists k: nat :: Transfers(ctx, dst, src, mask, k) {
      var k: nat :| Transfers(ctx, dst, src, mask, k);
      mem, run := TransferBreaks(ctx, program, dst, src, mask, k);
    } else {
      var k: nat, t :| Hole(ctx, dst, src, mask, k) && t in program && ctx.Runs(t) && dst in Touches(ctx, t)
        && Keeps(ctx, t, dst, HostBit(ctx, dst, k));
      mem, run := HoleBreaks(ctx, program, dst, src, mask, k, t);
    }
  }

  /** A step outside the condition has a run of the program, on a fresh packet, that goes wrong. */
  lemma IncoherentStepBreaks(ctx: Context, program: seq<Step>, x: Step) returns (mem: Memory, run: seq<Step>)
    requires ctx.WellFormed() && x in program && ctx.Runs(x) && !CoherentStep(ctx, program, x)
    ensures Breaks(ctx, program, mem, run)
  {
    hide Breaks, CanMove, CopyCoherent, Slotted;
    match x
    case ModifyConst(_, _) => assert false;
    case AddConst(_, _) => assert false;
    case ModifyParam(dst, q) => mem, run := ParamBreaks(ctx, program, dst, q);
    case Observe(src) =>
      var k: nat :| k < 32 && k < ctx.Width(src) && CanMove(ctx, program, src, k);
      mem, run := ObserveBreaks(ctx, program, src, k);
    case Digest(src) =>
      var f, k: nat :| f in ctx.present && Slotted(ctx, program, f) && k < 32 && InDigest(ctx, src, f, k)
        && CanMove(ctx, program, f, k);
      mem, run := DigestBreaks(ctx, program, src, f, k);
    case AddFrom(dst, src) =>
      var k: nat :| k < 32 && ctx.Width(src) <= k < ctx.Width(dst) && CanMove(ctx, program, src, k);
      mem, run := SumBreaks(ctx, program, dst, src, k);
    case ModifyFrom(dst, src, mask) =>
      if ctx.SameClass(dst, src) {
        mem, run := CopyBreaks(ctx, program, dst, src, mask);
      } else {
        var k: nat :| k < 32 && ctx.Width(src) <= k < ctx.Width(dst) && MaskBits(mask)[k]
          && CanMove(ctx, program, src, k);
        mem, run := CrossBreaks(ctx, program, dst, src, mask, k);
      }
  }

  /** Whatever the previous packet left, as long as no flag is stale, every run of the program is
      handled as if its steps had worked on the packet itself. */
  ghost predicate Transparent(ctx: Context, program: seq<Step>)
    requires ctx.WellFormed()
  {
    forall g, run | Slots(ctx, g) && g.marked * ctx.cached <= ctx.present && RunOf(ctx, program, run) ::
      Refines(ctx, g, run)
  }

  /** The same for packets in a descriptor that carries nothing over. */
  ghost predicate TransparentWhenFresh(ctx: Context, program: seq<Step>)
    requires ctx.WellFormed()
  {
    forall mem, run | ctx.InMemory(mem) && RunOf(ctx, program, run) :: Refines(ctx, Fresh(ctx, mem), run)
  }

  /** A program with the slots that the compiler gives it is handled transparently on all packets
      and runs if and only if it is coherent; leftovers of earlier packets make no difference. */
  lemma CoherenceIsExact(fields: seq<FieldDesc>, program: seq<Step>, present: set<nat>, size: nat)
    requires ContextOf(fields, program, present, size).WellFormed()
    ensures var ctx := ContextOf(fields, program, present, size);
            && (CoherentProgram(ctx, program) <==> Transparent(ctx, program))
            && (CoherentProgram(ctx, program) <==> TransparentWhenFresh(ctx, program))
  {
    var ctx := ContextOf(fields, program, present, size);
    hide Refines, CoherentStep, Wrong, ContextOf;
    if CoherentProgram(ctx, program) {
      forall g, run | Slots(ctx, g) && g.marked * ctx.cached <= ctx.present && RunOf(ctx, program, run)
        ensures Refines(ctx, g, run)
      {
        CacheRefinesDirect(ctx, program, g, run);
      }
    } else {
      var x :| x in program && ctx.Runs(x) && !CoherentStep(ctx, program, x);
      var mem, run := IncoherentStepBreaks(ctx, program, x);
      BrokenRunBreaks(ctx, program, mem, run);
    }
  }
}

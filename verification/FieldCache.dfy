/** The parsed-field cache. Generated actions work on 32-bit copies of header fields and write
    them back at the end; this module states when that is the same as working on the packet. */
module FieldCache {
  import Basics
  import opened Words
  import opened FieldMacros
  import opened HeaderRecord

  /** The primitive calls of user actions, and the places that read packet memory directly: table
      keys and conditions a field, digests whole bytes. A parameter is the word its bytes write. */
  datatype Step =
    | ModifyConst(dst: nat, c: Word)
    | ModifyFrom(dst: nat, src: nat, mask: Basics.Option<Word>)
    | ModifyParam(dst: nat, p: Word)
    | AddConst(dst: nat, c: Word)
    | AddFrom(dst: nat, src: nat)
    | Observe(src: nat)
    | Digest(src: nat)

  /** The step only reads packet memory. */
  predicate Reads(s: Step) {
    s.Observe? || s.Digest?
  }

  function Operands(s: Step): set<nat> {
    match s
    case ModifyConst(dst, _) => {dst}
    case ModifyFrom(dst, src, _) => {dst, src}
    case ModifyParam(dst, _) => {dst}
    case AddConst(dst, _) => {dst}
    case AddFrom(dst, src) => {dst, src}
    case Observe(src) => {src}
    case Digest(src) => {src}
  }

  /** parsed_field: cached are the packet fields of at most 32 bits that some modify_field or
      add_to_field of the program mentions. */
  predicate ParsedField(fields: seq<FieldDesc>, program: seq<Step>, f: nat)
    requires f < |fields|
  {
    && !fields[f].meta && fields[f].bitWidth <= 32
    && exists t :: 0 <= t < |program| && !Reads(program[t]) && f in Operands(program[t])
  }

  /** One packet under one program: the field descriptors, the fields of extracted headers and
      the fields with a slot in parsed_fields_t. */
  datatype Context = Context(fields: seq<FieldDesc>, present: set<nat>, cached: set<nat>, size: nat) {

    ghost predicate WellFormed() {
      && (forall f :: f in present ==> f < |fields| && fields[f].Narrow() && fields[f].Fits(size))
      && (forall f, g :: f in present && g in present && f != g ==> Disjoint(fields[f], fields[g]))
      && (forall f :: f in cached ==> f < |fields| && !fields[f].meta)
    }

    predicate Names(s: Step) {
      && (Reads(s) || s.dst < |fields|)
      && (s.ModifyFrom? || s.AddFrom? || Reads(s) ==> s.src < |fields|)
    }

    ghost predicate NamesAll(run: seq<Step>) {
      forall t :: 0 <= t < |run| ==> Names(run[t])
    }

    /** All operands are fields of extracted headers. */
    predicate Runs(s: Step) {
      Operands(s) <= present
    }

    ghost predicate RunsAll(run: seq<Step>) {
      forall t :: 0 <= t < |run| ==> Runs(run[t])
    }

    /** The operands whose addresses the generated code dereferences. Reading or assigning a slot
        does not look at the header. */
    function MemoryOperands(s: Step): set<nat>
      requires Names(s)
    {
      match s
      case ModifyConst(dst, _) => {dst} - cached
      case ModifyFrom(dst, src, _) => if SameClass(dst, src) then {dst, src} else {dst, src} - cached
      case ModifyParam(dst, _) => {dst}
      case AddConst(dst, _) => {dst} - cached
      case AddFrom(dst, src) => {dst, src} - cached
      case Observe(src) => {src}
      case Digest(src) => {src}
    }

    /** The addresses exist: only extracted headers have one. */
    predicate Reaches(s: Step)
      requires Names(s)
    {
      MemoryOperands(s) <= present
    }

    predicate ReachesAll(run: seq<Step>)
      requires NamesAll(run)
    {
      forall t :: 0 <= t < |run| ==> Reaches(run[t])
    }

    /** Copies inside one class work on memory. */
    predicate SameClass(dst: nat, src: nat)
      requires dst < |fields| && src < |fields|
    {
      fields[src].meta == fields[dst].meta
    }

    ghost predicate InMemory(mem: Memory) {
      |mem| == size
    }

    function Width(f: nat): nat
      requires f < |fields|
    {
      fields[f].bitWidth
    }

    function Read(mem: Memory, f: nat): Word
      requires WellFormed() && InMemory(mem) && f in present
    {
      ReadField(AutoEncoding(fields[f]), mem, fields[f])
    }

    function Write(mem: Memory, f: nat, v: Word): (mem': Memory)
      requires WellFormed() && InMemory(mem) && f in present
      ensures InMemory(mem')
    {
      WriteField(AutoEncoding(fields[f]), mem, fields[f], v)
    }
  }

  /** uint32_t addition. */
  function AddWords(x: Word, y: Word): Word {
    ToWord(Nat(x) + Nat(y))
  }

  /** The value of c, and of a sum, in a field of w bits. */
  function Reduced(c: Word, w: nat): Word {
    ToWord(Nat(c) % Pow2(w))
  }

  function SumIn(x: Word, y: Word, w: nat): Word {
    ToWord((Nat(x) + Nat(y)) % Pow2(w))
  }

  // ----- the meaning of a program: every step on the packet -----

  /** Values are integers modulo 2^width; a copy between two packet fields or two metadata
      fields moves bits in host order, as its macros do. */
  function DirectStep(ctx: Context, mem: Memory, s: Step): (r: (Memory, seq<Word>))
    requires ctx.WellFormed() && ctx.InMemory(mem) && ctx.Runs(s)
    ensures ctx.InMemory(r.0)
  {
    match s
    case ModifyConst(dst, c) =>
      (ctx.Write(mem, dst, Reduced(c, ctx.Width(dst))), [])
    case ModifyFrom(dst, src, mask) =>
      if ctx.SameClass(dst, src) then
        (CopyBits(ctx, mem, dst, src, mask), [])
      else
        (ctx.Write(mem, dst, And(ctx.Read(mem, src), MaskBits(mask))), [])
    case ModifyParam(dst, p) =>
      (ctx.Write(mem, dst, p), [])
    case AddConst(dst, c) =>
      (ctx.Write(mem, dst, SumIn(ctx.Read(mem, dst), c, ctx.Width(dst))), [])
    case AddFrom(dst, src) =>
      (ctx.Write(mem, dst, SumIn(ctx.Read(mem, src), ctx.Read(mem, dst), ctx.Width(dst))), [])
    case Observe(src) =>
      (mem, [ctx.Read(mem, src)])
    case Digest(src) =>
      (mem, [DigestBytes(ctx, mem, src)])
  }

  /** add_digest_field: the bytes of the field's width, counted from the byte of its first bit. */
  function DigestLength(d: FieldDesc): (n: nat)
    requires d.Narrow()
    ensures n <= d.LoadSize() && 8 * n - 8 < d.bitWidth <= 8 * n
  {
    (d.bitWidth - 1) / 8 + 1
  }

  function DigestBytes(ctx: Context, mem: Memory, f: nat): Word
    requires ctx.WellFormed() && ctx.InMemory(mem) && f in ctx.present
  {
    Load(mem, ctx.fields[f].byteAddr, DigestLength(ctx.fields[f]))
  }

  /** EXTRACT_INT32_BITS then MODIFY_INT32_INT32_BITS, straight on memory. */
  function CopyBits(ctx: Context, mem: Memory, dst: nat, src: nat, mask: Basics.Option<Word>): (mem': Memory)
    requires ctx.WellFormed() && ctx.InMemory(mem) && dst in ctx.present && src in ctx.present
    ensures ctx.InMemory(mem')
  {
    var d := ctx.fields[dst];
    var value32 := ReadField(HostBits, mem, ctx.fields[src]);
    Store(mem, d.byteAddr, ModifyMasked(d, Load(mem, d.byteAddr, d.LoadSize()), value32, mask), d.ByteCount())
  }

  function DirectRun(ctx: Context, mem: Memory, run: seq<Step>): (r: (Memory, seq<Word>))
    requires ctx.WellFormed() && ctx.InMemory(mem) && ctx.RunsAll(run)
    ensures ctx.InMemory(r.0)
    decreases |run|
  {
    if run == [] then (mem, []) else
      var (mem1, seen) := DirectStep(ctx, mem, run[0]);
      var (mem2, rest) := DirectRun(ctx, mem1, run[1..]);
      (mem2, seen + rest)
  }

  // ----- the generated code -----

  /** Packet memory, the 32-bit slots and the fields whose attr flag is MODIFIED. */
  datatype State = State(mem: Memory, cache: map<nat, Word>, marked: set<nat>)

  ghost predicate Slots(ctx: Context, g: State) {
    ctx.InMemory(g.mem) && g.cache.Keys == ctx.cached
  }

  /** extract_int32: reading a cached field also sets its flag. */
  function Fetch(ctx: Context, g: State, f: nat): (r: (State, Word))
    requires ctx.WellFormed() && Slots(ctx, g) && f in ctx.present + ctx.cached
    ensures Slots(ctx, r.0)
  {
    if f in ctx.cached then (g.(marked := g.marked + {f}), g.cache[f]) else (g, ctx.Read(g.mem, f))
  }

  /** modify_int32_int32. */
  function Assign(ctx: Context, g: State, f: nat, v: Word): (g': State)
    requires ctx.WellFormed() && Slots(ctx, g) && f in ctx.present + ctx.cached
    ensures Slots(ctx, g')
  {
    if f in ctx.cached then g.(cache := g.cache[f := v], marked := g.marked + {f})
    else g.(mem := ctx.Write(g.mem, f, v))
  }

  function GeneratedStep(ctx: Context, g: State, s: Step): (r: (State, seq<Word>))
    requires ctx.WellFormed() && Slots(ctx, g) && ctx.Names(s) && ctx.Reaches(s)
    ensures Slots(ctx, r.0)
  {
    match s
    case ModifyConst(dst, c) => (Assign(ctx, g, dst, c), [])
    case ModifyFrom(dst, src, mask) =>
      if ctx.SameClass(dst, src) then
        (g.(mem := CopyBits(ctx, g.mem, dst, src, mask)), [])
      else
        var (g1, v) := Fetch(ctx, g, src);
        (Assign(ctx, g1, dst, And(v, MaskBits(mask))), [])
    case ModifyParam(dst, p) => (g.(mem := ctx.Write(g.mem, dst, p)), [])
    case AddConst(dst, c) =>
      var (g1, res) := Fetch(ctx, g, dst);
      (Assign(ctx, g1, dst, AddWords(c, res)), [])
    case AddFrom(dst, src) =>
      var (g1, value) := Fetch(ctx, g, src);
      var (g2, res) := Fetch(ctx, g1, dst);
      (Assign(ctx, g2, dst, AddWords(value, res)), [])
    case Observe(src) => (g, [ctx.Read(g.mem, src)])
    case Digest(src) => (g, [DigestBytes(ctx, g.mem, src)])
  }

  function GeneratedRun(ctx: Context, g: State, run: seq<Step>): (r: (State, seq<Word>))
    requires ctx.WellFormed() && Slots(ctx, g) && ctx.NamesAll(run) && ctx.ReachesAll(run)
    ensures Slots(ctx, r.0)
    decreases |run|
  {
    if run == [] then (g, []) else
      var (g1, seen) := GeneratedStep(ctx, g, run[0]);
      var (g2, rest) := GeneratedRun(ctx, g1, run[1..]);
      (g2, seen + rest)
  }

  /** The parser loads the slots of extracted headers and clears their flags. Slots and flags of
      other headers keep what the previous packet left in the descriptor. */
  function Parse(ctx: Context, g: State): (g': State)
    requires ctx.WellFormed() && Slots(ctx, g)
    ensures Slots(ctx, g')
  {
    State(g.mem,
          map f | f in g.cache :: if f in ctx.present then ctx.Read(g.mem, f) else g.cache[f],
          g.marked - (ctx.cached * ctx.present))
  }

  /** update_packet up to field n: marked slots are written back in field order. */
  function Flush(ctx: Context, g: State, n: nat): (mem: Memory)
    requires ctx.WellFormed() && Slots(ctx, g) && n <= |ctx.fields|
    requires g.marked * ctx.cached <= ctx.present
    ensures ctx.InMemory(mem)
  {
    if n == 0 then g.mem else
      var mem := Flush(ctx, g, n - 1);
      if n - 1 in ctx.cached && n - 1 in g.marked then ctx.Write(mem, n - 1, g.cache[n - 1]) else mem
  }

  /** Handling a packet ends at a null header pointer when a step works on memory of a header that
      was not extracted, or when the write-back meets a flag of such a header. Otherwise slots and
      flags stay for the next packet. */
  datatype Outcome = Fault | Packet(mem: Memory, seen: seq<Word>, cache: map<nat, Word>, marked: set<nat>)

  function UpdatePacket(ctx: Context, g: State, seen: seq<Word>): Outcome
    requires ctx.WellFormed() && Slots(ctx, g)
  {
    if g.marked * ctx.cached <= ctx.present then Packet(Flush(ctx, g, |ctx.fields|), seen, g.cache, g.marked)
    else Fault
  }

  function HandlePacket(ctx: Context, g: State, run: seq<Step>): Outcome
    requires ctx.WellFormed() && Slots(ctx, g) && ctx.NamesAll(run)
  {
    if !ctx.ReachesAll(run) then Fault else
    var (g', seen) := GeneratedRun(ctx, Parse(ctx, g), run);
    UpdatePacket(ctx, g', seen)
  }

  /** The context the compiler sets up: slots for exactly the parsed fields. */
  function ContextOf(fields: seq<FieldDesc>, program: seq<Step>, present: set<nat>, size: nat): Context {
    Context(fields, present, (set f | 0 <= f < |fields| && ParsedField(fields, program, f)), size)
  }

  // ----- flags and faults -----

  /** The slots a step flags: those it reads or assigns. */
  function Touches(ctx: Context, s: Step): set<nat>
    requires ctx.Names(s)
  {
    match s
    case ModifyConst(dst, _) => {dst} * ctx.cached
    case ModifyFrom(dst, src, _) => if ctx.SameClass(dst, src) then {} else {dst, src} * ctx.cached
    case ModifyParam(_, _) => {}
    case AddConst(dst, _) => {dst} * ctx.cached
    case AddFrom(dst, src) => {dst, src} * ctx.cached
    case Observe(_) => {}
    case Digest(_) => {}
  }

  function Flagged(ctx: Context, run: seq<Step>): set<nat>
    requires ctx.NamesAll(run)
    decreases |run|
  {
    if run == [] then {} else Touches(ctx, run[0]) + Flagged(ctx, run[1..])
  }

  /** A step needs the headers of exactly the fields that it dereferences or flags. */
  lemma RunsIff(ctx: Context, s: Step)
    requires ctx.Names(s)
    ensures ctx.Runs(s) <==> ctx.Reaches(s) && Touches(ctx, s) <= ctx.present
  {
  }

  lemma {:induction false} RunsAllIff(ctx: Context, run: seq<Step>)
    requires ctx.NamesAll(run)
    ensures ctx.RunsAll(run) <==> ctx.ReachesAll(run) && Flagged(ctx, run) <= ctx.present
    decreases |run|
  {
    hide Touches, Context.Runs, Context.Reaches;
    if run != [] {
      RunsIff(ctx, run[0]);
      RunsAllIff(ctx, run[1..]);
      assert run == [run[0]] + run[1..];
    }
  }

  lemma RunsAreReached(ctx: Context, run: seq<Step>)
    requires ctx.WellFormed() && ctx.RunsAll(run)
    ensures ctx.NamesAll(run) && ctx.ReachesAll(run)
  {
    forall t | 0 <= t < |run| ensures ctx.Names(run[t]) && ctx.Reaches(run[t]) {
      assert ctx.Runs(run[t]);
    }
  }

  lemma StepFlags(ctx: Context, g: State, s: Step)
    requires ctx.WellFormed() && Slots(ctx, g) && ctx.Names(s) && ctx.Reaches(s)
    ensures GeneratedStep(ctx, g, s).0.marked == g.marked + Touches(ctx, s)
  {
    hide Context.Read, Context.Write, CopyBits, AddWords, DigestBytes;
  }

  lemma {:induction false} RunFlags(ctx: Context, g: State, run: seq<Step>)
    requires ctx.WellFormed() && Slots(ctx, g) && ctx.NamesAll(run) && ctx.ReachesAll(run)
    ensures GeneratedRun(ctx, g, run).0.marked == g.marked + Flagged(ctx, run)
    decreases |run|
  {
    hide GeneratedStep, Touches;
    if run != [] {
      StepFlags(ctx, g, run[0]);
      RunFlags(ctx, GeneratedStep(ctx, g, run[0]).0, run[1..]);
    }
  }

  lemma FlagsAreSlots(ctx: Context, run: seq<Step>)
    requires ctx.NamesAll(run)
    ensures Flagged(ctx, run) <= ctx.cached
    decreases |run|
  {
    if run != [] {
      FlagsAreSlots(ctx, run[1..]);
    }
  }

  /** A packet faults exactly when a flag was left over for a header it lacks, or some step of its
      run has an operand in such a header. */
  lemma FaultsIff(ctx: Context, g: State, run: seq<Step>)
    requires ctx.WellFormed() && Slots(ctx, g) && ctx.NamesAll(run)
    ensures HandlePacket(ctx, g, run).Fault? <==> !(g.marked * ctx.cached <= ctx.present) || !ctx.RunsAll(run)
  {
    hide Flush, GeneratedRun, Flagged;
    RunsAllIff(ctx, run);
    FlagsAreSlots(ctx, run);
    if ctx.ReachesAll(run) {
      RunFlags(ctx, Parse(ctx, g), run);
    }
  }

  // ----- reading and writing fields -----

  /** A copy writes the masked value in host order. */
  lemma CopyWrites(ctx: Context, mem: Memory, dst: nat, src: nat, mask: Basics.Option<Word>)
    requires ctx.WellFormed() && ctx.InMemory(mem) && dst in ctx.present && src in ctx.present
    ensures CopyBits(ctx, mem, dst, src, mask) == WriteField(HostBits, mem, ctx.fields[dst],
        MaskedValue(ctx.fields[dst], ReadField(HostBits, mem, ctx.fields[src]), mask))
  {
    hide ModifyBits, ModifyMasked, MaskedValue, Load, Store, ReadField;
    var d := ctx.fields[dst];
    MaskedCallWrites(d, Load(mem, d.byteAddr, d.LoadSize()), ReadField(HostBits, mem, ctx.fields[src]), mask);
  }

  lemma ReadBound(ctx: Context, mem: Memory, f: nat)
    requires ctx.WellFormed() && ctx.InMemory(mem) && f in ctx.present
    ensures Low(ctx.Read(mem, f), ctx.Width(f)) == ctx.Read(mem, f)
    ensures Nat(ctx.Read(mem, f)) < Pow2(ctx.Width(f))
    ensures Nat(ctx.Read(mem, f)) % Pow2(ctx.Width(f)) == Nat(ctx.Read(mem, f))
  {
    hide ReadField;
    var d := ctx.fields[f];
    var x := ctx.Read(mem, f);
    forall k | 0 <= k < 32 ensures Low(x, d.bitWidth)[k] == x[k] {
      ReadFieldAt(AutoEncoding(d), mem, d, k);
    }
    NatOfLow(x, d.bitWidth);
  }

  lemma SameResidueSameBits(x: Word, y: Word, w: nat)
    requires w <= 32
    ensures Nat(x) % Pow2(w) == Nat(y) % Pow2(w) <==> Low(x, w) == Low(y, w)
  {
    NatOfLow(x, w);
    NatOfLow(y, w);
    if Nat(x) % Pow2(w) == Nat(y) % Pow2(w) {
      NatInjective(Low(x, w), Low(y, w));
    }
  }

  /** Bits of memory after a write of f; fields other than f read as before. */
  lemma WriteAt(ctx: Context, mem: Memory, f: nat, v: Word, p: nat)
    requires ctx.WellFormed() && ctx.InMemory(mem) && f in ctx.present && p < 8 * ctx.size
    ensures ctx.fields[f].Covers(p) ==> 0 <= BitAt(AutoEncoding(ctx.fields[f]), ctx.fields[f], p) < ctx.Width(f)
    ensures NetBit(ctx.Write(mem, f, v), p)
            == if ctx.fields[f].Covers(p) then v[BitAt(AutoEncoding(ctx.fields[f]), ctx.fields[f], p)]
               else NetBit(mem, p)
  {
    WriteFieldAt(AutoEncoding(ctx.fields[f]), mem, ctx.fields[f], v, p);
  }

  lemma ReadOfWrite(ctx: Context, mem: Memory, f: nat, v: Word, g: nat)
    requires ctx.WellFormed() && ctx.InMemory(mem) && f in ctx.present && g in ctx.present
    ensures ctx.Read(ctx.Write(mem, f, v), g) == if g == f then Low(v, ctx.Width(f)) else ctx.Read(mem, g)
    ensures Nat(ctx.Read(ctx.Write(mem, f, v), f)) == Nat(v) % Pow2(ctx.Width(f))
  {
    hide ReadField, WriteField;
    var d := ctx.fields[f];
    ReadAfterWrite(AutoEncoding(d), mem, d, v);
    NatOfLow(v, d.bitWidth);
    if g != f {
      WriteKeepsOthers(AutoEncoding(d), mem, d, v, AutoEncoding(ctx.fields[g]), ctx.fields[g]);
    }
  }

  // ----- arithmetic modulo powers of two -----

  lemma ResidueOfSum(a: nat, b: nat, m: nat)
    requires m >= 1
    ensures (a + b) % m == (a % m + b % m) % m
  {
    var q := a / m + b / m;
    assert a + b == q * m + (a % m + b % m) by {
      assert a == a / m * m + a % m && b == b / m * m + b % m;
    }
    var r := a % m + b % m;
    ModUnique(a + b, m, q + r / m, r % m);
  }

  /** Reduction modulo 2^32 does not disturb the residue modulo a smaller power. */
  lemma ResidueOfResidue(n: nat, w: nat, v: nat)
    requires w <= v
    ensures n % Pow2(v) % Pow2(w) == n % Pow2(w)
  {
    Pow2Add(v - w, w);
    hide Pow2;
    ResidueModFactor(n, Pow2(v - w), Pow2(w));
  }

  lemma ResidueModFactor(n: nat, k: nat, m: nat)
    requires k * m >= 1 && m >= 1
    ensures n % (k * m) % m == n % m
  {
    var q, r := n / (k * m), n % (k * m);
    calc {
      n;
      q * (k * m) + r;
      { assert r == r / m * m + r % m; }
      q * (k * m) + r / m * m + r % m;
      { assert q * (k * m) == (q * k) * m; }
      (q * k) * m + r / m * m + r % m;
      (q * k + r / m) * m + r % m;
    }
    ModUnique(n, m, q * k + r / m, r % m);
  }

  lemma SumAgrees(x: Word, y: Word, a: nat, b: nat, w: nat)
    requires w <= 32
    requires Nat(x) % Pow2(w) == a % Pow2(w) && Nat(y) % Pow2(w) == b % Pow2(w)
    ensures Nat(AddWords(x, y)) % Pow2(w) == Nat(ToWord((a + b) % Pow2(w))) % Pow2(w)
  {
    hide Pow2, Nat;
    var m := Pow2(w);
    calc {
      Nat(AddWords(x, y)) % m;
      { NatOfBits(Nat(x) + Nat(y), 32); ResidueOfResidue(Nat(x) + Nat(y), w, 32); }
      (Nat(x) + Nat(y)) % m;
      { ResidueOfSum(Nat(x), Nat(y), m); ResidueOfSum(a, b, m); }
      (a + b) % m;
      { ResidueOfResidue(a + b, w, w); }
      (a + b) % m % m;
      { NatOfBits((a + b) % m, 32); ResidueOfResidue((a + b) % m, w, 32); }
      Nat(ToWord((a + b) % m)) % m;
    }
  }

  lemma ConstAgrees(c: Word, w: nat)
    requires w <= 32
    ensures Nat(c) % Pow2(w) == Nat(ToWord(Nat(c) % Pow2(w))) % Pow2(w)
  {
    NatOfBits(Nat(c) % Pow2(w), 32);
    ResidueOfResidue(Nat(c) % Pow2(w), w, 32);
    ResidueOfResidue(Nat(c), w, w);
  }

  // ----- what a direct step means for the values of fields -----

  /** Field h after a step: every step but a copy inside one class assigns its destination the value
      that the primitive names, modulo 2^width, and leaves all other fields alone. */
  lemma DirectStepValues(ctx: Context, mem: Memory, s: Step, h: nat)
    requires ctx.WellFormed() && ctx.InMemory(mem) && ctx.Runs(s) && !Reads(s) && h in ctx.present
    ensures ctx.InMemory(DirectStep(ctx, mem, s).0)
    ensures var now, q := Nat(ctx.Read(DirectStep(ctx, mem, s).0, h)), Pow2(ctx.Width(h));
            if h != s.dst then ctx.Read(DirectStep(ctx, mem, s).0, h) == ctx.Read(mem, h)
            else match s
              case ModifyConst(_, c) => now == Nat(c) % q
              case ModifyParam(_, p) => now == Nat(p) % q
              case AddConst(_, c) => now == (Nat(ctx.Read(mem, h)) + Nat(c)) % q
              case AddFrom(_, src) => now == (Nat(ctx.Read(mem, h)) + Nat(ctx.Read(mem, src))) % q
              case ModifyFrom(_, src, mask) =>
                !ctx.SameClass(h, src) ==> now == Nat(And(ctx.Read(mem, src), MaskBits(mask))) % q
              case _ => true
  {
    hide ReadField, WriteField, Nat, Pow2, ToWord, CopyBits, MaskBits, And;
    var w := ctx.Width(s.dst);
    match s
    case ModifyConst(dst, c) =>
      ReadOfWrite(ctx, mem, dst, Reduced(c, w), h);
      ReducedTwice(Nat(c), w);
    case ModifyParam(dst, p) => ReadOfWrite(ctx, mem, dst, p, h);
    case AddConst(dst, c) =>
      ReadOfWrite(ctx, mem, dst, SumIn(ctx.Read(mem, dst), c, w), h);
      ReducedTwice(Nat(ctx.Read(mem, dst)) + Nat(c), w);
    case AddFrom(dst, src) =>
      ReadOfWrite(ctx, mem, dst, SumIn(ctx.Read(mem, src), ctx.Read(mem, dst), w), h);
      ReducedTwice(Nat(ctx.Read(mem, src)) + Nat(ctx.Read(mem, dst)), w);
    case ModifyFrom(dst, src, mask) =>
      if ctx.SameClass(dst, src) {
        if h != dst {
          CopyWrites(ctx, mem, dst, src, mask);
          WriteKeepsOthers(HostBits, mem, ctx.fields[dst],
                           MaskedValue(ctx.fields[dst], ReadField(HostBits, mem, ctx.fields[src]), mask),
                           AutoEncoding(ctx.fields[h]), ctx.fields[h]);
        }
      } else {
        ReadOfWrite(ctx, mem, dst, And(ctx.Read(mem, src), MaskBits(mask)), h);
      }
  }

  lemma ReducedTwice(n: nat, w: nat)
    requires w <= 32
    ensures Nat(ToWord(n % Pow2(w))) % Pow2(w) == n % Pow2(w)
  {
    NatOfBits(n % Pow2(w), 32);
    ResidueOfResidue(n % Pow2(w), w, 32);
    ResidueOfResidue(n, w, w);
  }

  // ----- the write-back -----

  /** update_packet, bit by bit: a marked slot overrides its field, everything else stays. */
  lemma {:induction false} FlushAt(ctx: Context, g: State, n: nat, p: nat)
    requires ctx.WellFormed() && Slots(ctx, g) && n <= |ctx.fields| && p < 8 * ctx.size
    requires g.marked * ctx.cached <= ctx.present
    ensures forall f :: 0 <= f < n && f in ctx.cached && f in g.marked && ctx.fields[f].Covers(p) ==>
              && 0 <= BitAt(AutoEncoding(ctx.fields[f]), ctx.fields[f], p) < ctx.Width(f)
              && NetBit(Flush(ctx, g, n), p) == g.cache[f][BitAt(AutoEncoding(ctx.fields[f]), ctx.fields[f], p)]
    ensures (forall f :: 0 <= f < n && f in ctx.cached && f in g.marked ==> !ctx.fields[f].Covers(p)) ==>
              NetBit(Flush(ctx, g, n), p) == NetBit(g.mem, p)
  {
    hide NetBit, BitAt, Context.Write, AutoEncoding, FieldDesc.Start;
    if n > 0 {
      FlushAt(ctx, g, n - 1, p);
      if n - 1 in ctx.cached && n - 1 in g.marked {
        WriteAt(ctx, Flush(ctx, g, n - 1), n - 1, g.cache[n - 1], p);
      }
    }
  }

  /** After update_packet every slot's field reads the slot modulo 2^width, other fields read memory. */
  lemma ReadAfterFlush(ctx: Context, g: State, f: nat)
    requires ctx.WellFormed() && Slots(ctx, g) && f in ctx.present
    requires g.marked * ctx.cached <= ctx.present
    ensures ctx.Read(Flush(ctx, g, |ctx.fields|), f)
            == if f in ctx.cached && f in g.marked then Low(g.cache[f], ctx.Width(f)) else ctx.Read(g.mem, f)
  {
    hide NetBit, BitAt, PositionOf, ReadField, Flush;
    var n, d, mem := |ctx.fields|, ctx.fields[f], Flush(ctx, g, |ctx.fields|);
    if f in ctx.cached && f in g.marked {
      forall k | 0 <= k < 32 ensures ctx.Read(mem, f)[k] == Low(g.cache[f], ctx.Width(f))[k] {
        ReadFieldAt(AutoEncoding(d), mem, d, k);
        if k < d.bitWidth {
          PositionsCoverTheField(AutoEncoding(d), d, k, 0);
          FlushAt(ctx, g, n, PositionOf(AutoEncoding(d), d, k));
        }
      }
    } else {
      forall p | 0 <= p < 8 * ctx.size && d.Covers(p) ensures NetBit(mem, p) == NetBit(g.mem, p) {
        FlushAt(ctx, g, n, p);
      }
      ReadDependsOnItsBits(AutoEncoding(d), g.mem, mem, d);
    }
  }
}

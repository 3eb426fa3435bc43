/** When the cache is invisible. The condition is computed from the steps of a program: which slots
    they flag, which bits of a slot they can change, and what reads or writes packet memory beside
    the slots. Under it the generated code refines direct execution. */
module CacheCoherence {
  import Basics
  import opened Words
  import opened FieldMacros
  import opened HeaderRecord
  import opened FieldCache

  // ----- what single steps do to slots -----

  /** Assigning through the slot of f, the step can make bit k differ from the loaded word: any bit
      of the field by an assignment, a bit above the field only if a constant, a mask or a carry
      reaches it. */
  predicate Moves(ctx: Context, s: Step, f: nat, k: nat)
    requires ctx.WellFormed() && ctx.Runs(s) && f in Touches(ctx, s) && k < 32
  {
    match s
    case ModifyConst(_, c) => k < ctx.Width(f) || c[k]
    case ModifyFrom(dst, src, mask) => f == dst && (k < ctx.Width(f) || (MaskBits(mask)[k] && k < ctx.Width(src)))
    case AddConst(_, c) => Nat(c) % Pow2(k + 1) != 0
    case AddFrom(dst, _) => f == dst
    case _ => false
  }

  /** After the step bit j of the flagged field f may be set. */
  predicate Keeps(ctx: Context, s: Step, f: nat, j: nat)
    requires ctx.WellFormed() && ctx.Runs(s) && f in Touches(ctx, s) && j < 32
  {
    match s
    case ModifyConst(_, c) => c[j]
    case ModifyFrom(dst, src, mask) => f == dst ==> MaskBits(mask)[j] && j < ctx.Width(src)
    case AddFrom(dst, src) => dst == src ==> ctx.Width(f) > 1
    case _ => true
  }

  // ----- what the program does -----

  /** Some step flags the slot of f. */
  ghost predicate Slotted(ctx: Context, program: seq<Step>, f: nat)
    requires ctx.WellFormed()
  {
    exists t :: t in program && ctx.Runs(t) && f in Touches(ctx, t)
  }

  /** Some step changes bit k of the slot of f. */
  ghost predicate CanMove(ctx: Context, program: seq<Step>, f: nat, k: nat)
    requires ctx.WellFormed() && k < 32
  {
    exists t :: t in program && ctx.Runs(t) && f in Touches(ctx, t) && Moves(ctx, t, f, k)
  }

  /** The bit of the field's value that the host-order macros number k. */
  function HostBit(ctx: Context, f: nat, k: nat): (j: nat)
    requires ctx.WellFormed() && f in ctx.present && k < ctx.Width(f)
    ensures j < ctx.Width(f)
  {
    var d := ctx.fields[f];
    PositionsCoverTheField(HostBits, d, k, 0);
    PositionsCoverTheField(AutoEncoding(d), d, 0, PositionOf(HostBits, d, k));
    BitAt(AutoEncoding(d), d, PositionOf(HostBits, d, k))
  }

  /** The bit of src, in host numbering, that a copy brings to bit k of dst: the same one, or one
      further up when a mask meets a one-byte destination. */
  function SourcePlace(ctx: Context, dst: nat, mask: Basics.Option<Word>, k: nat): nat
    requires dst < |ctx.fields|
  {
    k + MaskShift(ctx.fields[dst], mask)
  }

  /** Bit k of dst, in host numbering, is copied from src. */
  predicate Transfers(ctx: Context, dst: nat, src: nat, mask: Basics.Option<Word>, k: nat)
    requires dst < |ctx.fields| && src < |ctx.fields|
  {
    && k < 32 && k < ctx.Width(dst) && MaskBits(mask)[k]
    && SourcePlace(ctx, dst, mask, k) < 32 && SourcePlace(ctx, dst, mask, k) < ctx.Width(src)
  }

  /** Bit k of dst is cleared by the copy, or taken from another place. */
  predicate Hole(ctx: Context, dst: nat, src: nat, mask: Basics.Option<Word>, k: nat)
    requires dst < |ctx.fields| && src < |ctx.fields|
  {
    k < ctx.Width(dst) && !(Transfers(ctx, dst, src, mask, k) && SourcePlace(ctx, dst, mask, k) == k)
  }

  /** A copy on memory may write a field with a live slot only if it just clears bits that are
      clear whenever the slot is flagged; into another field it may only copy bits of src that the
      slot of src cannot have changed. */
  ghost predicate CopyCoherent(ctx: Context, program: seq<Step>, dst: nat, src: nat, mask: Basics.Option<Word>)
    requires ctx.WellFormed() && dst in ctx.present && src in ctx.present
  {
    if Slotted(ctx, program, dst) then
      && (src == dst || forall k: nat :: !Transfers(ctx, dst, src, mask, k))
      && forall k: nat, t :: Hole(ctx, dst, src, mask, k) && t in program && ctx.Runs(t) && dst in Touches(ctx, t) ==>
           !Keeps(ctx, t, dst, HostBit(ctx, dst, k))
    else
      Slotted(ctx, program, src) ==>
        forall k: nat :: Transfers(ctx, dst, src, mask, k) ==>
          !CanMove(ctx, program, src, HostBit(ctx, src, SourcePlace(ctx, dst, mask, k)))
  }

  /** A step that the cache cannot disturb, given the other steps of the program. */
  ghost predicate CoherentStep(ctx: Context, program: seq<Step>, s: Step)
    requires ctx.WellFormed() && ctx.Runs(s)
  {
    match s
    case ModifyConst(_, _) => true
    case ModifyFrom(dst, src, mask) =>
      if ctx.SameClass(dst, src) then CopyCoherent(ctx, program, dst, src, mask)
      else
        Slotted(ctx, program, src) ==>
          forall k: nat :: k < 32 && ctx.Width(src) <= k < ctx.Width(dst) && MaskBits(mask)[k] ==>
            !CanMove(ctx, program, src, k)
    case ModifyParam(dst, _) => !Slotted(ctx, program, dst)
    case AddConst(_, _) => true
    case AddFrom(dst, src) =>
      Slotted(ctx, program, src) ==>
        forall k: nat :: k < 32 && ctx.Width(src) <= k < ctx.Width(dst) ==> !CanMove(ctx, program, src, k)
    case Observe(src) =>
      Slotted(ctx, program, src) ==> forall k: nat :: k < 32 && k < ctx.Width(src) ==> !CanMove(ctx, program, src, k)
    case Digest(src) =>
      forall f, k: nat :: f in ctx.present && Slotted(ctx, program, f) && k < 32 && InDigest(ctx, src, f, k) ==>
        !CanMove(ctx, program, f, k)
  }

  /** Bit k of f lies in a byte that the digest of src copies. */
  predicate InDigest(ctx: Context, src: nat, f: nat, k: nat)
    requires ctx.WellFormed() && src in ctx.present && f in ctx.present
  {
    && k < ctx.Width(f)
    && var d, p := ctx.fields[src], PositionOf(AutoEncoding(ctx.fields[f]), ctx.fields[f], k);
       8 * d.byteAddr <= p < 8 * (d.byteAddr + DigestLength(d))
  }

  /** The steps that can run on a packet with these headers are coherent. */
  ghost predicate CoherentProgram(ctx: Context, program: seq<Step>)
    requires ctx.WellFormed()
  {
    forall t :: t in program && ctx.Runs(t) ==> CoherentStep(ctx, program, t)
  }

  /** A step of the program, with the parameter that the table entry of this packet brings. */
  ghost predicate InProgram(program: seq<Step>, s: Step) {
    s in program || (s.ModifyParam? && exists p :: ModifyParam(s.dst, p) in program)
  }

  ghost predicate RunOf(ctx: Context, program: seq<Step>, run: seq<Step>) {
    forall i :: 0 <= i < |run| ==> InProgram(program, run[i]) && ctx.Names(run[i])
  }

  // ----- the relation between generated and direct state -----

  /** Bit j of f is cleared by some copy onto the live field f. */
  ghost predicate ClearedBit(ctx: Context, program: seq<Step>, f: nat, j: nat)
    requires ctx.WellFormed() && f in ctx.present
  {
    exists src, mask, k: nat :: ModifyFrom(f, src, mask) in program && src in ctx.present && ctx.SameClass(f, src)
      && Hole(ctx, f, src, mask, k) && HostBit(ctx, f, k) == j
  }

  ghost predicate Cleared(ctx: Context, program: seq<Step>, f: nat)
    requires ctx.WellFormed() && f in ctx.present
  {
    exists j: nat :: ClearedBit(ctx, program, f, j)
  }

  /** A flagged slot is the field modulo 2^width, an unflagged field is right in memory. Bits that no
      step moves are right in both places. */
  ghost predicate FieldStands(ctx: Context, program: seq<Step>, g: State, mem: Memory, f: nat)
    requires ctx.WellFormed() && Slots(ctx, g) && ctx.InMemory(mem) && f in ctx.present && f in ctx.cached
  {
    var w, slot, old_, now := ctx.Width(f), g.cache[f], ctx.Read(g.mem, f), ctx.Read(mem, f);
    && (f in g.marked ==> Low(slot, w) == now)
    && (f !in g.marked ==> old_ == now)
    && (f !in g.marked && !Cleared(ctx, program, f) ==> slot == old_)
    && (forall k: nat :: k < 32 && !CanMove(ctx, program, f, k) ==> if k < w then old_[k] == now[k] else !slot[k])
    && (f in g.marked ==> forall j: nat :: j < w && ClearedBit(ctx, program, f, j) ==> !now[j])
  }

  ghost predicate InSlotted(ctx: Context, program: seq<Step>, p: nat)
    requires ctx.WellFormed()
  {
    exists f :: f in ctx.present && Slotted(ctx, program, f) && ctx.fields[f].Covers(p)
  }

  /** The generated state g stands for the packet `mem`. */
  ghost predicate Stands(ctx: Context, program: seq<Step>, g: State, mem: Memory)
    requires ctx.WellFormed()
  {
    && Slots(ctx, g) && ctx.InMemory(mem)
    && (forall f :: f in g.marked && f in ctx.cached ==> f in ctx.present && Slotted(ctx, program, f))
    && (forall p :: 0 <= p < 8 * ctx.size && !InSlotted(ctx, program, p) ==> NetBit(g.mem, p) == NetBit(mem, p))
    && (forall f :: f in ctx.present && f in ctx.cached && Slotted(ctx, program, f) ==>
      FieldStands(ctx, program, g, mem, f))
  }

  // ----- bits of a field in its two numberings -----

  lemma HostBitIs(ctx: Context, mem: Memory, f: nat, k: nat)
    requires ctx.WellFormed() && ctx.InMemory(mem) && f in ctx.present && k < ctx.Width(f)
    ensures ReadField(HostBits, mem, ctx.fields[f])[k] == ctx.Read(mem, f)[HostBit(ctx, f, k)]
  {
    hide ReadField, NetBit, PositionOf, BitAt;
    var d := ctx.fields[f];
    PositionsCoverTheField(HostBits, d, k, 0);
    PositionsCoverTheField(AutoEncoding(d), d, 0, PositionOf(HostBits, d, k));
    ReadFieldAt(HostBits, mem, d, k);
    ReadFieldAt(AutoEncoding(d), mem, d, HostBit(ctx, f, k));
  }

  /** The value a copy writes, and each of its bits. */
  function Brought(ctx: Context, mem: Memory, dst: nat, src: nat, mask: Basics.Option<Word>): Word
    requires ctx.WellFormed() && ctx.InMemory(mem) && dst in ctx.present && src in ctx.present
  {
    MaskedValue(ctx.fields[dst], ReadField(HostBits, mem, ctx.fields[src]), mask)
  }

  lemma CopyWritesBrought(ctx: Context, mem: Memory, dst: nat, src: nat, mask: Basics.Option<Word>)
    requires ctx.WellFormed() && ctx.InMemory(mem) && dst in ctx.present && src in ctx.present
    ensures CopyBits(ctx, mem, dst, src, mask)
            == WriteField(HostBits, mem, ctx.fields[dst], Brought(ctx, mem, dst, src, mask))
  {
    hide CopyBits, WriteField, MaskedValue, ReadField;
    CopyWrites(ctx, mem, dst, src, mask);
  }

  lemma BroughtAt(ctx: Context, mem: Memory, dst: nat, src: nat, mask: Basics.Option<Word>, k: nat)
    requires ctx.WellFormed() && ctx.InMemory(mem) && dst in ctx.present && src in ctx.present && k < ctx.Width(dst)
    ensures Brought(ctx, mem, dst, src, mask)[k]
            == (Transfers(ctx, dst, src, mask, k)
                && ReadField(HostBits, mem, ctx.fields[src])[SourcePlace(ctx, dst, mask, k)])
  {
    hide ReadField, MaskShift, MaskBits;
    var i := SourcePlace(ctx, dst, mask, k);
    if i < 32 {
      hide NetBit;
      ReadFieldAt(HostBits, mem, ctx.fields[src], i);
    }
  }

  /** What a copy leaves in its destination. */
  lemma CopyBitAt(ctx: Context, mem: Memory, dst: nat, src: nat, mask: Basics.Option<Word>, k: nat)
    requires ctx.WellFormed() && ctx.InMemory(mem) && dst in ctx.present && src in ctx.present && k < ctx.Width(dst)
    ensures ctx.Read(CopyBits(ctx, mem, dst, src, mask), dst)[HostBit(ctx, dst, k)]
            == (Transfers(ctx, dst, src, mask, k)
                && ctx.Read(mem, src)[HostBit(ctx, src, SourcePlace(ctx, dst, mask, k))])
  {
    hide ReadField, WriteField, NetBit, HostBit, Low, CopyBits, Brought, SourcePlace;
    var d, v, i := ctx.fields[dst], Brought(ctx, mem, dst, src, mask), SourcePlace(ctx, dst, mask, k);
    CopyWritesBrought(ctx, mem, dst, src, mask);
    HostBitIs(ctx, CopyBits(ctx, mem, dst, src, mask), dst, k);
    ReadAfterWrite(HostBits, mem, d, v);
    LowAt(v, d.bitWidth, k);
    BroughtAt(ctx, mem, dst, src, mask, k);
    if Transfers(ctx, dst, src, mask, k) {
      HostBitIs(ctx, mem, src, i);
    }
  }

  lemma CopyKeepsOthers(ctx: Context, mem: Memory, dst: nat, src: nat, mask: Basics.Option<Word>, f: nat)
    requires ctx.WellFormed() && ctx.InMemory(mem) && dst in ctx.present && src in ctx.present
      && f in ctx.present && f != dst
    ensures ctx.Read(CopyBits(ctx, mem, dst, src, mask), f) == ctx.Read(mem, f)
  {
    hide ReadField, WriteField, CopyBits, Brought;
    var v := Brought(ctx, mem, dst, src, mask);
    CopyWritesBrought(ctx, mem, dst, src, mask);
    WriteKeepsOthers(HostBits, mem, ctx.fields[dst], v, AutoEncoding(ctx.fields[f]), ctx.fields[f]);
  }

  /** A shifted copy of a field onto itself has no bit in place. */
  lemma ShiftLeavesHoles(ctx: Context, dst: nat, mask: Basics.Option<Word>, k: nat)
    requires dst < |ctx.fields| && Transfers(ctx, dst, dst, mask, k) && SourcePlace(ctx, dst, mask, k) != k
    ensures Hole(ctx, dst, dst, mask, k)
    ensures Hole(ctx, dst, dst, mask, SourcePlace(ctx, dst, mask, k))
  {
  }

  /** A copy that would only clear clear bits changes nothing. */
  lemma IdleCopy(ctx: Context, mem: Memory, dst: nat, src: nat, mask: Basics.Option<Word>)
    requires ctx.WellFormed() && ctx.InMemory(mem) && dst in ctx.present && src in ctx.present
    requires src == dst || forall k: nat :: !Transfers(ctx, dst, src, mask, k)
    requires forall k: nat :: Hole(ctx, dst, src, mask, k) ==> !ctx.Read(mem, dst)[HostBit(ctx, dst, k)]
    ensures CopyBits(ctx, mem, dst, src, mask) == mem
  {
    hide ReadField, WriteField, NetBit, BitAt, PositionOf, HostBit, CopyBits, Brought, SourcePlace;
    var d, v := ctx.fields[dst], Brought(ctx, mem, dst, src, mask);
    var mem' := CopyBits(ctx, mem, dst, src, mask);
    CopyWritesBrought(ctx, mem, dst, src, mask);
    forall p | 0 <= p < 8 * |mem| ensures NetBit(mem', p) == NetBit(mem, p) {
      WriteFieldAt(HostBits, mem, d, v, p);
      if d.Covers(p) {
        PositionsCoverTheField(HostBits, d, 0, p);
        var k: nat := BitAt(HostBits, d, p);
        ReadFieldAt(HostBits, mem, d, k);
        HostBitIs(ctx, mem, dst, k);
        BroughtAt(ctx, mem, dst, src, mask, k);
        if Transfers(ctx, dst, src, mask, k) {
          HostBitIs(ctx, mem, src, SourcePlace(ctx, dst, mask, k));
          if SourcePlace(ctx, dst, mask, k) != k {
            ShiftLeavesHoles(ctx, dst, mask, k);
          }
        }
      }
    }
    BitsDetermineMemory(mem', mem);
  }

  // ----- one field at a time -----

  lemma TouchedIsSlotted(ctx: Context, program: seq<Step>, s: Step, f: nat)
    requires ctx.WellFormed() && s in program && ctx.Runs(s) && f in Touches(ctx, s)
    ensures f in ctx.present && f in ctx.cached && Slotted(ctx, program, f)
  {
  }

  lemma UncachedIsUnslotted(ctx: Context, program: seq<Step>, f: nat)
    requires ctx.WellFormed() && f !in ctx.cached
    ensures !Slotted(ctx, program, f)
  {
  }

  ghost predicate CopiesCoherent(ctx: Context, program: seq<Step>)
    requires ctx.WellFormed()
  {
    forall dst, src, mask |
      ModifyFrom(dst, src, mask) in program && ctx.Runs(ModifyFrom(dst, src, mask)) && ctx.SameClass(dst, src) ::
      CopyCoherent(ctx, program, dst, src, mask)
  }

  /** What a flagging step leaves is clear wherever a copy clears. */
  lemma ClearedIsNotKept(ctx: Context, program: seq<Step>, s: Step, f: nat, j: nat)
    requires ctx.WellFormed() && CopiesCoherent(ctx, program) && s in program && ctx.Runs(s) && f in Touches(ctx, s)
    requires f in ctx.present && j < ctx.Width(f) <= 32 && ClearedBit(ctx, program, f, j)
    ensures !Keeps(ctx, s, f, j)
  {
    hide HostBit, Keeps, Touches;
    var src, mask, k: nat :| ModifyFrom(f, src, mask) in program && src in ctx.present && ctx.SameClass(f, src)
      && Hole(ctx, f, src, mask, k) && HostBit(ctx, f, k) == j;
    assert ctx.Runs(ModifyFrom(f, src, mask));
    assert CopyCoherent(ctx, program, f, src, mask);
    assert Slotted(ctx, program, f);
  }

  lemma ReadersAreFresh(ctx: Context, program: seq<Step>, s: Step, f: nat)
    requires ctx.WellFormed() && CopiesCoherent(ctx, program) && s in program && ctx.Runs(s) && f in Touches(ctx, s)
    requires f in ctx.present && forall j: nat :: j < ctx.Width(f) ==> Keeps(ctx, s, f, j)
    ensures !Cleared(ctx, program, f)
  {
    hide Keeps, Touches;
    if Cleared(ctx, program, f) {
      var j: nat :| ClearedBit(ctx, program, f, j);
      ClearedIsNotKept(ctx, program, s, f, j);
    }
  }

  lemma UnslottedReadsAgree(ctx: Context, program: seq<Step>, g: State, mem: Memory, enc: Encoding, f: nat)
    requires ctx.WellFormed() && Stands(ctx, program, g, mem) && f in ctx.present && !Slotted(ctx, program, f)
    ensures ReadField(enc, g.mem, ctx.fields[f]) == ReadField(enc, mem, ctx.fields[f])
  {
    hide ReadField, NetBit, Slotted, FieldStands;
    forall p | 0 <= p < 8 * ctx.size && ctx.fields[f].Covers(p) ensures NetBit(g.mem, p) == NetBit(mem, p) {
      assert !InSlotted(ctx, program, p);
    }
    ReadDependsOnItsBits(enc, mem, g.mem, ctx.fields[f]);
  }

  /** Reading through the cache. */
  lemma FetchAgrees(ctx: Context, program: seq<Step>, g: State, mem: Memory, f: nat)
    requires ctx.WellFormed() && Stands(ctx, program, g, mem) && f in ctx.present
    requires f in ctx.cached ==> Slotted(ctx, program, f) && !Cleared(ctx, program, f)
    ensures Stands(ctx, program, Fetch(ctx, g, f).0, mem)
    ensures Low(Fetch(ctx, g, f).1, ctx.Width(f)) == ctx.Read(mem, f)
    ensures f !in ctx.cached ==> Fetch(ctx, g, f).1 == ctx.Read(mem, f)
  {
    hide ReadField, NetBit, Slotted, CanMove, ClearedBit, InSlotted, Low;
    ReadBound(ctx, mem, f);
    ReadBound(ctx, g.mem, f);
    if f !in ctx.cached {
      UncachedIsUnslotted(ctx, program, f);
      UnslottedReadsAgree(ctx, program, g, mem, AutoEncoding(ctx.fields[f]), f);
    } else {
      assert FieldStands(ctx, program, g, mem, f);
    }
  }

  /** The clause for f speaks of f in memory, its slot and its flag. */
  lemma FieldStandsStill(ctx: Context, program: seq<Step>, g: State, mem: Memory, g': State, mem': Memory, f: nat)
    requires ctx.WellFormed() && Slots(ctx, g) && ctx.InMemory(mem) && Slots(ctx, g') && ctx.InMemory(mem')
    requires f in ctx.present && f in ctx.cached && FieldStands(ctx, program, g, mem, f)
    requires ctx.Read(g'.mem, f) == ctx.Read(g.mem, f) && ctx.Read(mem', f) == ctx.Read(mem, f)
    requires g'.cache[f] == g.cache[f] && (f in g'.marked <==> f in g.marked)
    ensures FieldStands(ctx, program, g', mem', f)
  {
    hide Context.Read, CanMove, ClearedBit, Cleared, Low;
  }

  /** Memory under a field without a live slot is written alike in both worlds. */
  lemma WriteUnslotted(ctx: Context, program: seq<Step>, g: State, mem: Memory, enc: Encoding, f: nat, v: Word,
          v': Word)
    requires ctx.WellFormed() && Stands(ctx, program, g, mem) && f in ctx.present && !Slotted(ctx, program, f)
    requires Low(v, ctx.Width(f)) == Low(v', ctx.Width(f))
    ensures Stands(ctx, program, g.(mem := WriteField(enc, g.mem, ctx.fields[f], v)),
                   WriteField(enc, mem, ctx.fields[f], v'))
  {
    hide ReadField, WriteField, NetBit, BitAt, Slotted, FieldStands, Low;
    var d := ctx.fields[f];
    var g', mem' := g.(mem := WriteField(enc, g.mem, d, v)), WriteField(enc, mem, d, v');
    forall h | h in ctx.present && h in ctx.cached && Slotted(ctx, program, h)
      ensures FieldStands(ctx, program, g', mem', h)
    {
      WriteKeepsOthers(enc, mem, d, v', AutoEncoding(ctx.fields[h]), ctx.fields[h]);
      WriteKeepsOthers(enc, g.mem, d, v, AutoEncoding(ctx.fields[h]), ctx.fields[h]);
      FieldStandsStill(ctx, program, g, mem, g', mem', h);
    }
    forall p | 0 <= p < 8 * ctx.size && !InSlotted(ctx, program, p) ensures NetBit(g'.mem, p) == NetBit(mem', p) {
      WriteFieldAt(enc, mem, d, v', p);
      WriteFieldAt(enc, g.mem, d, v, p);
      if d.Covers(p) {
        LowAt(v, d.bitWidth, BitAt(enc, d, p));
        LowAt(v', d.bitWidth, BitAt(enc, d, p));
      }
    }
  }

  lemma WrittenSlotStands(ctx: Context, program: seq<Step>, g: State, mem: Memory, f: nat, v: Word, v': Word)
    requires ctx.WellFormed() && Slots(ctx, g) && ctx.InMemory(mem) && f in ctx.present && f in ctx.cached
    requires FieldStands(ctx, program, g, mem, f) && Low(v, ctx.Width(f)) == Low(v', ctx.Width(f))
    requires forall k: nat :: k < 32 && !CanMove(ctx, program, f, k) ==>
      if k < ctx.Width(f) then v'[k] == ctx.Read(mem, f)[k] else v[k] ==> g.cache[f][k]
    requires forall j: nat :: j < ctx.Width(f) && ClearedBit(ctx, program, f, j) ==> !v'[j]
    ensures FieldStands(ctx, program, Assign(ctx, g, f, v), ctx.Write(mem, f, v'), f)
  {
    hide ReadField, WriteField, CanMove, ClearedBit, Low;
    ReadOfWrite(ctx, mem, f, v', f);
    forall k: nat | k < ctx.Width(f) ensures Low(v', ctx.Width(f))[k] == v'[k] {
      LowAt(v', ctx.Width(f), k);
    }
  }

  /** The slot of f takes a value that agrees modulo 2^width, moves only bits that the program can
      move, and is clear where copies clear. */
  lemma WriteSlot(ctx: Context, program: seq<Step>, g: State, mem: Memory, f: nat, v: Word, v': Word)
    requires ctx.WellFormed() && Stands(ctx, program, g, mem) && f in ctx.present && f in ctx.cached
      && Slotted(ctx, program, f)
    requires Low(v, ctx.Width(f)) == Low(v', ctx.Width(f))
    requires forall k: nat :: k < 32 && !CanMove(ctx, program, f, k) ==>
      if k < ctx.Width(f) then v'[k] == ctx.Read(mem, f)[k] else v[k] ==> g.cache[f][k]
    requires forall j: nat :: j < ctx.Width(f) && ClearedBit(ctx, program, f, j) ==> !v'[j]
    ensures Stands(ctx, program, Assign(ctx, g, f, v), ctx.Write(mem, f, v'))
  {
    hide ReadField, WriteField, NetBit, BitAt, Slotted, FieldStands, CanMove, ClearedBit, Low;
    var g', mem' := Assign(ctx, g, f, v), ctx.Write(mem, f, v');
    forall h | h in ctx.present && h in ctx.cached && Slotted(ctx, program, h)
      ensures FieldStands(ctx, program, g', mem', h)
    {
      ReadOfWrite(ctx, mem, f, v', h);
      if h == f {
        WrittenSlotStands(ctx, program, g, mem, f, v, v');
      } else {
        FieldStandsStill(ctx, program, g, mem, g', mem', h);
      }
    }
    forall p | 0 <= p < 8 * ctx.size && !InSlotted(ctx, program, p) ensures NetBit(g'.mem, p) == NetBit(mem', p) {
      WriteAt(ctx, mem, f, v', p);
    }
  }

  /** Assigning to dst in step s. */
  lemma AssignAgrees(ctx: Context, program: seq<Step>, g: State, mem: Memory, s: Step, dst: nat, v: Word, v': Word)
    requires ctx.WellFormed() && Stands(ctx, program, g, mem) && CopiesCoherent(ctx, program)
    requires s in program && ctx.Runs(s) && dst in ctx.present && (dst in ctx.cached ==> dst in Touches(ctx, s))
    requires Low(v, ctx.Width(dst)) == Low(v', ctx.Width(dst))
    requires dst in ctx.cached ==> forall k: nat :: k < 32 && !Moves(ctx, s, dst, k) ==>
      if k < ctx.Width(dst) then v'[k] == ctx.Read(mem, dst)[k] else v[k] ==> g.cache[dst][k]
    requires dst in ctx.cached ==> forall j: nat :: j < ctx.Width(dst) && !Keeps(ctx, s, dst, j) ==> !v'[j]
    ensures Stands(ctx, program, Assign(ctx, g, dst, v), ctx.Write(mem, dst, v'))
  {
    if dst in ctx.cached {
      TouchedIsSlotted(ctx, program, s, dst);
      hide Stands, CopiesCoherent, Context.Read, Context.Write, Touches, Keeps, Moves, Low;
      forall j: nat | j < ctx.Width(dst) && ClearedBit(ctx, program, dst, j) ensures !v'[j] {
        ClearedIsNotKept(ctx, program, s, dst, j);
      }
      forall k: nat | k < 32 && !CanMove(ctx, program, dst, k) ensures !Moves(ctx, s, dst, k) {
      }
      WriteSlot(ctx, program, g, mem, dst, v, v');
    } else {
      UncachedIsUnslotted(ctx, program, dst);
      hide Stands, CopiesCoherent, Touches, Keeps, Moves, Low, WriteField, ReadField;
      WriteUnslotted(ctx, program, g, mem, AutoEncoding(ctx.fields[dst]), dst, v, v');
    }
  }

  // ----- the steps -----

  lemma ConstStepAgrees(ctx: Context, program: seq<Step>, g: State, mem: Memory, dst: nat, c: Word)
    requires ctx.WellFormed() && Stands(ctx, program, g, mem) && CopiesCoherent(ctx, program)
    requires ModifyConst(dst, c) in program && dst in ctx.present
    ensures Stands(ctx, program, Assign(ctx, g, dst, c), ctx.Write(mem, dst, Reduced(c, ctx.Width(dst))))
  {
    var w := ctx.Width(dst);
    var v' := Reduced(c, w);
    LowOfReduced(c, w);
    hide Stands, CopiesCoherent, Context.Read, Context.Write, Nat, Low, Reduced;
    forall k: nat | k < w ensures v'[k] == c[k] {
      LowAt(c, w, k);
      LowAt(v', w, k);
    }
    AssignAgrees(ctx, program, g, mem, ModifyConst(dst, c), dst, c, v');
  }

  lemma LowOfReduced(c: Word, w: nat)
    requires w <= 32
    ensures Low(Reduced(c, w), w) == Low(c, w)
  {
    hide Pow2, Nat, Low, ToWord;
    ConstAgrees(c, w);
    SameResidueSameBits(c, Reduced(c, w), w);
  }

  /** Adding a multiple of 2^n keeps the n low bits. */
  lemma AddKeepsLowBits(c: Word, x: Word, n: nat)
    requires n <= 32 && Nat(c) % Pow2(n) == 0
    ensures Low(AddWords(c, x), n) == Low(x, n)
  {
    hide Pow2, Nat, Low;
    NatOfSum(c, x, n);
    AddMultiple(Nat(c), Nat(x), Pow2(n));
    SameResidueSameBits(AddWords(c, x), x, n);
  }

  lemma NatOfSum(x: Word, y: Word, w: nat)
    requires w <= 32
    ensures Nat(AddWords(x, y)) % Pow2(w) == (Nat(x) + Nat(y)) % Pow2(w)
  {
    hide Pow2, Nat;
    NatOfBits(Nat(x) + Nat(y), 32);
    ResidueOfResidue(Nat(x) + Nat(y), w, 32);
  }

  lemma AddMultiple(a: nat, b: nat, m: nat)
    requires m >= 1 && a % m == 0
    ensures (a + b) % m == b % m
  {
    assert a + b == (a / m + b / m) * m + b % m;
    ModUnique(a + b, m, a / m + b / m, b % m);
  }

  /** The sum of a slot with c: bits below the lowest set bit of c stay, bits of the field are those
      of the sum modulo 2^w. */
  lemma SumBits(c: Word, slot: Word, a: Word, w: nat, v: Word, v': Word)
    requires w <= 32 && Low(slot, w) == a && Low(v, w) == Low(v', w) && v == AddWords(c, slot)
    ensures forall k: nat :: k < 32 && Nat(c) % Pow2(k + 1) == 0 ==> v[k] == slot[k]
    ensures forall k: nat :: k < w ==> v[k] == v'[k] && slot[k] == a[k]
  {
    hide Pow2, Nat, ToWord, Low, AddWords;
    forall k: nat | k < 32 && Nat(c) % Pow2(k + 1) == 0 ensures v[k] == slot[k] {
      AddKeepsLowBits(c, slot, k + 1);
      LowAt(v, k + 1, k);
      LowAt(slot, k + 1, k);
    }
    forall k: nat | k < w ensures v[k] == v'[k] && slot[k] == a[k] {
      LowAt(v, w, k);
      LowAt(v', w, k);
      LowAt(slot, w, k);
    }
  }

  /** Sums of words that agree modulo 2^w agree. */
  lemma SumResidues(x: Word, y: Word, a: Word, b: Word, w: nat)
    requires w <= 32 && Low(x, w) == Low(a, w) && Low(y, w) == Low(b, w)
    ensures Low(AddWords(x, y), w) == Low(SumIn(a, b, w), w) == Low(SumIn(b, a, w), w)
  {
    hide Pow2, Nat, Low, ToWord;
    SameResidueSameBits(x, a, w);
    SameResidueSameBits(y, b, w);
    SumAgrees(x, y, Nat(a), Nat(b), w);
    SameResidueSameBits(AddWords(x, y), SumIn(a, b, w), w);
    assert Nat(a) + Nat(b) == Nat(b) + Nat(a);
  }

  lemma AddConstAgrees(ctx: Context, program: seq<Step>, g: State, mem: Memory, dst: nat, c: Word)
    requires ctx.WellFormed() && Stands(ctx, program, g, mem) && CopiesCoherent(ctx, program)
    requires AddConst(dst, c) in program && dst in ctx.present
    ensures Stands(ctx, program, GeneratedStep(ctx, g, AddConst(dst, c)).0, DirectStep(ctx, mem, AddConst(dst, c)).0)
  {
    hide FieldStands, InSlotted, CopiesCoherent, Slotted, Cleared, Context.Read, Context.Write, Pow2, Nat, Low,
         SumIn, AddWords;
    var s, w, a := AddConst(dst, c), ctx.Width(dst), ctx.Read(mem, dst);
    if dst in ctx.cached {
      TouchedIsSlotted(ctx, program, s, dst);
      ReadersAreFresh(ctx, program, s, dst);
    }
    hide Stands;
    FetchAgrees(ctx, program, g, mem, dst);
    var (g1, res) := Fetch(ctx, g, dst);
    var v, v' := AddWords(c, res), SumIn(a, c, w);
    ReadBound(ctx, mem, dst);
    SumResidues(c, res, c, a, w);
    SumBits(c, res, a, w, v, v');
    AssignAgrees(ctx, program, g1, mem, s, dst, v, v');
  }

  /** A live slot has no bits that no step moves. */
  lemma UnmovedBits(ctx: Context, program: seq<Step>, g: State, mem: Memory, f: nat, k: nat)
    requires ctx.WellFormed() && Stands(ctx, program, g, mem) && f in ctx.present && f in ctx.cached
      && Slotted(ctx, program, f)
    requires k < 32 && !CanMove(ctx, program, f, k)
    ensures if k < ctx.Width(f) then ctx.Read(g.mem, f)[k] == ctx.Read(mem, f)[k] else !g.cache[f][k]
  {
    hide Slotted, CanMove, ClearedBit, Cleared, InSlotted;
    assert FieldStands(ctx, program, g, mem, f);
  }

  /** What reading src for a destination of width wd brings. */
  lemma SourceAgrees(ctx: Context, program: seq<Step>, g: State, mem: Memory, s: Step, src: nat, mask: Word, wd: nat)
    requires ctx.WellFormed() && Stands(ctx, program, g, mem) && CopiesCoherent(ctx, program) && src in ctx.present
    requires s in program && ctx.Runs(s) && wd <= 32
    requires src in ctx.cached ==>
      src in Touches(ctx, s) && forall j: nat :: j < ctx.Width(src) ==> Keeps(ctx, s, src, j)
    requires src in ctx.cached ==>
      forall k: nat :: k < 32 && ctx.Width(src) <= k < wd && mask[k] ==> !CanMove(ctx, program, src, k)
    ensures Stands(ctx, program, Fetch(ctx, g, src).0, mem)
    ensures Low(And(Fetch(ctx, g, src).1, mask), wd) == Low(And(ctx.Read(mem, src), mask), wd)
  {
    if src in ctx.cached {
      TouchedIsSlotted(ctx, program, s, src);
      ReadersAreFresh(ctx, program, s, src);
    }
    hide Stands, CopiesCoherent, Slotted, Cleared, CanMove, Touches, Keeps, Context.Read, Low;
    FetchAgrees(ctx, program, g, mem, src);
    var v, a, ws := Fetch(ctx, g, src).1, ctx.Read(mem, src), ctx.Width(src);
    ReadBound(ctx, mem, src);
    if src in ctx.cached {
      forall k: nat | k < 32 && k < wd ensures And(v, mask)[k] == And(a, mask)[k] {
        LowAt(v, ws, k);
        LowAt(a, ws, k);
        if ws <= k && mask[k] {
          UnmovedBits(ctx, program, g, mem, src, k);
        }
      }
      SameLow(And(v, mask), And(a, mask), wd);
    }
  }

  lemma SameLow(x: Word, y: Word, w: nat)
    requires forall k: nat :: k < 32 && k < w ==> x[k] == y[k]
    ensures Low(x, w) == Low(y, w)
  {
    forall k: nat | k < 32 ensures Low(x, w)[k] == Low(y, w)[k] {
      LowAt(x, w, k);
      LowAt(y, w, k);
    }
  }

  /** A copy between packet and metadata. */
  lemma CrossAgrees(ctx: Context, program: seq<Step>, g: State, mem: Memory, dst: nat, src: nat,
          mask: Basics.Option<Word>)
    requires ctx.WellFormed() && Stands(ctx, program, g, mem) && CopiesCoherent(ctx, program)
    requires ModifyFrom(dst, src, mask) in program && dst in ctx.present && src in ctx.present
      && !ctx.SameClass(dst, src)
    requires CoherentStep(ctx, program, ModifyFrom(dst, src, mask))
    ensures var (g1, v) := Fetch(ctx, g, src);
            Stands(ctx, program, Assign(ctx, g1, dst, And(v, MaskBits(mask))),
                   ctx.Write(mem, dst, And(ctx.Read(mem, src), MaskBits(mask))))
  {
    var s, wd, ws, bits := ModifyFrom(dst, src, mask), ctx.Width(dst), ctx.Width(src), MaskBits(mask);
    if src in ctx.cached {
      TouchedIsSlotted(ctx, program, s, src);
    }
    hide Stands, CopiesCoherent, Slotted, Context.Read, Context.Write, Low, CanMove;
    hide MaskBits;
    SourceAgrees(ctx, program, g, mem, s, src, bits, wd);
    var (g1, v) := Fetch(ctx, g, src);
    var a := ctx.Read(mem, src);
    if dst in ctx.cached {
      FetchAgreesUncached(ctx, program, g, mem, src);
      ReadBound(ctx, mem, src);
      forall k: nat | k < 32 && ws <= k ensures !a[k] {
        LowAt(a, ws, k);
      }
    }
    AssignAgrees(ctx, program, g1, mem, s, dst, And(v, bits), And(a, bits));
  }

  lemma FetchAgreesUncached(ctx: Context, program: seq<Step>, g: State, mem: Memory, f: nat)
    requires ctx.WellFormed() && Stands(ctx, program, g, mem) && f in ctx.present && f !in ctx.cached
    ensures Fetch(ctx, g, f) == (g, ctx.Read(mem, f))
  {
    UncachedIsUnslotted(ctx, program, f);
    hide Stands, ReadField, Slotted;
    UnslottedReadsAgree(ctx, program, g, mem, AutoEncoding(ctx.fields[f]), f);
  }

  lemma LowestBit(n: nat)
    ensures ToWord(n)[0] == (n % 2 == 1)
  {
  }

  /** Doubling a one-bit field clears it, whatever its slot held. */
  lemma DoublingOneBit(x: Word, a: Word)
    ensures !AddWords(x, x)[0] && !SumIn(a, a, 1)[0]
  {
    hide Nat, ToWord;
    LowestBit(Nat(x) + Nat(x));
    LowestBit((Nat(a) + Nat(a)) % Pow2(1));
    assert Pow2(1) == 2 * Pow2(0) == 2;
  }

  lemma DoubleOneBitAgrees(ctx: Context, program: seq<Step>, g: State, mem: Memory, f: nat)
    requires ctx.WellFormed() && Stands(ctx, program, g, mem) && CopiesCoherent(ctx, program)
    requires AddFrom(f, f) in program && f in ctx.present && f in ctx.cached && ctx.Width(f) == 1
    ensures Stands(ctx, program, GeneratedStep(ctx, g, AddFrom(f, f)).0, DirectStep(ctx, mem, AddFrom(f, f)).0)
  {
    var x, a := g.cache[f], ctx.Read(mem, f);
    hide Stands, CopiesCoherent, Context.Read, Context.Write, Low, SumIn, AddWords;
    var v, v' := AddWords(x, x), SumIn(a, a, 1);
    DoublingOneBit(x, a);
    SameLow(v, v', 1);
    AssignAgrees(ctx, program, g, mem, AddFrom(f, f), f, v, v');
    assert GeneratedStep(ctx, g, AddFrom(f, f)).0 == Assign(ctx, g, f, v);
  }

  lemma AddFromAgrees(ctx: Context, program: seq<Step>, g: State, mem: Memory, dst: nat, src: nat)
    requires ctx.WellFormed() && Stands(ctx, program, g, mem) && CopiesCoherent(ctx, program)
    requires AddFrom(dst, src) in program && dst in ctx.present && src in ctx.present
    requires CoherentStep(ctx, program, AddFrom(dst, src)) && !(dst == src && dst in ctx.cached && ctx.Width(dst) == 1)
    ensures Stands(ctx, program, GeneratedStep(ctx, g, AddFrom(dst, src)).0, DirectStep(ctx, mem, AddFrom(dst, src)).0)
  {
    var s, wd := AddFrom(dst, src), ctx.Width(dst);
    var full := Ones(0, 32);
    if src in ctx.cached {
      TouchedIsSlotted(ctx, program, s, src);
    }
    hide Stands, CopiesCoherent, Slotted, Context.Read, Context.Write, Low, CanMove, SumIn, AddWords;
    SourceAgrees(ctx, program, g, mem, s, src, full, wd);
    var (g1, value) := Fetch(ctx, g, src);
    SourceAgrees(ctx, program, g1, mem, s, dst, full, wd);
    var (g2, res) := Fetch(ctx, g1, dst);
    var b, a := ctx.Read(mem, src), ctx.Read(mem, dst);
    AndFull(value);
    AndFull(res);
    AndFull(a);
    AndFull(b);
    SumResidues(value, res, b, a, wd);
    AssignAgrees(ctx, program, g2, mem, s, dst, AddWords(value, res), SumIn(b, a, wd));
  }

  lemma AndFull(x: Word)
    ensures And(x, Ones(0, 32)) == x
  {
  }

  // ----- steps that work on memory -----

  lemma CopyAgrees(ctx: Context, program: seq<Step>, g: State, mem: Memory, dst: nat, src: nat,
          mask: Basics.Option<Word>)
    requires ctx.WellFormed() && Stands(ctx, program, g, mem) && CopiesCoherent(ctx, program)
    requires ModifyFrom(dst, src, mask) in program && dst in ctx.present && src in ctx.present
      && ctx.SameClass(dst, src)
    ensures Stands(ctx, program, g.(mem := CopyBits(ctx, g.mem, dst, src, mask)), CopyBits(ctx, mem, dst, src, mask))
  {
    assert ctx.Runs(ModifyFrom(dst, src, mask));
    assert CopyCoherent(ctx, program, dst, src, mask);
    if Slotted(ctx, program, dst) {
      LiveCopyAgrees(ctx, program, g, mem, dst, src, mask);
    } else {
      assert ctx.InMemory(mem) && ctx.InMemory(g.mem);
      hide Stands, CopiesCoherent, ReadField, WriteField, Slotted, CanMove, Low, HostBit, Brought, CopyBits,
           Transfers, SourcePlace;
      var x, y := Brought(ctx, g.mem, dst, src, mask), Brought(ctx, mem, dst, src, mask);
      forall k: nat | k < 32 && k < ctx.Width(dst) ensures x[k] == y[k] {
        BroughtAt(ctx, g.mem, dst, src, mask, k);
        BroughtAt(ctx, mem, dst, src, mask, k);
        if Transfers(ctx, dst, src, mask, k) {
          SourceBitAgrees(ctx, program, g, mem, dst, src, mask, k);
        }
      }
      SameLow(x, y, ctx.Width(dst));
      WriteUnslotted(ctx, program, g, mem, HostBits, dst, x, y);
      CopyWritesBrought(ctx, mem, dst, src, mask);
      CopyWritesBrought(ctx, g.mem, dst, src, mask);
    }
  }

  lemma SourceBitAgrees(ctx: Context, program: seq<Step>, g: State, mem: Memory, dst: nat, src: nat,
          mask: Basics.Option<Word>, k: nat)
    requires ctx.WellFormed() && Stands(ctx, program, g, mem) && dst in ctx.present && src in ctx.present
    requires Transfers(ctx, dst, src, mask, k)
    requires Slotted(ctx, program, src) ==>
      !CanMove(ctx, program, src, HostBit(ctx, src, SourcePlace(ctx, dst, mask, k)))
    ensures var i := SourcePlace(ctx, dst, mask, k);
            ReadField(HostBits, g.mem, ctx.fields[src])[i] == ReadField(HostBits, mem, ctx.fields[src])[i]
  {
    assert ctx.InMemory(mem) && ctx.InMemory(g.mem);
    var i := SourcePlace(ctx, dst, mask, k);
    hide Stands, ReadField, CanMove, HostBit, SourcePlace;
    if !Slotted(ctx, program, src) {
      UnslottedReadsAgree(ctx, program, g, mem, HostBits, src);
    } else {
      SlottedIsCached(ctx, program, src);
      hide Slotted;
      HostBitIs(ctx, mem, src, i);
      HostBitIs(ctx, g.mem, src, i);
      UnmovedBits(ctx, program, g, mem, src, HostBit(ctx, src, i));
    }
  }

  lemma SlottedIsCached(ctx: Context, program: seq<Step>, f: nat)
    requires ctx.WellFormed() && Slotted(ctx, program, f)
    ensures f in ctx.cached && f in ctx.present
  {
  }

  /** Every bit of the value has a number for the host-order macros. */
  lemma HostBitOnto(ctx: Context, f: nat, j: nat) returns (k: nat)
    requires ctx.WellFormed() && f in ctx.present && j < ctx.Width(f)
    ensures k < ctx.Width(f) && HostBit(ctx, f, k) == j
  {
    hide PositionOf, BitAt;
    var d := ctx.fields[f];
    PositionsCoverTheField(AutoEncoding(d), d, j, 0);
    PositionsCoverTheField(HostBits, d, 0, PositionOf(AutoEncoding(d), d, j));
    k := BitAt(HostBits, d, PositionOf(AutoEncoding(d), d, j));
  }

  /** Copies onto itself, or of nothing, depend on the destination only. */
  lemma CopyDependsOnDst(ctx: Context, mem: Memory, mem': Memory, dst: nat, src: nat, mask: Basics.Option<Word>)
    requires ctx.WellFormed() && ctx.InMemory(mem) && ctx.InMemory(mem') && dst in ctx.present && src in ctx.present
    requires src == dst || forall k: nat :: !Transfers(ctx, dst, src, mask, k)
    requires ctx.Read(mem, dst) == ctx.Read(mem', dst)
    ensures ctx.Read(CopyBits(ctx, mem, dst, src, mask), dst) == ctx.Read(CopyBits(ctx, mem', dst, src, mask), dst)
  {
    hide HostBit, CopyBits, Context.Read, Low, SourcePlace;
    var w, x, y := ctx.Width(dst), ctx.Read(CopyBits(ctx, mem, dst, src, mask), dst),
                   ctx.Read(CopyBits(ctx, mem', dst, src, mask), dst);
    ReadBound(ctx, CopyBits(ctx, mem, dst, src, mask), dst);
    ReadBound(ctx, CopyBits(ctx, mem', dst, src, mask), dst);
    forall j: nat | j < 32 ensures x[j] == y[j] {
      LowAt(x, w, j);
      LowAt(y, w, j);
      if j < w {
        var k := HostBitOnto(ctx, dst, j);
        CopyBitAt(ctx, mem, dst, src, mask, k);
        CopyBitAt(ctx, mem', dst, src, mask, k);
      }
    }
  }

  /** A copy that clears a bit of a live field is coherent only beside steps that assign the whole
      field. */
  lemma HoleMovesAll(ctx: Context, program: seq<Step>, dst: nat, src: nat, mask: Basics.Option<Word>, k: nat, j: nat)
    requires ctx.WellFormed() && dst in ctx.present && src in ctx.present && CopyCoherent(ctx, program, dst, src, mask)
    requires Slotted(ctx, program, dst) && Hole(ctx, dst, src, mask, k) && j < ctx.Width(dst) <= 32
    ensures CanMove(ctx, program, dst, j)
  {
    hide HostBit;
    var t :| t in program && ctx.Runs(t) && dst in Touches(ctx, t);
    assert !Keeps(ctx, t, dst, HostBit(ctx, dst, k));
    assert Moves(ctx, t, dst, j);
  }

  lemma CopyStaysInDst(ctx: Context, mem: Memory, dst: nat, src: nat, mask: Basics.Option<Word>, p: nat)
    requires ctx.WellFormed() && ctx.InMemory(mem) && dst in ctx.present && src in ctx.present
    requires p < 8 * ctx.size && !ctx.fields[dst].Covers(p)
    ensures NetBit(CopyBits(ctx, mem, dst, src, mask), p) == NetBit(mem, p)
  {
    hide ReadField, WriteField, NetBit, BitAt, CopyBits, Brought;
    CopyWritesBrought(ctx, mem, dst, src, mask);
    WriteFieldAt(HostBits, mem, ctx.fields[dst], Brought(ctx, mem, dst, src, mask), p);
  }

  /** On a field with a live slot the copy is idle in the packet, or done alike in both worlds. */
  lemma LiveCopyAgrees(ctx: Context, program: seq<Step>, g: State, mem: Memory, dst: nat, src: nat,
          mask: Basics.Option<Word>)
    requires ctx.WellFormed() && Stands(ctx, program, g, mem) && dst in ctx.present && src in ctx.present
    requires ModifyFrom(dst, src, mask) in program && ctx.SameClass(dst, src)
    requires Slotted(ctx, program, dst) && CopyCoherent(ctx, program, dst, src, mask)
    ensures Stands(ctx, program, g.(mem := CopyBits(ctx, g.mem, dst, src, mask)), CopyBits(ctx, mem, dst, src, mask))
  {
    SlottedIsCached(ctx, program, dst);
    hide ReadField, WriteField, NetBit, FieldStands, CopyBits, CopyCoherent, Slotted;
    var g', mem' := g.(mem := CopyBits(ctx, g.mem, dst, src, mask)), CopyBits(ctx, mem, dst, src, mask);
    LiveCopyKeepsField(ctx, program, g, mem, dst, src, mask);
    forall h | h in ctx.present && h in ctx.cached && Slotted(ctx, program, h)
      ensures FieldStands(ctx, program, g', mem', h)
    {
      if h != dst {
        CopyKeepsOthers(ctx, mem, dst, src, mask, h);
        CopyKeepsOthers(ctx, g.mem, dst, src, mask, h);
        FieldStandsStill(ctx, program, g, mem, g', mem', h);
      }
    }
    forall p | 0 <= p < 8 * ctx.size && !InSlotted(ctx, program, p) ensures NetBit(g'.mem, p) == NetBit(mem', p) {
      CopyStaysInDst(ctx, mem, dst, src, mask, p);
      CopyStaysInDst(ctx, g.mem, dst, src, mask, p);
    }
  }

  lemma LiveCopyKeepsField(ctx: Context, program: seq<Step>, g: State, mem: Memory, dst: nat, src: nat,
          mask: Basics.Option<Word>)
    requires ctx.WellFormed() && Stands(ctx, program, g, mem) && dst in ctx.present && src in ctx.present
      && dst in ctx.cached
    requires ModifyFrom(dst, src, mask) in program && ctx.SameClass(dst, src)
    requires Slotted(ctx, program, dst) && CopyCoherent(ctx, program, dst, src, mask)
    ensures FieldStands(ctx, program, g.(mem := CopyBits(ctx, g.mem, dst, src, mask)),
                        CopyBits(ctx, mem, dst, src, mask), dst)
  {
    hide CopyBits, HostBit, CanMove, Low, Context.Read, Transfers;
    assert FieldStands(ctx, program, g, mem, dst);
    if forall k: nat :: !Hole(ctx, dst, src, mask, k) {
      IdleCopy(ctx, mem, dst, src, mask);
      IdleCopy(ctx, g.mem, dst, src, mask);
    } else {
      var k: nat :| Hole(ctx, dst, src, mask, k);
      forall j: nat | j < ctx.Width(dst) ensures CanMove(ctx, program, dst, j) {
        HoleMovesAll(ctx, program, dst, src, mask, k, j);
      }
      assert ClearedBit(ctx, program, dst, HostBit(ctx, dst, k));
      if dst in g.marked {
        forall k: nat | Hole(ctx, dst, src, mask, k) ensures !ctx.Read(mem, dst)[HostBit(ctx, dst, k)] {
          assert ClearedBit(ctx, program, dst, HostBit(ctx, dst, k));
        }
        IdleCopy(ctx, mem, dst, src, mask);
      } else {
        CopyDependsOnDst(ctx, mem, g.mem, dst, src, mask);
      }
    }
  }

  lemma ParamAgrees(ctx: Context, program: seq<Step>, g: State, mem: Memory, dst: nat, p: Word)
    requires ctx.WellFormed() && Stands(ctx, program, g, mem) && dst in ctx.present && !Slotted(ctx, program, dst)
    ensures Stands(ctx, program, g.(mem := ctx.Write(g.mem, dst, p)), ctx.Write(mem, dst, p))
  {
    assert ctx.InMemory(mem) && ctx.InMemory(g.mem);
    hide Stands, Slotted, WriteField, Low;
    WriteUnslotted(ctx, program, g, mem, AutoEncoding(ctx.fields[dst]), dst, p, p);
  }

  lemma ObserveAgrees(ctx: Context, program: seq<Step>, g: State, mem: Memory, src: nat)
    requires ctx.WellFormed() && Stands(ctx, program, g, mem) && src in ctx.present
    requires CoherentStep(ctx, program, Observe(src))
    ensures ctx.Read(g.mem, src) == ctx.Read(mem, src)
  {
    var w, x, y := ctx.Width(src), ctx.Read(g.mem, src), ctx.Read(mem, src);
    if Slotted(ctx, program, src) {
      SlottedIsCached(ctx, program, src);
      ReadBound(ctx, mem, src);
      ReadBound(ctx, g.mem, src);
      hide Stands, Slotted, CanMove, Context.Read, Low;
      forall k: nat | k < 32 ensures x[k] == y[k] {
        if k < w {
          UnmovedBits(ctx, program, g, mem, src, k);
        } else {
          LowAt(x, w, k);
          LowAt(y, w, k);
        }
      }
    } else {
      hide ReadField, Slotted;
      UnslottedReadsAgree(ctx, program, g, mem, AutoEncoding(ctx.fields[src]), src);
    }
  }

  /** The bytes of a digest agree where no live slot beside them has a bit that moves. */
  lemma DigestAgrees(ctx: Context, program: seq<Step>, g: State, mem: Memory, src: nat)
    requires ctx.WellFormed() && Stands(ctx, program, g, mem) && src in ctx.present
    requires CoherentStep(ctx, program, Digest(src))
    ensures DigestBytes(ctx, g.mem, src) == DigestBytes(ctx, mem, src)
  {
    assert ctx.InMemory(mem) && ctx.InMemory(g.mem);
    hide NetBit, PositionOf, BitAt, CanMove, Slotted, FieldStands, Context.Read;
    var d := ctx.fields[src];
    var a, n := d.byteAddr, DigestLength(d);
    forall p | 8 * a <= p < 8 * (a + n) ensures NetBit(g.mem, p) == NetBit(mem, p) {
      DigestBitAgrees(ctx, program, g, mem, src, p);
    }
    SameLoads(g.mem, mem, a, n);
  }

  lemma SameLoads(mem: Memory, mem': Memory, a: nat, n: nat)
    requires n <= 4 && |mem| == |mem'| && a + n <= |mem|
    requires forall p :: 8 * a <= p < 8 * (a + n) ==> NetBit(mem, p) == NetBit(mem', p)
    ensures Load(mem, a, n) == Load(mem', a, n)
  {
    hide NetBit, Load;
    forall i | 0 <= i < 32 ensures Load(mem, a, n)[i] == Load(mem', a, n)[i] {
      FlipTwice(i);
      FlipStaysInByte(i, n);
      if i < 8 * n {
        LoadAt(mem, a, n, Flip(i));
        LoadAt(mem', a, n, Flip(i));
        assert NetBit(mem, 8 * a + Flip(i)) == NetBit(mem', 8 * a + Flip(i));
      } else {
        LoadAbove(mem, a, n, i);
        LoadAbove(mem', a, n, i);
      }
    }
  }

  lemma LoadAbove(mem: Memory, a: nat, n: nat, i: nat)
    requires a + n <= |mem| && 8 * n <= i < 32
    ensures !Load(mem, a, n)[i]
  {
  }

  lemma DigestBitAgrees(ctx: Context, program: seq<Step>, g: State, mem: Memory, src: nat, p: nat)
    requires ctx.WellFormed() && Stands(ctx, program, g, mem) && src in ctx.present
    requires CoherentStep(ctx, program, Digest(src)) && p < 8 * ctx.size
    requires var d := ctx.fields[src]; 8 * d.byteAddr <= p < 8 * (d.byteAddr + DigestLength(d))
    ensures NetBit(g.mem, p) == NetBit(mem, p)
  {
    hide NetBit, PositionOf, BitAt, CanMove, Slotted, FieldStands, ReadField;
    if InSlotted(ctx, program, p) {
      var f :| f in ctx.present && Slotted(ctx, program, f) && ctx.fields[f].Covers(p);
      var e, enc := ctx.fields[f], AutoEncoding(ctx.fields[f]);
      SlottedIsCached(ctx, program, f);
      PositionsCoverTheField(enc, e, 0, p);
      var k: nat := BitAt(enc, e, p);
      assert InDigest(ctx, src, f, k);
      UnmovedBits(ctx, program, g, mem, f, k);
      ReadFieldAt(enc, mem, e, k);
      ReadFieldAt(enc, g.mem, e, k);
    }
  }

  lemma CopiesOfCoherentProgram(ctx: Context, program: seq<Step>)
    requires ctx.WellFormed() && CoherentProgram(ctx, program)
    ensures CopiesCoherent(ctx, program)
  {
    hide CopyCoherent, Context.SameClass;
    forall dst, src, mask | ModifyFrom(dst, src, mask) in program && ctx.Runs(ModifyFrom(dst, src, mask))
      && ctx.SameClass(dst, src)
      ensures CopyCoherent(ctx, program, dst, src, mask)
    {
      assert CoherentStep(ctx, program, ModifyFrom(dst, src, mask));
    }
  }

  /** Every step of a coherent program keeps the relation and sees what the direct step sees. */
  lemma StepAgrees(ctx: Context, program: seq<Step>, g: State, mem: Memory, s: Step)
    requires ctx.WellFormed() && Stands(ctx, program, g, mem) && CoherentProgram(ctx, program)
    requires InProgram(program, s) && ctx.Runs(s)
    ensures Stands(ctx, program, GeneratedStep(ctx, g, s).0, DirectStep(ctx, mem, s).0)
    ensures GeneratedStep(ctx, g, s).1 == DirectStep(ctx, mem, s).1
  {
    CopiesOfCoherentProgram(ctx, program);
    if s in program {
      assert CoherentStep(ctx, program, s);
    }
    hide Stands, CopiesCoherent, CopyCoherent, Context.Read, Context.Write, CopyBits, SumIn, AddWords, Slotted, CanMove,
         DigestBytes;
    match s
    case ModifyConst(dst, c) => ConstStepAgrees(ctx, program, g, mem, dst, c);
    case ModifyFrom(dst, src, mask) =>
      if ctx.SameClass(dst, src) {
        CopyAgrees(ctx, program, g, mem, dst, src, mask);
      } else {
        CrossAgrees(ctx, program, g, mem, dst, src, mask);
      }
    case ModifyParam(dst, p) =>
      var q :| ModifyParam(dst, q) in program;
      assert CoherentStep(ctx, program, ModifyParam(dst, q));
      ParamAgrees(ctx, program, g, mem, dst, p);
    case AddConst(dst, c) => AddConstAgrees(ctx, program, g, mem, dst, c);
    case AddFrom(dst, src) =>
      if dst == src && dst in ctx.cached && ctx.Width(dst) == 1 {
        DoubleOneBitAgrees(ctx, program, g, mem, dst);
      } else {
        AddFromAgrees(ctx, program, g, mem, dst, src);
      }
    case Observe(src) => ObserveAgrees(ctx, program, g, mem, src);
    case Digest(src) => DigestAgrees(ctx, program, g, mem, src);
  }

  lemma {:induction false} RunAgrees(ctx: Context, program: seq<Step>, g: State, mem: Memory, run: seq<Step>)
    requires ctx.WellFormed() && Stands(ctx, program, g, mem) && CoherentProgram(ctx, program)
    requires RunOf(ctx, program, run) && ctx.RunsAll(run)
    ensures Stands(ctx, program, GeneratedRun(ctx, g, run).0, DirectRun(ctx, mem, run).0)
    ensures GeneratedRun(ctx, g, run).1 == DirectRun(ctx, mem, run).1
    decreases |run|
  {
    hide GeneratedStep, DirectStep, CoherentProgram, InProgram;
    if run != [] {
      StepAgrees(ctx, program, g, mem, run[0]);
      RunAgrees(ctx, program, GeneratedStep(ctx, g, run[0]).0, DirectStep(ctx, mem, run[0]).0, run[1..]);
    }
  }

  // ----- whole packets -----

  /** The packet is sent, and what the run saw and left in it is what the direct run does. A run with
      an operand in a header that was not extracted faults, as it would directly on the packet. */
  ghost predicate Refines(ctx: Context, g: State, run: seq<Step>)
    requires ctx.WellFormed() && Slots(ctx, g) && ctx.NamesAll(run)
  {
    if ctx.RunsAll(run) then
      var (mem, seen) := DirectRun(ctx, g.mem, run);
      var out := HandlePacket(ctx, g, run);
      out.Packet? && out.mem == mem && out.seen == seen
    else
      HandlePacket(ctx, g, run) == Fault
  }

  /** Writing back a state that stands for a packet yields that packet, byte for byte. */
  lemma FlushRestores(ctx: Context, program: seq<Step>, g: State, mem: Memory)
    requires ctx.WellFormed() && Stands(ctx, program, g, mem) && g.marked * ctx.cached <= ctx.present
    ensures Flush(ctx, g, |ctx.fields|) == mem
  {
    hide NetBit, ReadField, Flush, CanMove, ClearedBit, Cleared, Slotted, Low;
    var mem' := Flush(ctx, g, |ctx.fields|);
    forall p | 0 <= p < 8 * ctx.size ensures NetBit(mem', p) == NetBit(mem, p) {
      if InSlotted(ctx, program, p) {
        var f :| f in ctx.present && Slotted(ctx, program, f) && ctx.fields[f].Covers(p);
        SlottedIsCached(ctx, program, f);
        ReadAfterFlush(ctx, g, f);
        assert FieldStands(ctx, program, g, mem, f);
        ReadDeterminesBits(AutoEncoding(ctx.fields[f]), mem, mem', ctx.fields[f], p);
      } else {
        FlushAt(ctx, g, |ctx.fields|, p);
      }
    }
    BitsDetermineMemory(mem', mem);
  }

  /** A packet with no flag left for a header it lacks starts in the relation. */
  lemma ParseStands(ctx: Context, program: seq<Step>, g: State)
    requires ctx.WellFormed() && Slots(ctx, g) && g.marked * ctx.cached <= ctx.present
    ensures Stands(ctx, program, Parse(ctx, g), g.mem)
  {
    hide NetBit, ReadField, CanMove, ClearedBit, Cleared, Slotted, Low;
    forall f | f in ctx.present && f in ctx.cached && Slotted(ctx, program, f)
      ensures FieldStands(ctx, program, Parse(ctx, g), g.mem, f)
    {
      ReadBound(ctx, g.mem, f);
      forall k: nat | k < 32 && k >= ctx.Width(f) ensures !ctx.Read(g.mem, f)[k] {
        LowAt(ctx.Read(g.mem, f), ctx.Width(f), k);
      }
    }
  }

  /** For every coherent program, packet, set of extracted headers, leftover descriptor state and
      run of its steps: the packet is handled exactly as if each step had worked on the packet
      itself, unless a flag left over for a header that was not extracted makes the write-back
      fault. */
  lemma CacheRefinesDirect(ctx: Context, program: seq<Step>, g: State, run: seq<Step>)
    requires ctx.WellFormed() && Slots(ctx, g) && CoherentProgram(ctx, program) && RunOf(ctx, program, run)
    ensures if g.marked * ctx.cached <= ctx.present then Refines(ctx, g, run) else HandlePacket(ctx, g, run) == Fault
  {
    FaultsIff(ctx, g, run);
    if g.marked * ctx.cached <= ctx.present && ctx.RunsAll(run) {
      RunsAllIff(ctx, run);
      ParseStands(ctx, program, g);
      RunAgrees(ctx, program, Parse(ctx, g), g.mem, run);
      hide Flush, Stands, CoherentProgram, RunOf, GeneratedRun, DirectRun, Parse;
      FlushRestores(ctx, program, GeneratedRun(ctx, Parse(ctx, g), run).0, DirectRun(ctx, g.mem, run).0);
    }
  }

  /** Programs whose steps flag no slot: parameters and copies inside one class, on cached fields
      too, are always safe. */
  lemma UnflaggedIsCoherent(ctx: Context, program: seq<Step>)
    requires ctx.WellFormed()
    requires forall t :: t in program && ctx.Runs(t) ==> Touches(ctx, t) == {}
    ensures CoherentProgram(ctx, program)
  {
    hide HostBit, CanMove;
    forall t | t in program && ctx.Runs(t) ensures CoherentStep(ctx, program, t) {
      assert forall f :: !Slotted(ctx, program, f);
    }
  }
}

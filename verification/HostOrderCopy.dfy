/** What a copy inside one class means. modify_field between two packet fields moves bits in host
    order; this module says for which fields and masks that assigns the masked value. */
module HostOrderCopy {
  import Basics
  import opened Words
  import opened FieldMacros
  import opened HeaderRecord
  import opened FieldCache
  import opened CacheCoherence
  import opened CacheExactness

  /** The destination reads the masked value of the source, modulo 2^width, on every packet. */
  ghost predicate AssignsValue(ctx: Context, dst: nat, src: nat, mask: Basics.Option<Word>)
    requires ctx.WellFormed() && dst in ctx.present && src in ctx.present
  {
    forall mem | ctx.InMemory(mem) ::
      ctx.Read(CopyBits(ctx, mem, dst, src, mask), dst) == Low(And(ctx.Read(mem, src), MaskBits(mask)), ctx.Width(dst))
  }

  /** Place k of the host encoding carries the bit of the value that an assignment would put there. */
  predicate SamePlace(ctx: Context, dst: nat, src: nat, mask: Basics.Option<Word>, k: nat)
    requires ctx.WellFormed() && dst in ctx.present && src in ctx.present && k < ctx.Width(dst) <= 32
  {
    var j := HostBit(ctx, dst, k);
    if Transfers(ctx, dst, src, mask, k) then
      HostBit(ctx, src, SourcePlace(ctx, dst, mask, k)) == j && MaskBits(mask)[j]
    else
      j >= ctx.Width(src) || !MaskBits(mask)[j]
  }

  ghost predicate SamePlaces(ctx: Context, dst: nat, src: nat, mask: Basics.Option<Word>)
    requires ctx.WellFormed() && dst in ctx.present && src in ctx.present
  {
    forall k: nat :: k < ctx.Width(dst) <= 32 ==> SamePlace(ctx, dst, src, mask, k)
  }

  lemma CopyAssigns(ctx: Context, mem: Memory, dst: nat, src: nat, mask: Basics.Option<Word>)
    requires ctx.WellFormed() && ctx.InMemory(mem) && dst in ctx.present && src in ctx.present
    requires SamePlaces(ctx, dst, src, mask)
    ensures ctx.Read(CopyBits(ctx, mem, dst, src, mask), dst)
            == Low(And(ctx.Read(mem, src), MaskBits(mask)), ctx.Width(dst))
  {
    hide HostBit, CopyBits, Context.Read, Low, SourcePlace, MaskBits;
    var w, x, v := ctx.Width(dst), ctx.Read(CopyBits(ctx, mem, dst, src, mask), dst),
                   And(ctx.Read(mem, src), MaskBits(mask));
    forall j: nat | j < 32 ensures x[j] == Low(v, w)[j] {
      LowAt(v, w, j);
      if j >= w {
        BitAbove(ctx, CopyBits(ctx, mem, dst, src, mask), dst, j);
      } else {
        var k := HostBitOnto(ctx, dst, j);
        CopyBitAt(ctx, mem, dst, src, mask, k);
        assert SamePlace(ctx, dst, src, mask, k);
        if j >= ctx.Width(src) {
          BitAbove(ctx, mem, src, j);
        }
      }
    }
  }

  /** A place that carries another bit shows on some packet. */
  lemma WrongPlace(ctx: Context, dst: nat, src: nat, mask: Basics.Option<Word>, k: nat)
    requires ctx.WellFormed() && dst in ctx.present && src in ctx.present && k < ctx.Width(dst) <= 32
    requires !SamePlace(ctx, dst, src, mask, k)
    ensures !AssignsValue(ctx, dst, src, mask)
  {
    hide HostBit, CopyBits, Context.Read, Low, Base, SourcePlace, MaskBits;
    var j, w := HostBit(ctx, dst, k), ctx.Width(dst);
    var i := if Transfers(ctx, dst, src, mask, k) then HostBit(ctx, src, SourcePlace(ctx, dst, mask, k)) else j;
    var bit := Ones(i, i + 1);
    var mem := Base(ctx, src, bit);
    BaseReads(ctx, src, bit, src);
    LowOfOneBit(i, ctx.Width(src));
    CopyBitAt(ctx, mem, dst, src, mask, k);
    LowAt(And(ctx.Read(mem, src), MaskBits(mask)), w, j);
  }

  /** A copy between two packet fields, or two metadata fields, assigns the masked value on every
      packet if and only if the host encodings of the two fields put its bits in the same places. */
  lemma CopyAssignsIff(ctx: Context, dst: nat, src: nat, mask: Basics.Option<Word>)
    requires ctx.WellFormed() && dst in ctx.present && src in ctx.present
    ensures AssignsValue(ctx, dst, src, mask) <==> SamePlaces(ctx, dst, src, mask)
  {
    hide SamePlace, CopyBits, Context.Read, Low, MaskBits;
    if SamePlaces(ctx, dst, src, mask) {
      forall mem | ctx.InMemory(mem)
        ensures ctx.Read(CopyBits(ctx, mem, dst, src, mask), dst)
                == Low(And(ctx.Read(mem, src), MaskBits(mask)), ctx.Width(dst))
      {
        CopyAssigns(ctx, mem, dst, src, mask);
      }
    } else {
      var k: nat :| k < ctx.Width(dst) <= 32 && !SamePlace(ctx, dst, src, mask, k);
      WrongPlace(ctx, dst, src, mask, k);
    }
  }

  // ----- the cases programs use -----

  /** Metadata, and packet fields inside one byte, number their bits as the value does. */
  predicate Plain(d: FieldDesc) {
    d.meta || d.ByteCount() == 1
  }

  lemma HostBitOfPlain(ctx: Context, f: nat, k: nat)
    requires ctx.WellFormed() && f in ctx.present && k < ctx.Width(f) && Plain(ctx.fields[f])
    ensures HostBit(ctx, f, k) == k
  {
    var d := ctx.fields[f];
    hide PositionOf, BitAt;
    PositionsCoverTheField(HostBits, d, k, 0);
    if !d.meta {
      assert PositionOf(HostBits, d, k) == PositionOf(Network, d, k) by {
        SamePositionInOneByte(d, k);
      }
      PositionsCoverTheField(Network, d, k, 0);
    }
  }

  lemma SamePositionInOneByte(d: FieldDesc, k: nat)
    requires d.Narrow() && d.ByteCount() == 1 && k < d.bitWidth
    ensures PositionOf(HostBits, d, k) == PositionOf(Network, d, k)
  {
    var q := d.BitCount() - 1 - k;
    hide Flip;
    assert 0 <= q < 8 && q / 8 == 0 && q % 8 == q;
    assert Place(Network, d, k) == Flip(q) == 7 - q;
    assert Place(HostBits, d, k) == 7 - q;
  }

  /** The masked value is the shifted one: no mask, or a destination of more bytes, or one that ends
      with its byte. */
  predicate Unshifted(d: FieldDesc, mask: Basics.Option<Word>) {
    mask == Basics.None || d.ByteCount() >= 2 || d.BitCount() == 8
  }

  /** Between metadata fields, and between fields inside one byte, modify_field assigns if and only if
      it does not shift, or its mask has no bit that both fields have. */
  lemma PlainCopyAssignsIff(ctx: Context, dst: nat, src: nat, mask: Basics.Option<Word>)
    requires ctx.WellFormed() && dst in ctx.present && src in ctx.present
    requires Plain(ctx.fields[dst]) && Plain(ctx.fields[src])
    ensures AssignsValue(ctx, dst, src, mask) <==>
      || Unshifted(ctx.fields[dst], mask)
      || forall k: nat :: k < 32 && k < ctx.Width(dst) && k < ctx.Width(src) ==> !MaskBits(mask)[k]
  {
    hide HostBit, AssignsValue, MaskBits, SamePlace, Plain;
    CopyAssignsIff(ctx, dst, src, mask);
    if SamePlaces(ctx, dst, src, mask) {
      forall k: nat | k < 32 && k < ctx.Width(dst) && k < ctx.Width(src) && !Unshifted(ctx.fields[dst], mask)
        ensures !MaskBits(mask)[k]
      {
        assert SamePlace(ctx, dst, src, mask, k);
        PlacesOfPlain(ctx, dst, src, mask, k);
      }
    } else {
      var k: nat :| k < ctx.Width(dst) <= 32 && !SamePlace(ctx, dst, src, mask, k);
      PlacesOfPlain(ctx, dst, src, mask, k);
    }
  }

  /** A shifted copy puts no bit where it belongs. */
  lemma PlacesOfPlain(ctx: Context, dst: nat, src: nat, mask: Basics.Option<Word>, k: nat)
    requires ctx.WellFormed() && dst in ctx.present && src in ctx.present && k < ctx.Width(dst) <= 32
    requires Plain(ctx.fields[dst]) && Plain(ctx.fields[src])
    ensures SamePlace(ctx, dst, src, mask, k) <==>
      Unshifted(ctx.fields[dst], mask) || k >= ctx.Width(src) || !MaskBits(mask)[k]
  {
    hide HostBit, MaskBits;
    HostBitOfPlain(ctx, dst, k);
    if Transfers(ctx, dst, src, mask, k) {
      HostBitOfPlain(ctx, src, SourcePlace(ctx, dst, mask, k));
    }
  }

  /** A masked copy into a one-byte field that starts its byte clears it, when the source is no wider
      than the gap behind the field: a four-bit field masked onto itself, or a flag copied to the
      first bit of a byte. */
  lemma MaskedCopyClears(ctx: Context, mem: Memory, dst: nat, src: nat, m: Word)
    requires ctx.WellFormed() && ctx.InMemory(mem) && dst in ctx.present && src in ctx.present
    requires ctx.fields[dst].ByteCount() == 1 && ctx.Width(src) <= 8 - ctx.fields[dst].BitCount()
    ensures ctx.Read(CopyBits(ctx, mem, dst, src, Basics.Some(m)), dst) == ZERO
  {
    hide HostBit, CopyBits, Context.Read, Low;
    var mask := Basics.Some(m);
    var x := ctx.Read(CopyBits(ctx, mem, dst, src, mask), dst);
    forall j: nat | j < 32 ensures !x[j] {
      if j >= ctx.Width(dst) {
        BitAbove(ctx, CopyBits(ctx, mem, dst, src, mask), dst, j);
      } else {
        var k := HostBitOnto(ctx, dst, j);
        CopyBitAt(ctx, mem, dst, src, mask, k);
      }
    }
    assert x == ZERO;
  }

  /** Counting a one-byte field up and masking it onto itself is incoherent unless the field ends its
      byte, whatever the mask; without a mask it is coherent. */
  lemma MaskedSelfCopyIsIncoherent(ctx: Context, f: nat, c: Word, m: Word)
    requires ctx.WellFormed() && f in ctx.present && f in ctx.cached
    requires ctx.fields[f].ByteCount() == 1 && ctx.fields[f].BitCount() < 8
    ensures !CoherentProgram(ctx, [AddConst(f, c), ModifyFrom(f, f, Basics.Some(m))])
    ensures CoherentProgram(ctx, [AddConst(f, c), ModifyFrom(f, f, Basics.None)])
  {
    hide HostBit, CanMove;
    var add, copy := AddConst(f, c), ModifyFrom(f, f, Basics.Some(m));
    var program := [add, copy];
    assert add in program && ctx.Runs(add) && f in Touches(ctx, add);
    assert program[1] == copy && ctx.Runs(copy);
    assert Hole(ctx, f, f, Basics.Some(m), 0) && Keeps(ctx, add, f, HostBit(ctx, f, 0));
    assert !CopyCoherent(ctx, program, f, f, Basics.Some(m));
    assert !CoherentStep(ctx, program, copy);
  }

  /** Between fields of one shape an unmasked copy assigns. */
  lemma SameShapeCopyAssigns(ctx: Context, dst: nat, src: nat)
    requires ctx.WellFormed() && dst in ctx.present && src in ctx.present
    requires ctx.fields[dst].(byteAddr := 0) == ctx.fields[src].(byteAddr := 0)
    ensures AssignsValue(ctx, dst, src, Basics.None)
  {
    hide HostBit, AssignsValue;
    forall k: nat | k < ctx.Width(dst) <= 32 ensures SamePlace(ctx, dst, src, Basics.None, k) {
      SameShapeSameBits(ctx, dst, src, k);
    }
    CopyAssignsIff(ctx, dst, src, Basics.None);
  }

  lemma HostBitIsOrigin(ctx: Context, f: nat, k: nat)
    requires ctx.WellFormed() && f in ctx.present && k < ctx.Width(f)
    ensures var d := ctx.fields[f]; HostBit(ctx, f, k) == Origin(AutoEncoding(d), d, Place(HostBits, d, k))
  {
    hide Origin, Place, Flip;
    FlipTwice(Place(HostBits, ctx.fields[f], k));
  }

  lemma SameShapeSameBits(ctx: Context, f: nat, h: nat, k: nat)
    requires ctx.WellFormed() && f in ctx.present && h in ctx.present && k < ctx.Width(f)
    requires ctx.fields[f].(byteAddr := 0) == ctx.fields[h].(byteAddr := 0)
    ensures HostBit(ctx, f, k) == HostBit(ctx, h, k)
  {
    hide HostBit;
    HostBitIsOrigin(ctx, f, k);
    HostBitIsOrigin(ctx, h, k);
  }

  /** An aligned 16-bit packet field trades its bytes. */
  lemma HostBitOfShort(ctx: Context, f: nat, k: nat)
    requires ctx.WellFormed() && f in ctx.present && k < 16
    requires ctx.fields[f] == FieldDesc(false, 16, 0, ctx.fields[f].byteAddr)
    ensures HostBit(ctx, f, k) == if k < 8 then k + 8 else k - 8
  {
    hide HostBit;
    HostBitIsOrigin(ctx, f, k);
  }

  /** An eight-bit packet field copied to a 16-bit one reads as 256 times its value. */
  lemma ByteToShortShifts(ctx: Context, mem: Memory, dst: nat, src: nat)
    requires ctx.WellFormed() && ctx.InMemory(mem) && dst in ctx.present && src in ctx.present
    requires ctx.fields[src] == FieldDesc(false, 8, 0, ctx.fields[src].byteAddr)
    requires ctx.fields[dst] == FieldDesc(false, 16, 0, ctx.fields[dst].byteAddr)
    ensures ctx.Read(CopyBits(ctx, mem, dst, src, Basics.None), dst) == Shl(ctx.Read(mem, src), 8)
    ensures !AssignsValue(ctx, dst, src, Basics.None)
  {
    hide HostBit, CopyBits, Context.Read, AssignsValue;
    var a, x := ctx.Read(mem, src), ctx.Read(CopyBits(ctx, mem, dst, src, Basics.None), dst);
    forall j: nat | j < 32 ensures x[j] == Shl(a, 8)[j] {
      if j >= 16 {
        BitAbove(ctx, CopyBits(ctx, mem, dst, src, Basics.None), dst, j);
        BitAbove(ctx, mem, src, j - 8);
      } else {
        var k := if j < 8 then j + 8 else j - 8;
        HostBitOfShort(ctx, dst, k);
        CopyBitAt(ctx, mem, dst, src, Basics.None, k);
        if k < 8 {
          HostBitOfPlain(ctx, src, k);
        }
      }
    }
    HostBitOfShort(ctx, dst, 0);
    HostBitOfPlain(ctx, src, 0);
    assert !SamePlace(ctx, dst, src, Basics.None, 0);
    CopyAssignsIff(ctx, dst, src, Basics.None);
  }
}

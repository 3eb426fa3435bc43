/** Fields in memory. A header whose fields are packed one after another behaves, under the
    access macros, as a record of independent bounded integers. */
module HeaderRecord {
  import Basics
  import opened Words
  import opened FieldMacros

  // ----- the macros on memory -----

  /** EXTRACT_INT32_BITS or EXTRACT_INT32_NTOH on the packet bytes. */
  function ReadField(enc: Encoding, mem: Memory, d: FieldDesc): Word
    requires d.Narrow() && d.InBounds(mem)
  {
    Extract(enc, d, Load(mem, d.byteAddr, d.LoadSize()))
  }

  /** MODIFY_INT32_INT32_BITS or MODIFY_INT32_INT32_HTON: load, merge, copy bytecount bytes back. */
  function WriteField(enc: Encoding, mem: Memory, d: FieldDesc, v: Word): (mem': Memory)
    requires d.Narrow() && d.InBounds(mem)
    ensures |mem'| == |mem|
  {
    Store(mem, d.byteAddr, Modify(enc, d, Load(mem, d.byteAddr, d.LoadSize()), v), d.ByteCount())
  }

  /** Network position that holds bit k of a value. */
  function PositionOf(enc: Encoding, d: FieldDesc, k: nat): nat
    requires d.Narrow() && k < d.bitWidth
  {
    8 * d.byteAddr + Flip(Place(enc, d, k))
  }

  /** The bit of a value kept at network position p. */
  function BitAt(enc: Encoding, d: FieldDesc, p: nat): int
    requires d.Narrow() && d.Covers(p)
  {
    Origin(enc, d, Flip(p - 8 * d.byteAddr))
  }

  // ----- every bit of memory after one access -----

  lemma PositionsCoverTheField(enc: Encoding, d: FieldDesc, k: nat, p: nat)
    requires d.Narrow()
    ensures k < d.bitWidth ==> d.Covers(PositionOf(enc, d, k)) && BitAt(enc, d, PositionOf(enc, d, k)) == k
    ensures d.Covers(p) ==> 0 <= BitAt(enc, d, p) < d.bitWidth && PositionOf(enc, d, BitAt(enc, d, p)) == p
  {
    hide Mask, Place, Origin, Flip;
    if k < d.bitWidth {
      PlaceIsBijection(enc, d, k, 0);
      var i := Place(enc, d, k);
      FlipTwice(i);
      FlipStaysInByte(i, 4);
      MaskAtFlip(d.bitOffset, d.bitWidth, Flip(i));
    }
    if d.Covers(p) {
      var q := p - 8 * d.byteAddr;
      MaskAtFlip(d.bitOffset, d.bitWidth, q);
      PlaceIsBijection(enc, d, 0, Flip(q));
      FlipTwice(q);
    }
  }

  lemma LoadAt(mem: Memory, addr: nat, n: nat, q: nat)
    requires addr + n <= |mem| && n <= 4 && q < 8 * n
    ensures Flip(q) < 32 && Load(mem, addr, n)[Flip(q)] == NetBit(mem, 8 * addr + q)
  {
    assert (8 * addr + q) / 8 == addr + q / 8;
  }

  lemma StoreAt(mem: Memory, addr: nat, res: Word, n: nat, p: nat)
    requires addr + n <= |mem| && n <= 4 && p < 8 * |mem|
    ensures 8 * addr <= p < 8 * (addr + n) ==> Flip(p - 8 * addr) < 32
    ensures NetBit(Store(mem, addr, res, n), p)
            == if 8 * addr <= p < 8 * (addr + n) then res[Flip(p - 8 * addr)] else NetBit(mem, p)
  {
    if 8 * addr <= p < 8 * (addr + n) {
      var q := p - 8 * addr;
      assert p / 8 == addr + q / 8 && p % 8 == q % 8;
    }
  }

  /** A write changes the bits of its own field and no other bit of memory. */
  lemma WriteFieldAt(enc: Encoding, mem: Memory, d: FieldDesc, v: Word, p: nat)
    requires d.Narrow() && d.InBounds(mem) && p < 8 * |mem|
    ensures d.Covers(p) ==> 0 <= BitAt(enc, d, p) < d.bitWidth
    ensures NetBit(WriteField(enc, mem, d, v), p) == if d.Covers(p) then v[BitAt(enc, d, p)] else NetBit(mem, p)
  {
    hide Mask, Origin, Place, Modify, Flip, Load, Store, NetBit;
    var a, x := d.byteAddr, Load(mem, d.byteAddr, d.LoadSize());
    StoreAt(mem, a, Modify(enc, d, x, v), d.ByteCount(), p);
    PositionsCoverTheField(enc, d, 0, p);
    if 8 * a <= p < 8 * (a + d.ByteCount()) {
      var q := p - 8 * a;
      LoadAt(mem, a, d.LoadSize(), q);
      FlipStaysInByte(q, d.ByteCount());
      ModifyAt(enc, d, x, v, Flip(q));
      MaskAtFlip(d.bitOffset, d.bitWidth, q);
    }
  }

  lemma ReadFieldAt(enc: Encoding, mem: Memory, d: FieldDesc, k: nat)
    requires d.Narrow() && d.InBounds(mem) && k < 32
    ensures k < d.bitWidth ==> d.Covers(PositionOf(enc, d, k)) && PositionOf(enc, d, k) < 8 * |mem|
    ensures ReadField(enc, mem, d)[k] == (k < d.bitWidth && NetBit(mem, PositionOf(enc, d, k)))
  {
    hide Mask, Origin, Place, Extract, Flip, Load, NetBit;
    var x := Load(mem, d.byteAddr, d.LoadSize());
    ExtractAt(enc, d, x, k);
    if k < d.bitWidth {
      PositionsCoverTheField(enc, d, k, 0);
      var i := Place(enc, d, k);
      FlipTwice(i);
      FlipStaysInByte(i, d.ByteCount());
      LoadAt(mem, d.byteAddr, d.LoadSize(), Flip(i));
    }
  }

  /** In network order bit k of the value is the k-th bit from the end of the field. */
  lemma NetworkOrder(d: FieldDesc, k: nat)
    requires d.Narrow() && k < d.bitWidth
    ensures PositionOf(Network, d, k) == d.Start() + d.bitWidth - 1 - k
  {
    FlipTwice(d.BitCount() - 1 - k);
  }

  // ----- the laws of one field -----

  /** Reading back returns the value modulo 2^width. */
  lemma ReadAfterWrite(enc: Encoding, mem: Memory, d: FieldDesc, v: Word)
    requires d.Narrow() && d.InBounds(mem)
    ensures ReadField(enc, WriteField(enc, mem, d, v), d) == Low(v, d.bitWidth)
  {
    hide ReadField, WriteField, NetBit, PositionOf, BitAt;
    var mem' := WriteField(enc, mem, d, v);
    forall k | 0 <= k < 32 ensures ReadField(enc, mem', d)[k] == Low(v, d.bitWidth)[k] {
      ReadFieldAt(enc, mem', d, k);
      if k < d.bitWidth {
        PositionsCoverTheField(enc, d, k, 0);
        WriteFieldAt(enc, mem, d, v, PositionOf(enc, d, k));
      }
    }
  }

  /** A read depends only on the bits of its field. */
  lemma ReadDependsOnItsBits(enc: Encoding, mem: Memory, mem': Memory, d: FieldDesc)
    requires d.Narrow() && d.InBounds(mem) && |mem'| == |mem|
    requires forall p :: 0 <= p < 8 * |mem| && d.Covers(p) ==> NetBit(mem', p) == NetBit(mem, p)
    ensures ReadField(enc, mem', d) == ReadField(enc, mem, d)
  {
    hide ReadField, NetBit, PositionOf, BitAt;
    forall k | 0 <= k < 32 ensures ReadField(enc, mem', d)[k] == ReadField(enc, mem, d)[k] {
      ReadFieldAt(enc, mem, d, k);
      ReadFieldAt(enc, mem', d, k);
    }
  }

  /** The value determines the bits of the field: equal reads mean equal bits. */
  lemma ReadDeterminesBits(enc: Encoding, mem: Memory, mem': Memory, d: FieldDesc, p: nat)
    requires d.Narrow() && d.InBounds(mem) && |mem'| == |mem| && p < 8 * |mem| && d.Covers(p)
    requires ReadField(enc, mem', d) == ReadField(enc, mem, d)
    ensures NetBit(mem', p) == NetBit(mem, p)
  {
    hide ReadField, NetBit, PositionOf, BitAt;
    PositionsCoverTheField(enc, d, 0, p);
    ReadFieldAt(enc, mem, d, BitAt(enc, d, p));
    ReadFieldAt(enc, mem', d, BitAt(enc, d, p));
  }

  predicate Disjoint(d: FieldDesc, e: FieldDesc) {
    d.Start() + d.bitWidth <= e.Start() || e.Start() + e.bitWidth <= d.Start()
  }

  /** Writing one field leaves what any disjoint field reads, whatever the encodings. */
  lemma WriteKeepsOthers(enc: Encoding, mem: Memory, d: FieldDesc, v: Word, enc': Encoding, e: FieldDesc)
    requires d.Narrow() && d.InBounds(mem) && e.Narrow() && e.InBounds(mem) && Disjoint(d, e)
    ensures ReadField(enc', WriteField(enc, mem, d, v), e) == ReadField(enc', mem, e)
  {
    hide ReadField, WriteField, NetBit, BitAt;
    var mem' := WriteField(enc, mem, d, v);
    forall p | 0 <= p < 8 * |mem| && e.Covers(p) ensures NetBit(mem', p) == NetBit(mem, p) {
      WriteFieldAt(enc, mem, d, v, p);
    }
    ReadDependsOnItsBits(enc', mem, mem', e);
  }

  /** Memories with the same bits are the same memory. */
  lemma BitsDetermineMemory(mem: Memory, mem': Memory)
    requires |mem| == |mem'|
    requires forall p :: 0 <= p < 8 * |mem| ==> NetBit(mem, p) == NetBit(mem', p)
    ensures mem == mem'
  {
    forall j | 0 <= j < |mem| ensures mem[j] == mem'[j] {
      forall b | 0 <= b < 8 ensures mem[j][b] == mem'[j][b] {
        var p := 8 * j + (7 - b);
        assert p / 8 == j && p % 8 == 7 - b;
        assert NetBit(mem, p) == NetBit(mem', p);
      }
    }
  }

  // ----- headers: fields packed back to back -----

  /** A header instance at a byte address; metadata headers use the host-order encoding. */
  datatype Header = Header(meta: bool, base: nat, widths: seq<nat>)

  function PrefixSum(widths: seq<nat>, i: nat): nat
    requires i <= |widths|
  {
    if i == 0 then 0 else PrefixSum(widths, i - 1) + widths[i - 1]
  }

  /** The widths of a layout whose variable-width field takes v bits. */
  function WidthsWith(layout: seq<Basics.Option<nat>>, v: nat): (widths: seq<nat>)
    ensures |widths| == |layout|
  {
    seq(|layout|, i requires 0 <= i < |layout| => if layout[i] == Basics.None then v else layout[i].value)
  }

  function FixedLength(layout: seq<Basics.Option<nat>>): nat {
    PrefixSum(WidthsWith(layout, 0), |layout|)
  }

  /** The bits that field_offsets reserves for a variable-width field: up to the next byte. */
  function Filler(layout: seq<Basics.Option<nat>>): nat {
    (0 - FixedLength(layout)) % 8
  }

  lemma WidthsPrefix(layout: seq<Basics.Option<nat>>, v: nat, i: nat)
    requires i < |layout|
    ensures PrefixSum(WidthsWith(layout, v), i + 1)
            == PrefixSum(WidthsWith(layout, v), i) + if layout[i] == Basics.None then v else layout[i].value
  {
  }

  lemma StartsAtZero(layout: seq<Basics.Option<nat>>, v: nat)
    ensures PrefixSum(WidthsWith(layout, v), 0) == 0
  {
  }

  /** sum of the fixed widths. */
  method FixedBits(layout: seq<Basics.Option<nat>>) returns (fixedLength: int)
    ensures fixedLength == FixedLength(layout)
  {
    fixedLength := 0;
    for n := 0 to |layout|
      invariant fixedLength == PrefixSum(WidthsWith(layout, 0), n)
    {
      WidthsPrefix(layout, 0, n);
      fixedLength := fixedLength + if layout[n] == Basics.None then 0 else layout[n].value;
    }
  }

  /** field_offsets: prefix sums, with the filler in the place of a variable-width field. */
  method FieldOffsets(layout: seq<Basics.Option<nat>>) returns (offsets: seq<nat>)
    ensures |offsets| == |layout|
    ensures forall i :: 0 <= i < |layout| ==> offsets[i] == PrefixSum(WidthsWith(layout, Filler(layout)), i)
  {
    hide PrefixSum, WidthsWith, FixedLength;
    StartsAtZero(layout, Filler(layout));
    offsets := [];
    var o := 0;
    for n := 0 to |layout|
      invariant |offsets| == n && o == PrefixSum(WidthsWith(layout, Filler(layout)), n)
      invariant forall i :: 0 <= i < n ==> offsets[i] == PrefixSum(WidthsWith(layout, Filler(layout)), i)
    {
      offsets := offsets + [o];
      WidthsPrefix(layout, Filler(layout), n);
      if layout[n] != Basics.None {
        o := o + layout[n].value;
      } else {
        var fixedLength: int := FixedBits(layout);
        o := o + (0 - fixedLength) % 8;
      }
    }
  }

  /** When the actual width v makes the header whole bytes, every field starts in its byte where the
      offset array says, although the array does not know v. */
  lemma {:induction false} BitOffsetsFitAnyWidth(layout: seq<Basics.Option<nat>>, v: nat, i: nat)
    requires (FixedLength(layout) + v) % 8 == 0 && i <= |layout|
    ensures PrefixSum(WidthsWith(layout, v), i) % 8 == PrefixSum(WidthsWith(layout, Filler(layout)), i) % 8
  {
    hide PrefixSum, WidthsWith, Filler;
    if i == 0 {
      StartsAtZero(layout, v);
      StartsAtZero(layout, Filler(layout));
    } else {
      BitOffsetsFitAnyWidth(layout, v, i - 1);
      WidthsPrefix(layout, v, i - 1);
      WidthsPrefix(layout, Filler(layout), i - 1);
      FillerFits(layout, v);
      SumsFit(PrefixSum(WidthsWith(layout, v), i - 1), PrefixSum(WidthsWith(layout, Filler(layout)), i - 1),
              if layout[i - 1] == Basics.None then v else layout[i - 1].value,
              if layout[i - 1] == Basics.None then Filler(layout) else layout[i - 1].value);
    }
  }

  lemma FillerFits(layout: seq<Basics.Option<nat>>, v: nat)
    requires (FixedLength(layout) + v) % 8 == 0
    ensures v % 8 == Filler(layout) % 8
  {
    hide FixedLength;
  }

  lemma DifferByEights(p: nat, q: nat, k: int)
    requires p - q == 8 * k
    ensures p % 8 == q % 8
  {
    assert p / 8 == q / 8 + k;
  }

  lemma SumsFit(a: nat, b: nat, x: nat, y: nat)
    requires a % 8 == b % 8 && x % 8 == y % 8
    ensures (a + x) % 8 == (b + y) % 8
  {
    DifferByEights(a + x, b + y, a / 8 + x / 8 - b / 8 - y / 8);
  }

  /** field_desc: the constant arrays split the bit offset into whole bytes and a remainder. */
  function FieldOf(h: Header, i: nat): FieldDesc
    requires i < |h.widths|
  {
    var o := PrefixSum(h.widths, i);
    FieldDesc(h.meta, h.widths[i], o % 8, h.base + o / 8)
  }

  lemma WidthOfField(h: Header, i: nat)
    requires i < |h.widths|
    ensures FieldOf(h, i).bitWidth == h.widths[i]
  {
  }

  lemma StartOfField(h: Header, i: nat)
    requires i < |h.widths|
    ensures FieldOf(h, i).Start() == 8 * h.base + PrefixSum(h.widths, i)
  {
  }

  lemma {:induction false} PrefixSumMonotone(widths: seq<nat>, i: nat, j: nat)
    requires i <= j <= |widths|
    ensures PrefixSum(widths, i) <= PrefixSum(widths, j)
  {
    if i < j {
      PrefixSumMonotone(widths, i, j - 1);
    }
  }

  /** Prefix-sum offsets never make two fields share a bit. */
  lemma FieldsAreDisjoint(h: Header, i: nat, j: nat)
    requires i < |h.widths| && j < |h.widths| && i != j
    ensures Disjoint(FieldOf(h, i), FieldOf(h, j))
  {
    StartOfField(h, i);
    StartOfField(h, j);
    if i < j {
      PrefixSumMonotone(h.widths, i + 1, j);
    } else {
      PrefixSumMonotone(h.widths, j + 1, i);
    }
  }

  /** The fields the 32-bit macros support, at an address where the load stays in memory. */
  predicate Supported(h: Header, size: nat, i: nat) {
    i < |h.widths| && FieldOf(h, i).Narrow() && FieldOf(h, i).Fits(size)
  }

  datatype Access = Put(i: nat, v: Word) | Get(i: nat)

  ghost predicate InRecord(ops: seq<Access>, n: nat) {
    forall t :: 0 <= t < |ops| ==> ops[t].i < n
  }

  /** The accesses are to supported fields; other fields of the header may be of any width. */
  ghost predicate InHeader(h: Header, size: nat, ops: seq<Access>) {
    forall t :: 0 <= t < |ops| ==> Supported(h, size, ops[t].i)
  }

  /** A run of MODIFY_INT32_INT32_AUTO and EXTRACT_INT32_AUTO: final memory and values read. */
  function RunMacros(h: Header, mem: Memory, ops: seq<Access>): (Memory, seq<nat>)
    requires InHeader(h, |mem|, ops)
    decreases |ops|
  {
    if ops == [] then (mem, []) else
      match ops[0]
      case Put(i, v) =>
        RunMacros(h, WriteField(AutoEncoding(FieldOf(h, i)), mem, FieldOf(h, i), v), ops[1..])
      case Get(i) =>
        var (mem', out) := RunMacros(h, mem, ops[1..]);
        (mem', [Nat(ReadField(AutoEncoding(FieldOf(h, i)), mem, FieldOf(h, i)))] + out)
  }

  /** The same run on a plain record of integers, each kept modulo 2^width. */
  function RunRecord(widths: seq<nat>, rec: seq<nat>, ops: seq<Access>): (seq<nat>, seq<nat>)
    requires |rec| == |widths| && InRecord(ops, |widths|)
    decreases |ops|
  {
    if ops == [] then (rec, []) else
      match ops[0]
      case Put(i, v) => RunRecord(widths, rec[i := Nat(v) % Pow2(widths[i])], ops[1..])
      case Get(i) =>
        var (rec', out) := RunRecord(widths, rec, ops[1..]);
        (rec', [rec[i]] + out)
  }

  /** The record a header holds: the values of its supported fields. */
  ghost predicate Holds(h: Header, mem: Memory, rec: seq<nat>) {
    && |rec| == |h.widths|
    && forall i :: 0 <= i < |rec| && Supported(h, |mem|, i) ==>
         rec[i] == Nat(ReadField(AutoEncoding(FieldOf(h, i)), mem, FieldOf(h, i)))
  }

  lemma PutKeepsRecord(h: Header, mem: Memory, rec: seq<nat>, i: nat, v: Word)
    requires Holds(h, mem, rec) && Supported(h, |mem|, i)
    ensures Holds(h, WriteField(AutoEncoding(FieldOf(h, i)), mem, FieldOf(h, i), v),
                  rec[i := Nat(v) % Pow2(h.widths[i])])
  {
    hide ReadField, WriteField, FieldOf;
    var d := FieldOf(h, i);
    WidthOfField(h, i);
    forall j | 0 <= j < |rec| && Supported(h, |mem|, j)
      ensures rec[i := Nat(v) % Pow2(h.widths[i])][j]
              == Nat(ReadField(AutoEncoding(FieldOf(h, j)), WriteField(AutoEncoding(d), mem, d, v), FieldOf(h, j)))
    {
      if j == i {
        ReadAfterWrite(AutoEncoding(d), mem, d, v);
        NatOfLow(v, d.bitWidth);
      } else {
        FieldsAreDisjoint(h, i, j);
        WriteKeepsOthers(AutoEncoding(d), mem, d, v, AutoEncoding(FieldOf(h, j)), FieldOf(h, j));
      }
    }
  }

  lemma PutStaysInHeader(h: Header, mem: Memory, i: nat, v: Word)
    requires Supported(h, |mem|, i)
    ensures forall p :: 0 <= p < 8 * |mem|
              && !(8 * h.base <= p < 8 * h.base + PrefixSum(h.widths, |h.widths|))
              ==> NetBit(WriteField(AutoEncoding(FieldOf(h, i)), mem, FieldOf(h, i), v), p) == NetBit(mem, p)
  {
    hide WriteField, FieldOf, NetBit;
    var d := FieldOf(h, i);
    StartOfField(h, i);
    WidthOfField(h, i);
    PrefixSumMonotone(h.widths, i + 1, |h.widths|);
    forall p | 0 <= p < 8 * |mem| && !(8 * h.base <= p < 8 * h.base + PrefixSum(h.widths, |h.widths|))
      ensures NetBit(WriteField(AutoEncoding(d), mem, d, v), p) == NetBit(mem, p)
    {
      WriteFieldAt(AutoEncoding(d), mem, d, v, p);
    }
  }

  /** Every run of accesses to supported fields returns and leaves what the record of integers does. */
  lemma {:induction false} HeaderIsARecord(h: Header, mem: Memory, rec: seq<nat>, ops: seq<Access>)
    requires Holds(h, mem, rec) && InHeader(h, |mem|, ops)
    ensures RunMacros(h, mem, ops).1 == RunRecord(h.widths, rec, ops).1
    ensures |RunMacros(h, mem, ops).0| == |mem|
    ensures Holds(h, RunMacros(h, mem, ops).0, RunRecord(h.widths, rec, ops).0)
    decreases |ops|
  {
    hide ReadField, WriteField, FieldOf;
    if ops == [] {
    } else {
      match ops[0]
      case Put(i, v) =>
        PutKeepsRecord(h, mem, rec, i, v);
        HeaderIsARecord(h, WriteField(AutoEncoding(FieldOf(h, i)), mem, FieldOf(h, i), v),
                        rec[i := Nat(v) % Pow2(h.widths[i])], ops[1..]);
      case Get(i) =>
        HeaderIsARecord(h, mem, rec, ops[1..]);
    }
  }

  /** Some access of the run writes a field over position p. */
  ghost predicate PutOver(h: Header, size: nat, ops: seq<Access>, p: nat)
    requires InHeader(h, size, ops)
  {
    exists t :: 0 <= t < |ops| && ops[t].Put? && FieldOf(h, ops[t].i).Covers(p)
  }

  /** ... touches no bit outside the header, and no bit that it does not put. */
  lemma {:induction false} RunStaysInHeader(h: Header, mem: Memory, ops: seq<Access>)
    requires InHeader(h, |mem|, ops)
    ensures |RunMacros(h, mem, ops).0| == |mem|
    ensures forall p :: 0 <= p < 8 * |mem| && !PutOver(h, |mem|, ops, p) ==>
              NetBit(RunMacros(h, mem, ops).0, p) == NetBit(mem, p)
    ensures forall p :: 0 <= p < 8 * |mem|
              && !(8 * h.base <= p < 8 * h.base + PrefixSum(h.widths, |h.widths|))
              ==> NetBit(RunMacros(h, mem, ops).0, p) == NetBit(mem, p)
    decreases |ops|
  {
    hide ReadField, WriteField, FieldOf, NetBit;
    if ops == [] {
    } else {
      forall p | 0 <= p < 8 * |mem| && !PutOver(h, |mem|, ops, p)
        ensures !PutOver(h, |mem|, ops[1..], p) && (ops[0].Put? ==> !FieldOf(h, ops[0].i).Covers(p))
      {
      }
      match ops[0]
      case Put(i, v) =>
        var mem1 := WriteField(AutoEncoding(FieldOf(h, i)), mem, FieldOf(h, i), v);
        PutStaysInHeader(h, mem, i, v);
        forall p | 0 <= p < 8 * |mem| && !FieldOf(h, i).Covers(p) ensures NetBit(mem1, p) == NetBit(mem, p) {
          WriteFieldAt(AutoEncoding(FieldOf(h, i)), mem, FieldOf(h, i), v, p);
        }
        RunStaysInHeader(h, mem1, ops[1..]);
      case Get(i) =>
        RunStaysInHeader(h, mem, ops[1..]);
    }
  }

  /** In a packet header the record's values are the network-order bits at the prefix-sum offsets. */
  lemma RecordIsInNetworkOrder(h: Header, mem: Memory, rec: seq<nat>, i: nat, k: nat)
    requires Holds(h, mem, rec) && !h.meta
    requires Supported(h, |mem|, i) && k < h.widths[i]
    ensures 8 * h.base + PrefixSum(h.widths, i) + h.widths[i] - 1 - k < 8 * |mem|
    ensures NetBit(mem, 8 * h.base + PrefixSum(h.widths, i) + h.widths[i] - 1 - k) == Bits(rec[i], h.widths[i])[k]
  {
    hide ReadField, NetBit, PositionOf;
    var d := FieldOf(h, i);
    StartOfField(h, i);
    ReadFieldAt(Network, mem, d, k);
    NetworkOrder(d, k);
    var x := ReadField(Network, mem, d);
    assert Nat(x) == rec[i];
    PrefixOfBits(rec[i], h.widths[i], 32);
    WordOfNat(x);
  }

  lemma {:induction false} PrefixOfBits(n: nat, w: nat, len: nat)
    requires w <= len
    ensures Bits(n, len)[..w] == Bits(n, w)
  {
    if w > 0 {
      PrefixOfBits(n / 2, w - 1, len - 1);
    }
  }
}

/** The field access macros over a byte memory: masks, little-endian loads and stores,
    the two encodings of a value inside a field, and the bit positions each one uses. */
module FieldMacros {
  import Basics
  import opened Words

  type Memory = seq<Byte>

  /** field_reference_t: width and offset in bits, address of the byte with the first bit. */
  datatype FieldDesc = FieldDesc(meta: bool, bitWidth: nat, bitOffset: nat, byteAddr: nat) {

    /** The fields the 32-bit macros can hold. */
    predicate Narrow() {
      1 <= bitWidth && bitOffset < 8 && bitOffset + bitWidth <= 32
    }

    function BitCount(): nat {
      bitWidth + bitOffset
    }

    function ByteCount(): nat {
      (bitWidth + 7 + bitOffset) / 8
    }

    /** The load width chosen by FIELD_BYTES: a three-byte field is loaded as four bytes. */
    function LoadSize(): nat {
      if ByteCount() <= 2 then ByteCount() else 4
    }

    predicate Fits(size: nat) {
      byteAddr + LoadSize() <= size
    }

    predicate InBounds(mem: Memory) {
      Fits(|mem|)
    }

    /** Position of the first bit, in network order over the whole memory. */
    function Start(): nat {
      8 * byteAddr + bitOffset
    }

    predicate Covers(p: nat) {
      Start() <= p < Start() + bitWidth
    }
  }

  /** The bit at network position p. */
  function NetBit(mem: Memory, p: nat): bool
    requires p < 8 * |mem|
  {
    mem[p / 8][7 - p % 8]
  }

  function Load(mem: Memory, addr: nat, n: nat): Word
    requires addr + n <= |mem|
  {
    seq(32, i requires 0 <= i < 32 => i < 8 * n && mem[addr + i / 8][i % 8])
  }

  /** memcpy of the first n bytes of a word, as it lies in little-endian memory. */
  function Store(mem: Memory, addr: nat, res: Word, n: nat): (mem': Memory)
    requires addr + n <= |mem| && n <= 4
    ensures |mem'| == |mem|
  {
    seq(|mem|, j requires 0 <= j < |mem| =>
      if addr <= j < addr + n then res[8 * (j - addr)..8 * (j - addr) + 8] else mem[j])
  }

  function ZeroBytes(n: nat): (mem: Memory)
    ensures |mem| == n
  {
    seq(n, _ => ZERO_BYTE)
  }

  // ----- masks -----

  /** The mask of a field: the bits of a little-endian load that belong to it. */
  function Mask(bitOffset: nat, bitWidth: nat): Word {
    seq(32, i requires 0 <= i < 32 => bitOffset <= Flip(i) < bitOffset + bitWidth)
  }

  /** field_mask: sets one bit per position of the field. A field of variable width, and one
      reaching past four bytes, gets the empty mask. */
  method FieldMask(bitOffset: nat, width: Basics.Option<nat>) returns (mask: Word)
    ensures width.Some? && bitOffset + width.value <= 32 ==> mask == Mask(bitOffset, width.value)
    ensures width == Basics.None || bitOffset + width.value > 32 ==> mask == Ones(0, 0)
  {
    mask := Ones(0, 0);
    if width == Basics.None || bitOffset + width.value > 32 {
      return;
    }
    var bitWidth := width.value;
    var pos := bitOffset;
    while pos < bitOffset + bitWidth
      invariant bitOffset <= pos <= bitOffset + bitWidth
      invariant mask == Mask(bitOffset, pos - bitOffset)
    {
      var d, m := pos / 8, pos % 8;
      var bit := 8 * d + 7 - m;
      FlipTwice(pos);
      forall i | 0 <= i < 32 ensures Flip(i) == pos <==> i == bit {
        FlipTwice(i);
      }
      mask := Or(mask, Ones(bit, bit + 1));
      pos := pos + 1;
    }
  }

  function BitsMask1(d: FieldDesc): Word {
    And(Mask(d.bitOffset, d.bitWidth), Ones(0, 8))
  }

  function BitsMask2(d: FieldDesc): Word
    requires d.Narrow()
  {
    And(And(Mask(d.bitOffset, d.bitWidth), Shr(Ones(0, 32), (4 - (d.BitCount() - 1) / 8) * 8)), Ones(8, 32))
  }

  function BitsMask3(d: FieldDesc): Word
    requires d.Narrow()
  {
    And(Mask(d.bitOffset, d.bitWidth), Shl(Ones(0, 8), ((d.BitCount() - 1) / 8) * 8))
  }

  // ----- the macros, on the loaded word -----

  /** MODIFY_INT32_INT32_BITS: x is FIELD_BYTES, the result is the word copied back. */
  function ModifyBits(d: FieldDesc, x: Word, v: Word): Word
    requires d.Narrow()
  {
    var m := Mask(d.bitOffset, d.bitWidth);
    var kept := And(x, Not(m));
    if d.ByteCount() == 1 then
      Or(kept, And(Shl(v, 8 - d.BitCount()), m))
    else if d.ByteCount() == 2 then
      var s := 16 - d.bitWidth;
      Or(Or(kept, And(v, BitsMask1(d))), Shl(And(v, Shr(BitsMask3(d), s)), s))
    else
      var s := d.ByteCount() * 8 - d.bitWidth;
      Or(Or(Or(kept, And(v, BitsMask1(d))),
            Shl(And(v, Shr(BitsMask2(d), d.bitOffset)), d.bitOffset)),
         Shl(And(v, Shr(BitsMask3(d), s)), s))
  }

  /** The same macro as modify_field calls it with a mask: its parameter is the text `v & mask`. In
      the branch for one byte the parameter has no parentheses, so the shift takes the mask alone. */
  function ModifyMasked(d: FieldDesc, x: Word, v: Word, mask: Basics.Option<Word>): Word
    requires d.Narrow()
  {
    if mask == Basics.None then
      ModifyBits(d, x, v)
    else if d.ByteCount() == 1 then
      var m := Mask(d.bitOffset, d.bitWidth);
      Or(And(x, Not(m)), And(And(v, Shl(mask.value, 8 - d.BitCount())), m))
    else
      ModifyBits(d, x, And(v, mask.value))
  }

  /** An absent mask keeps every bit. */
  function MaskBits(mask: Basics.Option<Word>): Word {
    if mask == Basics.None then Ones(0, 32) else mask.value
  }

  /** How far the masked call moves the value down: to the end of its byte. */
  function MaskShift(d: FieldDesc, mask: Basics.Option<Word>): nat {
    if mask.Some? && d.ByteCount() == 1 then 8 - d.BitCount() else 0
  }

  /** The value that the masked call writes. */
  function MaskedValue(d: FieldDesc, v: Word, mask: Basics.Option<Word>): Word {
    And(Shr(v, MaskShift(d, mask)), MaskBits(mask))
  }

  /** MODIFY_INT32_INT32_HTON. */
  function ModifyHton(d: FieldDesc, x: Word, v: Word): Word
    requires d.Narrow()
  {
    var m := Mask(d.bitOffset, d.bitWidth);
    var kept := And(x, Not(m));
    if d.ByteCount() == 1 then
      Or(kept, And(Shl(v, 8 - d.BitCount()), m))
    else if d.ByteCount() == 2 then
      Or(kept, And(Swap16(Shl(v, 16 - d.BitCount())), m))
    else
      Or(kept, And(Swap32(Shl(v, 32 - d.BitCount())), m))
  }

  /** EXTRACT_INT32_BITS. */
  function ExtractBits(d: FieldDesc, x: Word): Word
    requires d.Narrow()
  {
    if d.ByteCount() == 1 then
      Shr(And(x, Mask(d.bitOffset, d.bitWidth)), 8 - d.BitCount())
    else if d.ByteCount() == 2 then
      Or(And(x, BitsMask1(d)), Shr(And(x, BitsMask3(d)), 16 - d.bitWidth))
    else
      Or(Or(And(x, BitsMask1(d)), Shr(And(x, BitsMask2(d)), d.bitOffset)),
         Shr(And(x, BitsMask3(d)), d.ByteCount() * 8 - d.bitWidth))
  }

  /** EXTRACT_INT32_NTOH. */
  function ExtractNtoh(d: FieldDesc, x: Word): Word
    requires d.Narrow()
  {
    var y := And(x, Mask(d.bitOffset, d.bitWidth));
    if d.ByteCount() == 1 then
      Shr(y, 8 - d.BitCount())
    else if d.ByteCount() == 2 then
      Shr(Swap16(y), 16 - d.BitCount())
    else
      Shr(Swap32(y), 32 - d.BitCount())
  }

  /** GET_INT32_AUTO: the metadata branch always combines three masks once the field has more
      than one byte, the packet branch always swaps four bytes. */
  function GetAuto(d: FieldDesc, x: Word): Word
    requires d.Narrow()
  {
    if d.meta then
      if d.ByteCount() == 1 then
        Shr(And(x, Mask(d.bitOffset, d.bitWidth)), 8 - d.BitCount())
      else
        Or(Or(And(x, BitsMask1(d)), Shr(And(x, BitsMask2(d)), d.bitOffset)),
           Shr(And(x, BitsMask3(d)), d.ByteCount() * 8 - d.bitWidth))
    else
      Shr(Swap32(And(x, Mask(d.bitOffset, d.bitWidth))), 32 - d.BitCount())
  }

  /** With a mask, one-byte fields get bits of the value from further up. */
  lemma MaskedCallWrites(d: FieldDesc, x: Word, v: Word, mask: Basics.Option<Word>)
    requires d.Narrow()
    ensures ModifyMasked(d, x, v, mask) == ModifyBits(d, x, MaskedValue(d, v, mask))
  {
    ShiftByNone(v);
    if mask == Basics.None {
      assert And(v, Ones(0, 32)) == v;
    } else if d.ByteCount() == 1 {
      var s, m := 8 - d.BitCount(), Mask(d.bitOffset, d.bitWidth);
      forall i | 0 <= i < 32
        ensures And(And(v, Shl(mask.value, s)), m)[i] == And(Shl(And(Shr(v, s), mask.value), s), m)[i]
      {
        MaskShape(d, i);
      }
      assert And(And(v, Shl(mask.value, s)), m) == And(Shl(And(Shr(v, s), mask.value), s), m);
    }
  }

  lemma ShiftByNone(v: Word)
    ensures Shr(v, 0) == v
  {
  }

  // ----- where each encoding puts the bits of a value -----

  /** The two encodings: host order split over three masks, and network order. */
  datatype Encoding = HostBits | Network

  /** Position in the loaded word of bit k of the value. */
  function Place(enc: Encoding, d: FieldDesc, k: nat): nat
    requires d.Narrow() && k < d.bitWidth
  {
    if enc == Network then
      Flip(d.BitCount() - 1 - k)
    else if d.ByteCount() == 1 then
      k + 8 - d.BitCount()
    else if k < 8 - d.bitOffset then
      k
    else if k + d.bitOffset < 8 * (d.ByteCount() - 1) then
      k + d.bitOffset
    else
      k + 8 * d.ByteCount() - d.bitWidth
  }

  /** The bit of the value held at position i of the loaded word. */
  function Origin(enc: Encoding, d: FieldDesc, i: nat): int
    requires d.Narrow()
  {
    if enc == Network then
      d.BitCount() - 1 - Flip(i)
    else if d.ByteCount() == 1 then
      i - (8 - d.BitCount())
    else if i < 8 then
      i
    else if i < 8 * (d.ByteCount() - 1) then
      i - d.bitOffset
    else
      i - (8 * d.ByteCount() - d.bitWidth)
  }

  function Modify(enc: Encoding, d: FieldDesc, x: Word, v: Word): Word
    requires d.Narrow()
  {
    if enc == Network then ModifyHton(d, x, v) else ModifyBits(d, x, v)
  }

  function Extract(enc: Encoding, d: FieldDesc, x: Word): Word
    requires d.Narrow()
  {
    if enc == Network then ExtractNtoh(d, x) else ExtractBits(d, x)
  }

  // ----- the masks, position by position -----

  lemma MaskShape(d: FieldDesc, i: nat)
    requires d.Narrow() && i < 32
    ensures Mask(d.bitOffset, d.bitWidth)[i] <==>
              && i < 8 * d.ByteCount()
              && (i < 8 ==> i < 8 - d.bitOffset)
              && (i >= 8 * (d.ByteCount() - 1) ==> i >= 16 * d.ByteCount() - 8 - d.BitCount())
  {
  }

  /** The three masks cut the field at its byte boundaries. */
  lemma MaskParts(d: FieldDesc)
    requires d.Narrow() && d.ByteCount() >= 2
    ensures forall i :: 0 <= i < 32 ==> (BitsMask1(d)[i] <==> i < 8 - d.bitOffset)
    ensures forall i :: 0 <= i < 32 ==> (BitsMask2(d)[i] <==> 8 <= i < 8 * (d.ByteCount() - 1))
    ensures forall i :: 0 <= i < 32 ==>
      (BitsMask3(d)[i] <==> 16 * d.ByteCount() - 8 - d.BitCount() <= i < 8 * d.ByteCount())
  {
    assert (d.BitCount() - 1) / 8 == d.ByteCount() - 1;
    forall i | 0 <= i < 32
      ensures BitsMask1(d)[i] <==> i < 8 - d.bitOffset
      ensures BitsMask2(d)[i] <==> 8 <= i < 8 * (d.ByteCount() - 1)
      ensures BitsMask3(d)[i] <==> 16 * d.ByteCount() - 8 - d.BitCount() <= i < 8 * d.ByteCount()
    {
      MaskShape(d, i);
    }
  }

  /** Three masks m1, m2, m3 of the given shape, for a field of n >= 2 bytes. */
  ghost predicate Parts(d: FieldDesc, n: nat, m1: Word, m2: Word, m3: Word)
    requires d.Narrow()
  {
    && n == d.ByteCount() >= 2
    && (forall i :: 0 <= i < 32 ==> (m1[i] <==> i < 8 - d.bitOffset))
    && (forall i :: 0 <= i < 32 ==> (m2[i] <==> 8 <= i < 8 * (n - 1)))
    && (forall i :: 0 <= i < 32 ==> (m3[i] <==> 16 * n - 8 - d.BitCount() <= i < 8 * n))
  }

  lemma SplitExtractAt(d: FieldDesc, x: Word, m1: Word, m2: Word, m3: Word, n: nat, k: nat)
    requires d.Narrow() && Parts(d, n, m1, m2, m3) && k < 32
    ensures k < d.bitWidth ==> 0 <= Place(HostBits, d, k) < 8 * n <= 32
    ensures Or(Or(And(x, m1), Shr(And(x, m2), d.bitOffset)), Shr(And(x, m3), n * 8 - d.bitWidth))[k]
            == (k < d.bitWidth && x[Place(HostBits, d, k)])
  {
  }

  lemma SplitModifyAt(d: FieldDesc, v: Word, m1: Word, m2: Word, m3: Word, n: nat, i: nat)
    requires d.Narrow() && Parts(d, n, m1, m2, m3) && i < 32
    ensures m1[i] || m2[i] || m3[i] ==> 0 <= Origin(HostBits, d, i) < d.bitWidth
    ensures var s := n * 8 - d.bitWidth;
            Or(Or(And(v, m1), Shl(And(v, Shr(m2, d.bitOffset)), d.bitOffset)), Shl(And(v, Shr(m3, s)), s))[i]
            == ((m1[i] || m2[i] || m3[i]) && v[Origin(HostBits, d, i)])
  {
  }

  // ----- what each macro does to every bit -----

  lemma ModifyHtonOneByte(d: FieldDesc, x: Word, v: Word, i: nat)
    requires d.Narrow() && d.ByteCount() == 1 && i < 8 * d.ByteCount() <= 32
    ensures Mask(d.bitOffset, d.bitWidth)[i] ==> 0 <= Origin(Network, d, i) < d.bitWidth
    ensures ModifyHton(d, x, v)[i] == if Mask(d.bitOffset, d.bitWidth)[i] then v[Origin(Network, d, i)] else x[i]
  {
  }

  lemma ModifyHtonTwoBytes(d: FieldDesc, x: Word, v: Word, i: nat)
    requires d.Narrow() && d.ByteCount() == 2 && i < 8 * d.ByteCount() <= 32
    ensures Mask(d.bitOffset, d.bitWidth)[i] ==> 0 <= Origin(Network, d, i) < d.bitWidth
    ensures ModifyHton(d, x, v)[i] == if Mask(d.bitOffset, d.bitWidth)[i] then v[Origin(Network, d, i)] else x[i]
  {
  }

  lemma ModifyHtonWord(d: FieldDesc, x: Word, v: Word, i: nat)
    requires d.Narrow() && d.ByteCount() >= 3 && i < 8 * d.ByteCount() <= 32
    ensures Mask(d.bitOffset, d.bitWidth)[i] ==> 0 <= Origin(Network, d, i) < d.bitWidth
    ensures ModifyHton(d, x, v)[i] == if Mask(d.bitOffset, d.bitWidth)[i] then v[Origin(Network, d, i)] else x[i]
  {
  }

  lemma ModifyBitsTwoBytes(d: FieldDesc, x: Word, v: Word, i: nat)
    requires d.Narrow() && d.ByteCount() == 2 && i < 16
    ensures Mask(d.bitOffset, d.bitWidth)[i] ==> 0 <= Origin(HostBits, d, i) < d.bitWidth
    ensures ModifyBits(d, x, v)[i] == if Mask(d.bitOffset, d.bitWidth)[i] then v[Origin(HostBits, d, i)] else x[i]
  {
    MaskShape(d, i);
  }

  lemma ModifyBitsWord(d: FieldDesc, x: Word, v: Word, i: nat)
    requires d.Narrow() && d.ByteCount() >= 3 && i < 8 * d.ByteCount() <= 32
    ensures Mask(d.bitOffset, d.bitWidth)[i] ==> 0 <= Origin(HostBits, d, i) < d.bitWidth
    ensures ModifyBits(d, x, v)[i] == if Mask(d.bitOffset, d.bitWidth)[i] then v[Origin(HostBits, d, i)] else x[i]
  {
    MaskParts(d);
    MaskShape(d, i);
    SplitModifyAt(d, v, BitsMask1(d), BitsMask2(d), BitsMask3(d), d.ByteCount(), i);
  }

  /** Writing puts bit k of the value at Place(k) and leaves every unmasked bit alone. */
  lemma ModifyAt(enc: Encoding, d: FieldDesc, x: Word, v: Word, i: nat)
    requires d.Narrow() && i < 8 * d.ByteCount() <= 32
    ensures Mask(d.bitOffset, d.bitWidth)[i] ==> 0 <= Origin(enc, d, i) < d.bitWidth
    ensures Modify(enc, d, x, v)[i] == if Mask(d.bitOffset, d.bitWidth)[i] then v[Origin(enc, d, i)] else x[i]
  {
    hide Mask, And, Or, Not, Shl, Swap16, Swap32, BitsMask1, BitsMask2, BitsMask3;
    if enc == Network {
      if d.ByteCount() == 1 {
        ModifyHtonOneByte(d, x, v, i);
      } else if d.ByteCount() == 2 {
        ModifyHtonTwoBytes(d, x, v, i);
      } else {
        ModifyHtonWord(d, x, v, i);
      }
    } else if d.ByteCount() == 1 {
      ModifyHtonOneByte(d, x, v, i);
    } else if d.ByteCount() == 2 {
      ModifyBitsTwoBytes(d, x, v, i);
    } else {
      ModifyBitsWord(d, x, v, i);
    }
  }

  lemma ExtractBitsAt(d: FieldDesc, x: Word, k: nat)
    requires d.Narrow() && d.ByteCount() >= 2 && k < 32
    ensures k < d.bitWidth ==> 0 <= Place(HostBits, d, k) < 8 * d.ByteCount() <= 32
    ensures ExtractBits(d, x)[k] == (k < d.bitWidth && x[Place(HostBits, d, k)])
  {
    hide Mask, And, Or, Shr, BitsMask1, BitsMask2, BitsMask3;
    MaskParts(d);
    SplitExtractAt(d, x, BitsMask1(d), BitsMask2(d), BitsMask3(d), d.ByteCount(), k);
    TwoPartsExtract(x, BitsMask1(d), BitsMask2(d), BitsMask3(d), d.bitOffset, 16 - d.bitWidth, k);
  }

  /** With no middle byte the three-mask read is the two-mask read. */
  lemma TwoPartsExtract(x: Word, m1: Word, m2: Word, m3: Word, o: nat, s: int, k: nat)
    requires k < 32
    ensures s >= 0 && (forall i :: 0 <= i < 32 ==> !m2[i]) ==>
      Or(And(x, m1), Shr(And(x, m3), s))[k] == Or(Or(And(x, m1), Shr(And(x, m2), o)), Shr(And(x, m3), s))[k]
  {
  }

  lemma MaskAtFlip(bitOffset: nat, bitWidth: nat, q: nat)
    requires q < 32
    ensures Flip(q) < 32
    ensures Mask(bitOffset, bitWidth)[Flip(q)] == (bitOffset <= q < bitOffset + bitWidth)
  {
    FlipTwice(q);
  }

  /** A load of `bits` leading network bits, swapped and shifted down, reverses their order. */
  lemma SwapThenShiftAt(y: Word, bits: nat, k: nat)
    requires bits <= 32 && k < 32
    ensures bits <= 16 && (forall i :: 16 <= i < 32 ==> !y[i]) ==>
      Shr(Swap16(y), 16 - bits)[k] == (k < bits && y[Flip(bits - 1 - k)])
    ensures Shr(Swap32(y), 32 - bits)[k] == (k < bits && y[Flip(bits - 1 - k)])
  {
    hide Swap32;
    if bits <= 16 && k < bits {
      Swap16At(y, k + 16 - bits);
    }
    if k < bits {
      Swap32At(y, k + 32 - bits);
    }
  }

  lemma ExtractNtohAt(d: FieldDesc, x: Word, k: nat)
    requires d.Narrow() && k < 32
    ensures k < d.bitWidth ==> 0 <= Place(Network, d, k) < 8 * d.ByteCount() <= 32
    ensures ExtractNtoh(d, x)[k] == (k < d.bitWidth && x[Place(Network, d, k)])
  {
    if d.ByteCount() == 1 {
      ExtractNtohOneByte(d, x, k);
    } else {
      hide Mask, Shr, And, Swap16, Swap32, Flip;
      ExtractNtohLonger(d, x, And(x, Mask(d.bitOffset, d.bitWidth)), k);
    }
  }

  lemma ExtractNtohLonger(d: FieldDesc, x: Word, y: Word, k: nat)
    requires d.Narrow() && d.ByteCount() >= 2 && k < 32
    requires y == And(x, Mask(d.bitOffset, d.bitWidth))
    ensures k < d.bitWidth ==> 0 <= Place(Network, d, k) < 8 * d.ByteCount() <= 32
    ensures (if d.ByteCount() == 2 then Shr(Swap16(y), 16 - d.BitCount()) else Shr(Swap32(y), 32 - d.BitCount()))[k]
            == (k < d.bitWidth && x[Place(Network, d, k)])
  {
    hide Mask, Shr, Swap16, Swap32, Flip;
    if d.ByteCount() == 2 {
      forall i | 16 <= i < 32 ensures !y[i] {
        MaskShape(d, i);
      }
    }
    SwapThenShiftAt(y, d.BitCount(), k);
    if k < d.BitCount() {
      FlipStaysInByte(d.BitCount() - 1 - k, d.ByteCount());
      MaskAtFlip(d.bitOffset, d.bitWidth, d.BitCount() - 1 - k);
    }
  }

  lemma ExtractNtohOneByte(d: FieldDesc, x: Word, k: nat)
    requires d.Narrow() && d.ByteCount() == 1 && k < 32
    ensures k < d.bitWidth ==> 0 <= Place(Network, d, k) < 8 * d.ByteCount() <= 32
    ensures ExtractNtoh(d, x)[k] == (k < d.bitWidth && x[Place(Network, d, k)])
  {
  }

  /** Reading collects bit k of the value from Place(k), zero-extended. */
  lemma ExtractAt(enc: Encoding, d: FieldDesc, x: Word, k: nat)
    requires d.Narrow() && k < 32
    ensures k < d.bitWidth ==> 0 <= Place(enc, d, k) < 8 * d.ByteCount() <= 32
    ensures Extract(enc, d, x)[k] == (k < d.bitWidth && x[Place(enc, d, k)])
  {
    hide Mask, And, Or, Shr, Swap16, Swap32, BitsMask1, BitsMask2, BitsMask3;
    if enc == HostBits && d.ByteCount() >= 2 {
      ExtractBitsAt(d, x, k);
    } else {
      ExtractNtohAt(d, x, k);
      assert enc == HostBits && k < d.bitWidth ==> Place(HostBits, d, k) == Place(Network, d, k);
    }
  }

  function AutoEncoding(d: FieldDesc): Encoding {
    if d.meta then HostBits else Network
  }

  /** The expression form used in conditions reads what the statement form reads. */
  lemma GetAutoReadsTheSame(d: FieldDesc, x: Word)
    requires d.Narrow()
    requires forall i :: 8 * d.LoadSize() <= i < 32 ==> !x[i]
    ensures GetAuto(d, x) == Extract(AutoEncoding(d), d, x)
  {
    forall k | 0 <= k < 32 ensures GetAuto(d, x)[k] == Extract(AutoEncoding(d), d, x)[k] {
      ExtractAt(AutoEncoding(d), d, x, k);
      if d.meta {
        GetAutoMetaAt(d, x, k);
      } else {
        GetAutoPacketAt(d, x, k);
      }
    }
  }

  lemma GetAutoMetaAt(d: FieldDesc, x: Word, k: nat)
    requires d.Narrow() && d.meta && k < 32
    ensures k < d.bitWidth ==> 0 <= Place(HostBits, d, k) < 8 * d.ByteCount() <= 32
    ensures GetAuto(d, x)[k] == (k < d.bitWidth && x[Place(HostBits, d, k)])
  {
    if d.ByteCount() >= 2 {
      MaskParts(d);
      SplitExtractAt(d, x, BitsMask1(d), BitsMask2(d), BitsMask3(d), d.ByteCount(), k);
    } else {
      ExtractAt(HostBits, d, x, k);
    }
  }

  lemma GetAutoPacketAt(d: FieldDesc, x: Word, k: nat)
    requires d.Narrow() && !d.meta && k < 32
    ensures k < d.bitWidth ==> 0 <= Place(Network, d, k) < 8 * d.ByteCount() <= 32
    ensures GetAuto(d, x)[k] == (k < d.bitWidth && x[Place(Network, d, k)])
  {
    hide Mask, Shr, Swap32;
    SwapThenShiftAt(And(x, Mask(d.bitOffset, d.bitWidth)), d.BitCount(), k);
    if k < d.BitCount() {
      MaskAtFlip(d.bitOffset, d.bitWidth, d.BitCount() - 1 - k);
    }
  }

  lemma PlaceIsBijectionNetwork(d: FieldDesc, k: nat, i: nat)
    requires d.Narrow()
    ensures k < d.bitWidth ==>
              && 0 <= Place(Network, d, k) < 8 * d.ByteCount() <= 32
              && Mask(d.bitOffset, d.bitWidth)[Place(Network, d, k)]
              && Origin(Network, d, Place(Network, d, k)) == k
    ensures i < 32 && Mask(d.bitOffset, d.bitWidth)[i] ==>
              && 0 <= Origin(Network, d, i) < d.bitWidth
              && Place(Network, d, Origin(Network, d, i)) == i
  {
    hide Mask, Flip;
    FlipTwice(i);
    FlipStaysInByte(i, 4);
    if i < 32 {
      MaskAtFlip(d.bitOffset, d.bitWidth, Flip(i));
    }
    if k < d.bitWidth {
      var q := d.BitCount() - 1 - k;
      FlipTwice(q);
      FlipStaysInByte(q, d.ByteCount());
      MaskAtFlip(d.bitOffset, d.bitWidth, q);
    }
  }

  /** Each encoding is a bijection between the bits of a value and the masked positions. */
  lemma PlaceIsBijection(enc: Encoding, d: FieldDesc, k: nat, i: nat)
    requires d.Narrow()
    ensures k < d.bitWidth ==>
              && 0 <= Place(enc, d, k) < 8 * d.ByteCount() <= 32
              && Mask(d.bitOffset, d.bitWidth)[Place(enc, d, k)]
              && Origin(enc, d, Place(enc, d, k)) == k
    ensures i < 32 && Mask(d.bitOffset, d.bitWidth)[i] ==>
              && 0 <= Origin(enc, d, i) < d.bitWidth
              && Place(enc, d, Origin(enc, d, i)) == i
  {
    if enc == Network {
      PlaceIsBijectionNetwork(d, k, i);
    } else {
      hide Mask;
      if k < d.bitWidth && Place(HostBits, d, k) < 32 {
        MaskShape(d, Place(HostBits, d, k));
      }
      if i < 32 {
        MaskShape(d, i);
      }
    }
  }
}

/** Calculated fields: the generated calculate function, update_packet and verify_packet. */
module CalculatedFields {
  import opened Words
  import opened FieldMacros
  import opened HeaderRecord
  import opened FieldLists
  import opened FieldListBuffer
  import OnesComplement
  import Basics

  /** odp_chksum_ones_comp16 is outside the repository: any function of the bytes. */
  type ChecksumOp = Memory -> nat

  /** calculate_csum16: its length argument and its result are uint16_t. */
  function Csum16(f: ChecksumOp, m: Memory): (r: nat)
    ensures r <= OnesComplement.MAX16
  {
    f(m[..|m| % 0x10000]) % 0x10000
  }

  /** A calculation: field lists and output width. */
  datatype Calculation = Calculation(lists: seq<seq<Item>>, outputWidth: nat)

  /** The headers whose payload the lists include: that of the entry before. */
  function ListPayloads(items: seq<Item>): seq<nat> {
    if |items| < 2 then [] else
      var n := |items| - 1;
      ListPayloads(items[..n]) + if items[n].Payload? && items[n - 1].Field? then [items[n - 1].inst] else []
  }

  function Payloads(lists: seq<seq<Item>>): seq<nat> {
    if lists == [] then [] else Payloads(lists[..|lists| - 1]) + ListPayloads(lists[|lists| - 1])
  }

  /** First byte after a header. */
  function PayloadStart(L: Layout, pkt: Packet, h: nat): nat
    requires h < |L| == |pkt.base|
  {
    pkt.base[h] + PrefixSum(L[h], |L[h]|) / 8
  }

  ghost predicate PayloadsInside(L: Layout, pkt: Packet, end: nat, hs: seq<nat>) {
    && |pkt.base| == |L| && end <= |pkt.mem|
    && forall k :: 0 <= k < |hs| ==> hs[k] < |L| && PayloadStart(L, pkt, hs[k]) <= end
  }

  /** A calculation the generator accepts, on a packet that ends at address `end`. */
  ghost predicate Usable(L: Layout, pkt: Packet, end: nat, c: Calculation) {
    && Placed(L, pkt) && (forall items :: items in c.lists ==> Known(L, items)) && PlanLists(L, c.lists).ok
    && Shape(L, PlanLists(L, c.lists)) && Runnable(L, PlanLists(L, c.lists).ops, PlanLists(L, c.lists).bits / 8)
    && PayloadsInside(L, pkt, end, Payloads(c.lists))
  }

  function PayloadSum(f: ChecksumOp, L: Layout, pkt: Packet, end: nat, hs: seq<nat>): (r: nat)
    requires PayloadsInside(L, pkt, end, hs)
    ensures r <= OnesComplement.MAX16
  {
    if hs == [] then 0 else
      var n := |hs| - 1;
      OnesComplement.Add(PayloadSum(f, L, pkt, end, hs[..n]), Csum16(f, pkt.mem[PayloadStart(L, pkt, hs[n])..end]))
  }

  /** The buffer that calculate_<name> sums. */
  function Buffer(L: Layout, pkt: Packet, end: nat, c: Calculation): Memory
    requires Usable(L, pkt, end, c)
  {
    var p := PlanLists(L, c.lists);
    Filled(L, pkt, p.ops, p.bits / 8)
  }

  /** The value that calculate_<name> returns. */
  function Value(f: ChecksumOp, L: Layout, pkt: Packet, end: nat, c: Calculation): nat
    requires Usable(L, pkt, end, c)
  {
    var res := OnesComplement.Add(PayloadSum(f, L, pkt, end, Payloads(c.lists)), Csum16(f, Buffer(L, pkt, end, c)));
    (if res == OnesComplement.MAX16 then res else OnesComplement.MAX16 - res) % Pow2(c.outputWidth)
  }

  method SumPayloads(f: ChecksumOp, L: Layout, pkt: Packet, end: nat, hs: seq<nat>) returns (res: nat)
    requires PayloadsInside(L, pkt, end, hs)
    ensures res == PayloadSum(f, L, pkt, end, hs)
  {
    hide Csum16, PayloadStart;
    res := 0;
    for k := 0 to |hs|
      invariant res == PayloadSum(f, L, pkt, end, hs[..k])
    {
      assert hs[..k + 1][..k] == hs[..k];
      res := OnesComplement.Csum16Add(res, Csum16(f, pkt.mem[PayloadStart(L, pkt, hs[k])..end]));
    }
    assert hs[..|hs|] == hs;
  }

  method FillListBuffer(L: Layout, pkt: Packet, p: Plan) returns (buf: array<Byte>)
    requires Placed(L, pkt) && Runnable(L, p.ops, p.bits / 8)
    ensures buf[..] == Filled(L, pkt, p.ops, p.bits / 8)
  {
    SameOps(p.ops);
    GroupsAreRunnable(L, Copies(p.ops), p.bits / 8);
    buf := FillBuffer(L, pkt, Puts(p.ops), Regroup(Copies(p.ops)), p.bits / 8);
  }

  /** calculate_<name>. */
  method Calculate(f: ChecksumOp, L: Layout, pkt: Packet, end: nat, c: Calculation) returns (value: nat)
    requires Usable(L, pkt, end, c)
    ensures value == Value(f, L, pkt, end, c)
  {
    hide PlanLists, Payloads, PayloadsInside, Csum16, Shape, Known, Placed, Filled;
    var res := SumPayloads(f, L, pkt, end, Payloads(c.lists));
    var buf := FillListBuffer(L, pkt, PlanLists(L, c.lists));
    res := OnesComplement.Csum16Add(res, Csum16(f, buf[..]));
    res := if res == 0xffff then res else 0xffff - res;
    value := res % Pow2(c.outputWidth);
  }

  // ----- updating and verifying a field -----

  /** Field i of header h, which update_packet writes and verify_packet reads in host order. */
  function Desc(L: Layout, pkt: Packet, h: nat, i: nat): FieldDesc
    requires h < |L| == |pkt.base| && i < |L[h]|
  {
    FieldOf(Header(false, pkt.base[h], L[h]), i)
  }

  ghost predicate Target(L: Layout, pkt: Packet, h: nat, i: nat) {
    && h < |L| == |pkt.base| == |pkt.valid| && i < |L[h]|
    && (pkt.valid[h] ==> Desc(L, pkt, h, i).Narrow() && Desc(L, pkt, h, i).InBounds(pkt.mem))
  }

  function UpdateField(f: ChecksumOp, L: Layout, pkt: Packet, end: nat, c: Calculation, h: nat, i: nat): Packet
    requires Usable(L, pkt, end, c) && Target(L, pkt, h, i)
  {
    if !pkt.valid[h] then pkt
    else pkt.(mem := WriteField(HostBits, pkt.mem, Desc(L, pkt, h, i), ToWord(Value(f, L, pkt, end, c))))
  }

  /** False when verify_packet reports the failure. */
  predicate VerifyField(f: ChecksumOp, L: Layout, pkt: Packet, end: nat, c: Calculation, h: nat, i: nat)
    requires Usable(L, pkt, end, c) && Target(L, pkt, h, i)
  {
    pkt.valid[h] ==> Nat(ReadField(HostBits, pkt.mem, Desc(L, pkt, h, i))) == Value(f, L, pkt, end, c)
  }

  /** Valid headers do not share bits. */
  ghost predicate HeadersApart(L: Layout, pkt: Packet) {
    && |pkt.base| == |pkt.valid| == |L|
    && forall a, b :: 0 <= a < |L| && 0 <= b < |L| && a != b && pkt.valid[a] && pkt.valid[b] ==>
         8 * pkt.base[a] + PrefixSum(L[a], |L[a]|) <= 8 * pkt.base[b]
           || 8 * pkt.base[b] + PrefixSum(L[b], |L[b]|) <= 8 * pkt.base[a]
  }

  /** The lists, whose blocks start on byte boundaries, do not name field i of header h. */
  ghost predicate Unlisted(L: Layout, pkt: Packet, c: Calculation, h: nat, i: nat)
    requires (forall items :: items in c.lists ==> Known(L, items)) && AllInLayout(L, PlanLists(L, c.lists).ops)
  {
    && HeadersApart(L, pkt)
    && (forall items :: items in c.lists ==> Field(h, i) !in items)
    && (forall op :: op in PlanLists(L, c.lists).ops ==> Aligned(L, op))
  }

  /** No copy brings a byte with bits of d. */
  ghost predicate CopiesAvoid(L: Layout, pkt: Packet, ops: seq<Op>, d: FieldDesc)
    requires AllInLayout(L, ops) && |pkt.base| == |pkt.valid| == |L|
  {
    forall op :: op in ops && op.Copy? && pkt.valid[op.inst] ==>
      var from := pkt.base[op.inst] + PrefixSum(L[op.inst], op.first) / 8;
      d.Start() + d.bitWidth <= 8 * from || 8 * (from + op.width / 8) <= d.Start()
  }

  /** The calculation reads none of the bits of field i of header h. */
  ghost predicate Independent(L: Layout, pkt: Packet, end: nat, c: Calculation, h: nat, i: nat)
    requires Usable(L, pkt, end, c) && Target(L, pkt, h, i)
  {
    && (Unlisted(L, pkt, c, h, i) || CopiesAvoid(L, pkt, PlanLists(L, c.lists).ops, Desc(L, pkt, h, i)))
    && var d := Desc(L, pkt, h, i);
       var hs := Payloads(c.lists);
       forall k :: 0 <= k < |hs| ==> d.Start() + d.bitWidth <= 8 * PayloadStart(L, pkt, hs[k]) || 8 * end <= d.Start()
  }

  /** What differs between two packets: at most the bits of d. */
  ghost predicate OnlyChanges(pkt: Packet, pkt': Packet, d: FieldDesc) {
    && pkt'.base == pkt.base && pkt'.valid == pkt.valid && |pkt'.mem| == |pkt.mem|
    && forall p :: 0 <= p < 8 * |pkt.mem| && !d.Covers(p) ==> NetBit(pkt'.mem, p) == NetBit(pkt.mem, p)
  }

  lemma UpdateOnlyChanges(f: ChecksumOp, L: Layout, pkt: Packet, end: nat, c: Calculation, h: nat, i: nat)
    requires Usable(L, pkt, end, c) && Target(L, pkt, h, i) && pkt.valid[h]
    ensures OnlyChanges(pkt, UpdateField(f, L, pkt, end, c, h, i), Desc(L, pkt, h, i))
  {
    hide Value, Desc, Usable, WriteField, NetBit;
    var d, v := Desc(L, pkt, h, i), ToWord(Value(f, L, pkt, end, c));
    forall p | 0 <= p < 8 * |pkt.mem| && !d.Covers(p)
      ensures NetBit(WriteField(HostBits, pkt.mem, d, v), p) == NetBit(pkt.mem, p)
    {
      WriteFieldAt(HostBits, pkt.mem, d, v, p);
    }
  }

  lemma SameStretch(pkt: Packet, pkt': Packet, d: FieldDesc, start: nat, w: nat)
    requires OnlyChanges(pkt, pkt', d) && start + w <= 8 * |pkt.mem|
    requires start + w <= d.Start() || d.Start() + d.bitWidth <= start
    ensures NetBits(pkt'.mem, start, w) == NetBits(pkt.mem, start, w)
  {
    hide NetBit;
  }

  /** Entries other than the changed field keep their bits. */
  lemma SameItem(L: Layout, pkt: Packet, pkt': Packet, h: nat, i: nat, it: Item)
    requires Placed(L, pkt) && Placed(L, pkt') && h < |L| && i < |L[h]| && HeadersApart(L, pkt) && pkt.valid[h]
    requires OnlyChanges(pkt, pkt', Desc(L, pkt, h, i))
    requires it.Field? ==> it.inst < |L| && it.index < |L[it.inst]|
    requires it != Field(h, i)
    ensures ItemBits(L, pkt', it) == ItemBits(L, pkt, it)
  {
    if it.Field? && pkt.valid[it.inst] {
      var d := Desc(L, pkt, h, i);
      StartOfField(Header(false, pkt.base[h], L[h]), i);
      WidthOfField(Header(false, pkt.base[h], L[h]), i);
      var start, w := 8 * pkt.base[it.inst] + PrefixSum(L[it.inst], it.index), L[it.inst][it.index];
      PrefixSumMonotone(L[it.inst], it.index + 1, |L[it.inst]|);
      PrefixSumMonotone(L[h], i + 1, |L[h]|);
      if it.inst == h && it.index < i {
        PrefixSumMonotone(L[h], it.index + 1, i);
      } else if it.inst == h {
        PrefixSumMonotone(L[h], i + 1, it.index);
      }
      assert start + w <= d.Start() || d.Start() + d.bitWidth <= start;
      SameStretch(pkt, pkt', d, start, w);
    }
  }

  lemma {:induction false} SameList(L: Layout, pkt: Packet, pkt': Packet, h: nat, i: nat, items: seq<Item>)
    requires Placed(L, pkt) && Placed(L, pkt') && h < |L| && i < |L[h]| && HeadersApart(L, pkt) && pkt.valid[h]
    requires OnlyChanges(pkt, pkt', Desc(L, pkt, h, i)) && Known(L, items) && Field(h, i) !in items
    ensures ListBits(L, pkt', items) == ListBits(L, pkt, items)
  {
    hide ItemBits, OnlyChanges, Desc, HeadersApart;
    if items != [] {
      var n := |items| - 1;
      SameList(L, pkt, pkt', h, i, items[..n]);
      SameItem(L, pkt, pkt', h, i, items[n]);
    }
  }

  lemma {:induction false} SameLists(L: Layout, pkt: Packet, pkt': Packet, h: nat, i: nat, lists: seq<seq<Item>>)
    requires Placed(L, pkt) && Placed(L, pkt') && h < |L| && i < |L[h]| && HeadersApart(L, pkt) && pkt.valid[h]
    requires OnlyChanges(pkt, pkt', Desc(L, pkt, h, i))
    requires forall items :: items in lists ==> Known(L, items) && Field(h, i) !in items
    ensures ListsBits(L, pkt', lists) == ListsBits(L, pkt, lists)
  {
    hide ListBits, OnlyChanges, Desc, HeadersApart;
    if lists != [] {
      var n := |lists| - 1;
      SameLists(L, pkt, pkt', h, i, lists[..n]);
      SameList(L, pkt, pkt', h, i, lists[n]);
    }
  }

  lemma SameBits(a: Memory, b: Memory)
    requires |a| == |b| && BitsOf(a) == BitsOf(b)
    ensures a == b
  {
    forall p | 0 <= p < 8 * |a| ensures NetBit(a, p) == NetBit(b, p) {
      assert BitsOf(a)[p] == BitsOf(b)[p];
    }
    BitsDetermineMemory(a, b);
  }

  lemma SameSlice(pkt: Packet, pkt': Packet, d: FieldDesc, lo: nat, hi: nat)
    requires OnlyChanges(pkt, pkt', d) && lo <= hi <= |pkt.mem|
    requires d.Start() + d.bitWidth <= 8 * lo || 8 * hi <= d.Start()
    ensures pkt'.mem[lo..hi] == pkt.mem[lo..hi]
  {
    var a, b := pkt.mem[lo..hi], pkt'.mem[lo..hi];
    forall p | 0 <= p < 8 * |a| ensures NetBit(b, p) == NetBit(a, p) {
      assert (8 * lo + p) / 8 == lo + p / 8 && (8 * lo + p) % 8 == p % 8;
      assert NetBit(pkt'.mem, 8 * lo + p) == NetBit(pkt.mem, 8 * lo + p);
    }
    BitsDetermineMemory(a, b);
  }

  lemma {:induction false} SamePayloads(f: ChecksumOp, L: Layout, pkt: Packet, pkt': Packet, end: nat,
          d: FieldDesc, hs: seq<nat>)
    requires OnlyChanges(pkt, pkt', d) && PayloadsInside(L, pkt, end, hs) && PayloadsInside(L, pkt', end, hs)
    requires forall k :: 0 <= k < |hs| ==>
      d.Start() + d.bitWidth <= 8 * PayloadStart(L, pkt, hs[k]) || 8 * end <= d.Start()
    ensures PayloadSum(f, L, pkt', end, hs) == PayloadSum(f, L, pkt, end, hs)
  {
    if hs != [] {
      var n := |hs| - 1;
      SamePayloads(f, L, pkt, pkt', end, d, hs[..n]);
      SameSlice(pkt, pkt', d, PayloadStart(L, pkt, hs[n]), end);
    }
  }

  lemma SameData(L: Layout, pkt: Packet, pkt': Packet, d: FieldDesc, op: Op)
    requires Placed(L, pkt) && Placed(L, pkt') && InLayout(L, op) && OnlyChanges(pkt, pkt', d)
    requires CopiesAvoid(L, pkt, [op], d)
    ensures Data(L, pkt', op) == Data(L, pkt, op)
  {
    hide NetBit;
    assert op in [op];
    if op.Copy? && pkt.valid[op.inst] {
      var from := pkt.base[op.inst] + PrefixSum(L[op.inst], op.first) / 8;
      hide PrefixSum;
      SameSlice(pkt, pkt', d, from, from + op.width / 8);
    }
  }

  lemma {:induction false} SameAssembled(L: Layout, pkt: Packet, pkt': Packet, d: FieldDesc, ops: seq<Op>)
    requires Placed(L, pkt) && Placed(L, pkt') && AllInLayout(L, ops) && OnlyChanges(pkt, pkt', d)
    requires CopiesAvoid(L, pkt, ops, d)
    ensures Assembled(L, pkt', ops) == Assembled(L, pkt, ops)
  {
    hide Data, InLayout, OnlyChanges;
    if ops != [] {
      var n := |ops| - 1;
      SplitLast(ops);
      assert CopiesAvoid(L, pkt, ops[..n], d) && CopiesAvoid(L, pkt, [ops[n]], d);
      SameAssembled(L, pkt, pkt', d, ops[..n]);
      SameData(L, pkt, pkt', d, ops[n]);
    }
  }

  lemma SameBuffer(L: Layout, pkt: Packet, pkt': Packet, end: nat, c: Calculation, h: nat, i: nat)
    requires Usable(L, pkt, end, c) && Usable(L, pkt', end, c) && Target(L, pkt, h, i) && pkt.valid[h]
    requires Independent(L, pkt, end, c, h, i) && OnlyChanges(pkt, pkt', Desc(L, pkt, h, i))
    ensures Buffer(L, pkt', end, c) == Buffer(L, pkt, end, c)
  {
    hide PlanLists, Filled, ListsBits, Desc, HeadersApart, OnlyChanges, CopiesAvoid;
    var p := PlanLists(L, c.lists);
    if CopiesAvoid(L, pkt, p.ops, Desc(L, pkt, h, i)) {
      FilledIsAssembled(L, pkt, p.ops, p.bits / 8);
      FilledIsAssembled(L, pkt', p.ops, p.bits / 8);
      SameAssembled(L, pkt, pkt', Desc(L, pkt, h, i), p.ops);
    } else {
      SameLists(L, pkt, pkt', h, i, c.lists);
      BufferIsInOrder(L, pkt, c.lists);
      BufferIsInOrder(L, pkt', c.lists);
      hide BitsOf;
      SameBits(Buffer(L, pkt, end, c), Buffer(L, pkt', end, c));
    }
  }

  /** A change of a field the calculation does not read does not change its value. */
  lemma ValueIsStable(f: ChecksumOp, L: Layout, pkt: Packet, pkt': Packet, end: nat, c: Calculation, h: nat, i: nat)
    requires Usable(L, pkt, end, c) && Usable(L, pkt', end, c) && Target(L, pkt, h, i) && pkt.valid[h]
    requires Independent(L, pkt, end, c, h, i) && OnlyChanges(pkt, pkt', Desc(L, pkt, h, i))
    ensures Value(f, L, pkt', end, c) == Value(f, L, pkt, end, c)
  {
    hide PlanLists, Buffer, Desc, Unlisted, CopiesAvoid, OnlyChanges, PayloadSum, Csum16;
    SamePayloads(f, L, pkt, pkt', end, Desc(L, pkt, h, i), Payloads(c.lists));
    SameBuffer(L, pkt, pkt', end, c, h, i);
  }

  /** verify_packet after update_packet: for a calculation that does not read its own field it
      succeeds exactly when the calculated value fits the field; a 16-bit field always holds it. */
  lemma VerifyAfterUpdate(f: ChecksumOp, L: Layout, pkt: Packet, pkt': Packet, end: nat, c: Calculation, h: nat, i: nat)
    requires Usable(L, pkt, end, c) && Target(L, pkt, h, i) && pkt' == UpdateField(f, L, pkt, end, c, h, i)
    requires pkt.valid[h] ==> Independent(L, pkt, end, c, h, i)
    ensures Usable(L, pkt', end, c) && Target(L, pkt', h, i)
    ensures VerifyField(f, L, pkt', end, c, h, i) <==> !pkt.valid[h] || Value(f, L, pkt, end, c) < Pow2(L[h][i])
    ensures L[h][i] >= 16 ==> VerifyField(f, L, pkt', end, c, h, i)
  {
    hide Usable, PlanLists, Value, WriteField, ReadField, Independent, Pow2, Nat, ToWord;
    UsableAfter(L, pkt, pkt', end, c);
    if pkt.valid[h] {
      UpdateOnlyChanges(f, L, pkt, end, c, h, i);
      ValueIsStable(f, L, pkt, pkt', end, c, h, i);
      ValueIsSmall(f, L, pkt, end, c, L[h][i]);
      hide UpdateField;
      ReadsBack(pkt.mem, Desc(L, pkt, h, i), Value(f, L, pkt, end, c));
    }
  }

  lemma UsableAfter(L: Layout, pkt: Packet, pkt': Packet, end: nat, c: Calculation)
    requires Usable(L, pkt, end, c) && pkt'.base == pkt.base && pkt'.valid == pkt.valid && |pkt'.mem| == |pkt.mem|
    ensures Usable(L, pkt', end, c)
  {
    hide PlanLists, Shape, Runnable, Payloads;
  }

  lemma ReadsBack(mem: Memory, d: FieldDesc, v: nat)
    requires d.Narrow() && d.InBounds(mem) && v <= OnesComplement.MAX16
    ensures Nat(ReadField(HostBits, WriteField(HostBits, mem, d, ToWord(v)), d)) == v <==> v < Pow2(d.bitWidth)
  {
    hide ReadField, WriteField, Pow2, Nat, Low;
    ReadAfterWrite(HostBits, mem, d, ToWord(v));
    NatOfLow(ToWord(v), d.bitWidth);
    NatOfBits(v, 32);
    PowersOfTwo();
    ModUnique(v, Pow2(32), 0, v);
    if v < Pow2(d.bitWidth) {
      ModUnique(v, Pow2(d.bitWidth), 0, v);
    }
  }

  lemma ModAtMost(a: nat, m: nat)
    requires m >= 1
    ensures 0 <= a % m <= a
  {
    if a < m {
      ModUnique(a, m, 0, a);
    }
  }

  lemma ValueIsSmall(f: ChecksumOp, L: Layout, pkt: Packet, end: nat, c: Calculation, w: nat)
    requires Usable(L, pkt, end, c)
    ensures Value(f, L, pkt, end, c) <= OnesComplement.MAX16
    ensures w >= 16 ==> Value(f, L, pkt, end, c) < Pow2(w)
  {
    hide Buffer, PayloadSum, Pow2, Csum16;
    var res := OnesComplement.Add(PayloadSum(f, L, pkt, end, Payloads(c.lists)), Csum16(f, Buffer(L, pkt, end, c)));
    ModAtMost(if res == OnesComplement.MAX16 then res else OnesComplement.MAX16 - res, Pow2(c.outputWidth));
    if w >= 16 {
      Pow2Add(16, w - 16);
      PowersOfTwo();
      TimesAtLeast(0x10000, Pow2(w - 16));
    }
  }

  lemma TimesAtLeast(a: nat, b: nat)
    requires b >= 1
    ensures a * b >= a
  {
  }

  // ----- what the value is for -----

  /** For any width the value is the part of v that the output keeps, where v is the nonzero number
      that completes the sum of payloads and buffer to all ones. */
  lemma ValueCompletesSum(f: ChecksumOp, L: Layout, pkt: Packet, end: nat, c: Calculation) returns (v: nat)
    requires Usable(L, pkt, end, c)
    ensures var sum := OnesComplement.Add(PayloadSum(f, L, pkt, end, Payloads(c.lists)),
                                          Csum16(f, Buffer(L, pkt, end, c)));
            0 < v <= OnesComplement.MAX16 && OnesComplement.Add(sum, v) == OnesComplement.MAX16
    ensures Value(f, L, pkt, end, c) == v % Pow2(c.outputWidth)
    ensures c.outputWidth >= 16 ==> Value(f, L, pkt, end, c) == v
  {
    hide Buffer, PayloadSum, Pow2, Csum16;
    var sum := OnesComplement.Add(PayloadSum(f, L, pkt, end, Payloads(c.lists)), Csum16(f, Buffer(L, pkt, end, c)));
    v := if sum == OnesComplement.MAX16 then sum else OnesComplement.MAX16 - sum;
    if c.outputWidth >= 16 {
      Pow2Add(16, c.outputWidth - 16);
      PowersOfTwo();
      TimesAtLeast(0x10000, Pow2(c.outputWidth - 16));
      ModUnique(v, Pow2(c.outputWidth), 0, v);
    }
  }

  predicate PayloadEntry(items: seq<Item>, k: nat) {
    0 < k < |items| && items[k].Payload? && items[k - 1].Field?
  }

  /** `at` lists the payload entries behind a field among the first n, in order, and hs the headers
      before them. */
  ghost predicate ArePayloads(items: seq<Item>, n: nat, at: seq<nat>, hs: seq<nat>) {
    && |at| == |hs|
    && (forall j :: 0 <= j < |at| ==> at[j] < n && PayloadEntry(items, at[j]) && hs[j] == items[at[j] - 1].inst)
    && (forall i, j :: 0 <= i < j < |at| ==> at[i] < at[j])
    && (forall k: nat :: k < n && PayloadEntry(items, k) ==> k in at)
  }

  lemma OneMorePayload(items: seq<Item>, n: nat, at: seq<nat>, hs: seq<nat>)
    requires n < |items| && ArePayloads(items, n, at, hs)
    ensures if PayloadEntry(items, n) then ArePayloads(items, n + 1, at + [n], hs + [items[n - 1].inst])
            else ArePayloads(items, n + 1, at, hs)
  {
    if PayloadEntry(items, n) {
      assert (at + [n])[|at|] == n;
      forall k: nat | k < n + 1 && PayloadEntry(items, k) ensures k in at + [n] {
        assert k < n ==> k in at;
      }
    }
  }

  /** The headers whose payloads are summed: those of the fields right before payload entries. */
  lemma {:induction false} ListPayloadsAre(items: seq<Item>, n: nat) returns (at: seq<nat>)
    requires n <= |items|
    ensures ArePayloads(items, n, at, ListPayloads(items[..n]))
  {
    hide ListPayloads, PayloadEntry, ArePayloads;
    if n == 0 {
      at := [];
      NoPayloads(items);
    } else {
      at := ListPayloadsAre(items, n - 1);
      OneMorePayload(items, n - 1, at, ListPayloads(items[..n - 1]));
      ListPayloadsStep(items, n - 1);
      if PayloadEntry(items, n - 1) {
        at := at + [n - 1];
      }
    }
  }

  lemma NoPayloads(items: seq<Item>)
    ensures ArePayloads(items, 0, [], ListPayloads(items[..0]))
  {
  }

  lemma ListPayloadsStep(items: seq<Item>, n: nat)
    requires n < |items|
    ensures ListPayloads(items[..n + 1])
            == if PayloadEntry(items, n) then ListPayloads(items[..n]) + [items[n - 1].inst]
               else ListPayloads(items[..n])
  {
    assert items[..n + 1][..n] == items[..n];
    if n == 0 {
      assert ListPayloads(items[..0]) == [];
    }
  }

  /** The same over the first n lists; an entry is a list and a place in it. */
  ghost predicate AllPayloads(lists: seq<seq<Item>>, n: nat, at: seq<(nat, nat)>, hs: seq<nat>)
    requires n <= |lists|
  {
    && |at| == |hs| && InOrder(at)
    && (forall j :: 0 <= j < |at| ==> at[j].0 < n && IsPayload(lists, at[j], hs[j]))
    && (forall l: nat, k: nat :: l < n && PayloadEntry(lists[l], k) ==> (l, k) in at)
  }

  ghost predicate InOrder(at: seq<(nat, nat)>) {
    forall i, j :: 0 <= i < j < |at| ==> at[i].0 < at[j].0 || (at[i].0 == at[j].0 && at[i].1 < at[j].1)
  }

  predicate IsPayload(lists: seq<seq<Item>>, e: (nat, nat), h: nat) {
    e.0 < |lists| && PayloadEntry(lists[e.0], e.1) && h == lists[e.0][e.1 - 1].inst
  }

  function InList(l: nat, ks: seq<nat>): (at: seq<(nat, nat)>)
    ensures |at| == |ks| && forall j :: 0 <= j < |ks| ==> at[j] == (l, ks[j])
  {
    seq(|ks|, j requires 0 <= j < |ks| => (l, ks[j]))
  }

  lemma OneMoreList(lists: seq<seq<Item>>, n: nat, at: seq<(nat, nat)>, hs: seq<nat>, ks: seq<nat>, more: seq<nat>)
    requires n < |lists| && AllPayloads(lists, n, at, hs) && ArePayloads(lists[n], |lists[n]|, ks, more)
    ensures AllPayloads(lists, n + 1, at + InList(n, ks), hs + more)
  {
    assert forall k: nat :: PayloadEntry(lists[n], k) ==> k < |lists[n]|;
    hide InOrder, IsPayload, PayloadEntry, InList;
    var at' := at + InList(n, ks);
    StaysInOrder(lists, n, at, hs, ks, more);
    forall l: nat, k: nat | l < n + 1 && PayloadEntry(lists[l], k) ensures (l, k) in at' {
      if l < n {
        assert (l, k) in at;
      } else {
        var j :| 0 <= j < |ks| && ks[j] == k;
        assert at'[|at| + j] == (l, k);
      }
    }
    forall j | 0 <= j < |at'| ensures at'[j].0 < n + 1 && IsPayload(lists, at'[j], (hs + more)[j]) {
      if j >= |at| {
        LastPayload(lists, n, ks, more, j - |at|);
      }
    }
  }

  lemma LastPayload(lists: seq<seq<Item>>, n: nat, ks: seq<nat>, more: seq<nat>, j: nat)
    requires n < |lists| && ArePayloads(lists[n], |lists[n]|, ks, more) && j < |ks|
    ensures IsPayload(lists, (n, ks[j]), more[j])
  {
  }

  lemma StaysInOrder(lists: seq<seq<Item>>, n: nat, at: seq<(nat, nat)>, hs: seq<nat>, ks: seq<nat>, more: seq<nat>)
    requires n < |lists| && AllPayloads(lists, n, at, hs) && ArePayloads(lists[n], |lists[n]|, ks, more)
    ensures InOrder(at + InList(n, ks))
  {
    hide IsPayload, PayloadEntry, InList;
  }

  /** Of all lists, every payload entry behind a field, once and in order. */
  lemma {:induction false} PayloadsAre(lists: seq<seq<Item>>, n: nat) returns (at: seq<(nat, nat)>)
    requires n <= |lists|
    ensures AllPayloads(lists, n, at, Payloads(lists[..n]))
  {
    hide ListPayloads, ArePayloads;
    if n == 0 {
      at := [];
    } else {
      at := PayloadsAre(lists, n - 1);
      var ks := ListPayloadsAre(lists[n - 1], |lists[n - 1]|);
      assert lists[n - 1][..|lists[n - 1]|] == lists[n - 1] && lists[..n][..n - 1] == lists[..n - 1];
      OneMoreList(lists, n - 1, at, Payloads(lists[..n - 1]), ks, ListPayloads(lists[n - 1]));
      at := at + InList(n - 1, ks);
    }
  }

  /** The sum of the payloads: each of them from the end of its header to the end of the packet. */
  lemma {:induction false} PayloadSumIs(f: ChecksumOp, L: Layout, pkt: Packet, end: nat, hs: seq<nat>, k: nat)
    requires PayloadsInside(L, pkt, end, hs) && k < |hs|
    ensures PayloadsInside(L, pkt, end, hs[..k] + hs[k + 1..])
    ensures PayloadSum(f, L, pkt, end, hs)
            == OnesComplement.Add(PayloadSum(f, L, pkt, end, hs[..k] + hs[k + 1..]),
                                  Csum16(f, pkt.mem[pkt.base[hs[k]] + PrefixSum(L[hs[k]], |L[hs[k]]|) / 8..end]))
  {
    hide Csum16, PayloadStart, OnesComplement.Add;
    var n, rest := |hs| - 1, hs[..k] + hs[k + 1..];
    PayloadStartIs(L, pkt, hs[k]);
    if k == n {
      assert rest == hs[..n];
    } else {
      PayloadSumIs(f, L, pkt, end, hs[..n], k);
      assert hs[..n][..k] + hs[..n][k + 1..] == rest[..n - 1] && rest[n - 1] == hs[n];
      Exchange(PayloadSum(f, L, pkt, end, rest[..n - 1]), Csum16(f, pkt.mem[PayloadStart(L, pkt, hs[k])..end]),
               Csum16(f, pkt.mem[PayloadStart(L, pkt, hs[n])..end]));
    }
  }

  lemma PayloadStartIs(L: Layout, pkt: Packet, h: nat)
    requires h < |L| == |pkt.base|
    ensures PayloadStart(L, pkt, h) == pkt.base[h] + PrefixSum(L[h], |L[h]|) / 8
  {
  }

  lemma Exchange(a: nat, x: nat, y: nat)
    ensures OnesComplement.Add(OnesComplement.Add(a, x), y) == OnesComplement.Add(OnesComplement.Add(a, y), x)
  {
    OnesComplement.PartialSum(a + x, y);
    OnesComplement.PartialSum(a + y, x);
  }

  // ----- a receiver's sum over the data with its value -----

  function Values(m: Memory): (r: seq<Basics.byte>)
    ensures |r| == |m|
  {
    seq(|m|, i requires 0 <= i < |m| => ByteValue(m[i]))
  }

  function ByteValue(b: Byte): Basics.byte {
    PowersOfTwo();
    Nat(b) as Basics.byte
  }

  /** The ones' complement sum of the 16-bit words of m. */
  function OnesSumOf(m: Memory): nat {
    OnesComplement.OnesSum(OnesComplement.HostSum(Values(m)))
  }

  lemma Csum16OfSum(m: Memory)
    requires |m| < 0x10000
    ensures Csum16(OnesSumOf, m) == OnesSumOf(m)
  {
    assert m[..|m|] == m;
  }

  /** update_packet stores a 16-bit field as a little-endian word. */
  lemma StoredWord(mem: Memory, d: FieldDesc, v: Word)
    requires d.Narrow() && d.InBounds(mem) && d.bitOffset == 0 && d.bitWidth == 16
    ensures var mem' := WriteField(HostBits, mem, d, v);
            mem'[d.byteAddr] == v[..8] && mem'[d.byteAddr + 1] == v[8..16]
  {
    hide WriteField;
    var mem' := WriteField(HostBits, mem, d, v);
    forall b: nat | b < 8 ensures mem'[d.byteAddr][b] == v[b] && mem'[d.byteAddr + 1][b] == v[8..16][b] {
      StoredBit(mem, d, v, 0, b);
      StoredBit(mem, d, v, 1, b);
    }
  }

  lemma StoredBit(mem: Memory, d: FieldDesc, v: Word, j: nat, b: nat)
    requires d.Narrow() && d.InBounds(mem) && d.bitOffset == 0 && d.bitWidth == 16 && j < 2 && b < 8
    ensures WriteField(HostBits, mem, d, v)[d.byteAddr + j][b] == v[8 * j + b]
  {
    hide WriteField, BitAt, NetBit;
    var p := 8 * (d.byteAddr + j) + 7 - b;
    WriteFieldAt(HostBits, mem, d, v, p);
    BitOfWord(d, 8 * j + b, p);
    NetBitIs(WriteField(HostBits, mem, d, v), d.byteAddr + j, b, p);
  }

  lemma NetBitIs(mem: Memory, at: nat, b: nat, p: nat)
    requires at < |mem| && b < 8 && p == 8 * at + 7 - b
    ensures p < 8 * |mem| && NetBit(mem, p) == mem[at][b]
  {
    assert p / 8 == at && p % 8 == 7 - b;
  }

  lemma BitOfWord(d: FieldDesc, b: nat, p: nat)
    requires d.Narrow() && d.bitOffset == 0 && d.bitWidth == 16 && b < 16
    requires p == 8 * (d.byteAddr + b / 8) + 7 - b % 8
    ensures d.Covers(p) && BitAt(HostBits, d, p) == b
  {
    assert Flip(8 * (b / 8) + 7 - b % 8) == b;
  }

  lemma WordValue(v: nat, lo: Byte, hi: Byte)
    requires v <= OnesComplement.MAX16 && lo == ToWord(v)[..8] && hi == ToWord(v)[8..16]
    ensures OnesComplement.HostSum(Values([lo, hi])) == v
  {
    hide Nat, Pow2;
    var w := ToWord(v);
    PowersOfTwo();
    assert w[..16] == lo + hi;
    NatOfConcat(lo, hi);
    NatOfPrefix(w, 16);
    NatOfBits(v, 32);
    ModUnique(v, Pow2(32), 0, v);
    ModUnique(v, Pow2(16), 0, v);
    var d := Values([lo, hi]);
    assert d == [ByteValue(lo), ByteValue(hi)] && d[2..] == [];
    assert v == Nat(lo) + 256 * Nat(hi);
    assert OnesComplement.HostSum(d) == d[0] as nat + 256 * (d[1] as nat) + OnesComplement.HostSum(d[2..]);
  }

  /** Two bytes put in at an even place add their word to the sum. */
  lemma WordAdds(a: Memory, w: Memory, b: Memory)
    requires |a| % 2 == 0 && |w| == 2
    ensures OnesComplement.HostSum(Values(a + w + b))
            == OnesComplement.HostSum(Values(a + b)) + OnesComplement.HostSum(Values(w))
  {
    hide Values, OnesComplement.HostSum;
    ValuesConcat(a, w + b);
    ValuesConcat(w, b);
    ValuesConcat(a, b);
    assert a + w + b == a + (w + b);
    OnesComplement.HostSumAppend(Values(a), Values(w + b));
    OnesComplement.HostSumAppend(Values(w), Values(b));
    OnesComplement.HostSumAppend(Values(a), Values(b));
  }

  lemma ValuesConcat(a: Memory, b: Memory)
    ensures |Values(a)| == |a| && Values(a + b) == Values(a) + Values(b)
  {
    hide ByteValue;
  }

  /** The sum with v among the words. */
  lemma CompletedSum(p: nat, s: nat, v: nat)
    requires OnesComplement.Add(OnesComplement.Add(p, OnesComplement.OnesSum(s)), v) == OnesComplement.MAX16
    ensures OnesComplement.Add(p, OnesComplement.OnesSum(s + v)) == OnesComplement.MAX16
  {
    hide OnesComplement.OnesSum;
    OnesComplement.PartialSum(s, p);
    OnesComplement.PartialSum(p + s, v);
    OnesComplement.PartialSum(s + v, p);
    assert OnesComplement.OnesSum(s) + p == p + OnesComplement.OnesSum(s) && s + p == p + s
      && OnesComplement.OnesSum(s + v) + p == p + OnesComplement.OnesSum(s + v) && s + v + p == p + s + v;
  }

  lemma InsertedWord(short: Memory, long: Memory, word: Memory, a: seq<bool>, b: seq<bool>)
    requires |word| == 2 && |a| % 16 == 0 && BitsOf(short) == a + b && BitsOf(long) == a + BitsOf(word) + b
    ensures OnesComplement.HostSum(Values(long))
            == OnesComplement.HostSum(Values(short)) + OnesComplement.HostSum(Values(word))
    ensures |long| == |short| + 2
  {
    hide Values, OnesComplement.HostSum, NetBits;
    BitsLength(short);
    BitsLength(long);
    BitsLength(word);
    var n := |a| / 8;
    var lo, hi := short[..n], short[n..];
    BitsLength(lo);
    BitsOfConcat(lo, hi);
    assert short == lo + hi;
    SplitsAlike(BitsOf(lo), BitsOf(hi), a, b);
    BitsOfConcat(lo + word, hi);
    BitsOfConcat(lo, word);
    BitsLength(lo + word + hi);
    SameBits(long, lo + word + hi);
    WordAdds(lo, word, hi);
  }

  lemma BitsLength(m: Memory)
    ensures |BitsOf(m)| == 8 * |m|
  {
  }

  lemma {:induction false} ListBitsConcat(L: Layout, pkt: Packet, a: seq<Item>, b: seq<Item>)
    requires Placed(L, pkt) && Known(L, a) && Known(L, b)
    ensures Known(L, a + b) && ListBits(L, pkt, a + b) == ListBits(L, pkt, a) + ListBits(L, pkt, b)
  {
    hide ItemBits, Placed, ListBits;
    if b == [] {
      assert a + b == a;
      NoBits(L, pkt);
    } else {
      var front, it := b[..|b| - 1], b[|b| - 1];
      ListBitsConcat(L, pkt, a, front);
      ListBitsAppend(L, pkt, front, it);
      ListBitsAppend(L, pkt, a + front, it);
      assert b == front + [it] && a + b == (a + front) + [it];
      Associate(ListBits(L, pkt, a), ListBits(L, pkt, front), ItemBits(L, pkt, it));
    }
  }

  lemma NoBits(L: Layout, pkt: Packet)
    requires Placed(L, pkt)
    ensures ListBits(L, pkt, []) == []
  {
  }

  lemma ListBitsAppend(L: Layout, pkt: Packet, items: seq<Item>, it: Item)
    requires Placed(L, pkt) && Known(L, items) && (it.Field? ==> it.inst < |L| && it.index < |L[it.inst]|)
    ensures Known(L, items + [it]) && ListBits(L, pkt, items + [it]) == ListBits(L, pkt, items) + ItemBits(L, pkt, it)
  {
    hide ItemBits;
    assert (items + [it])[..|items|] == items;
  }

  lemma {:induction false} ListBitsLength(L: Layout, pkt: Packet, items: seq<Item>)
    requires Placed(L, pkt) && Known(L, items)
    ensures |ListBits(L, pkt, items)| == Total(L, items)
  {
    if items != [] {
      ListBitsLength(L, pkt, items[..|items| - 1]);
    }
  }

  /** The calculation of one list, without field i of header h and with it. */
  function Without(front: seq<Item>, back: seq<Item>, width: nat): Calculation {
    Calculation([front + back], width)
  }

  function Whole(front: seq<Item>, back: seq<Item>, h: nat, i: nat, width: nat): Calculation {
    Calculation([front + [Field(h, i)] + back], width)
  }

  lemma {:induction false} SamePayloadEntries(front: seq<Item>, back: seq<Item>, h: nat, i: nat)
    requires back != [] ==> !back[0].Payload?
    ensures ListPayloads(front + [Field(h, i)] + back) == ListPayloads(front + back)
  {
    var whole, short := front + [Field(h, i)] + back, front + back;
    if back == [] {
      assert whole[..|whole| - 1] == front == short;
    } else {
      var n := |back| - 1;
      assert whole[..|whole| - 1] == front + [Field(h, i)] + back[..n] && short[..|short| - 1] == front + back[..n];
      SamePayloadEntries(front, back[..n], h, i);
    }
  }

  lemma PayloadsOfOne(items: seq<Item>)
    ensures Payloads([items]) == ListPayloads(items)
  {
    assert [items][..0] == [];
    assert [] + ListPayloads(items) == ListPayloads(items);
  }

  lemma OneList(L: Layout, pkt: Packet, items: seq<Item>)
    requires Placed(L, pkt) && Known(L, items)
    ensures ListsBits(L, pkt, [items]) == ListBits(L, pkt, items)
  {
    assert [items][..0] == [];
    assert [] + ListBits(L, pkt, items) == ListBits(L, pkt, items);
  }

  /** All blocks of the calculation start on byte boundaries. */
  ghost predicate AllAligned(L: Layout, c: Calculation) {
    && (forall items :: items in c.lists ==> Known(L, items))
    && forall op :: op in PlanLists(L, c.lists).ops ==> InLayout(L, op) && Aligned(L, op)
  }

  lemma BufferBits(L: Layout, pkt: Packet, end: nat, items: seq<Item>, width: nat)
    requires Known(L, items) && Usable(L, pkt, end, Calculation([items], width))
    requires AllAligned(L, Calculation([items], width))
    ensures BitsOf(Buffer(L, pkt, end, Calculation([items], width))) == ListBits(L, pkt, items)
    ensures 8 * |Buffer(L, pkt, end, Calculation([items], width))| == Total(L, items)
  {
    hide PlanLists, Filled, Aligned, BitsOf;
    BufferIsInOrder(L, pkt, [items]);
    OneList(L, pkt, items);
    BitsLength(Buffer(L, pkt, end, Calculation([items], width)));
    ListBitsLength(L, pkt, items);
  }

  /** The word at a byte-aligned 16-bit field. */
  lemma FieldIsWord(L: Layout, pkt: Packet, h: nat, i: nat)
    requires Placed(L, pkt) && Target(L, pkt, h, i) && pkt.valid[h] && L[h][i] == 16 && PrefixSum(L[h], i) % 8 == 0
    ensures var d := Desc(L, pkt, h, i);
            && d.bitOffset == 0 && d.bitWidth == 16 && d.byteAddr + 2 <= |pkt.mem|
            && ItemBits(L, pkt, Field(h, i)) == BitsOf(pkt.mem[d.byteAddr..d.byteAddr + 2])
  {
    var d := Desc(L, pkt, h, i);
    var word := pkt.mem[d.byteAddr..d.byteAddr + 2];
    assert 8 * pkt.base[h] + PrefixSum(L[h], i) == 8 * d.byteAddr;
    forall p | 0 <= p < 16 ensures NetBit(word, p) == NetBit(pkt.mem, 8 * d.byteAddr + p) {
      assert (8 * d.byteAddr + p) / 8 == d.byteAddr + p / 8;
    }
  }

  /** update_packet puts the value's two bytes at the field. */
  lemma FieldHoldsValue(f: ChecksumOp, L: Layout, pkt: Packet, end: nat, c: Calculation, h: nat, i: nat)
    requires Usable(L, pkt, end, c) && Target(L, pkt, h, i) && pkt.valid[h]
    requires L[h][i] == 16 && PrefixSum(L[h], i) % 8 == 0
    ensures var mem', d := UpdateField(f, L, pkt, end, c, h, i).mem, Desc(L, pkt, h, i);
            && d.byteAddr + 2 <= |mem'|
            && OnesComplement.HostSum(Values(mem'[d.byteAddr..d.byteAddr + 2])) == Value(f, L, pkt, end, c)
  {
    hide Usable, Value, WriteField, ToWord, Values, OnesComplement.HostSum;
    var d, v := Desc(L, pkt, h, i), Value(f, L, pkt, end, c);
    StoredWord(pkt.mem, d, ToWord(v));
    ValueIsSmall(f, L, pkt, end, c, 16);
    var mem' := UpdateField(f, L, pkt, end, c, h, i).mem;
    WordValue(v, mem'[d.byteAddr], mem'[d.byteAddr + 1]);
    assert mem'[d.byteAddr..d.byteAddr + 2] == [mem'[d.byteAddr], mem'[d.byteAddr + 1]];
  }

  /** Both buffers as bits. */
  lemma ShortBits(L: Layout, pkt: Packet, end: nat, front: seq<Item>, back: seq<Item>, width: nat)
    requires Known(L, front) && Known(L, back) && Usable(L, pkt, end, Without(front, back, width))
    requires AllAligned(L, Without(front, back, width))
    ensures BitsOf(Buffer(L, pkt, end, Without(front, back, width)))
            == ListBits(L, pkt, front) + ListBits(L, pkt, back)
  {
    hide Buffer, PlanLists, ListBits, BitsOf;
    ListBitsConcat(L, pkt, front, back);
    BufferBits(L, pkt, end, front + back, width);
  }

  lemma WholeBits(L: Layout, pkt: Packet, end: nat, front: seq<Item>, back: seq<Item>, h: nat, i: nat, width: nat)
    requires Known(L, front) && Known(L, back) && h < |L| && i < |L[h]|
    requires Usable(L, pkt, end, Whole(front, back, h, i, width)) && AllAligned(L, Whole(front, back, h, i, width))
    ensures BitsOf(Buffer(L, pkt, end, Whole(front, back, h, i, width)))
            == ListBits(L, pkt, front) + ItemBits(L, pkt, Field(h, i)) + ListBits(L, pkt, back)
  {
    hide Buffer, PlanLists, ListBits, ItemBits, BitsOf;
    SingleItem(L, pkt, h, i);
    ListBitsConcat(L, pkt, front, [Field(h, i)]);
    ListBitsConcat(L, pkt, front + [Field(h, i)], back);
    BufferBits(L, pkt, end, front + [Field(h, i)] + back, width);
  }

  /** The field brings its word into the buffer. */
  lemma WholeBufferSum(L: Layout, pkt: Packet, end: nat, front: seq<Item>, back: seq<Item>, h: nat, i: nat, width: nat)
    requires Known(L, front) && Known(L, back) && Target(L, pkt, h, i) && pkt.valid[h]
    requires L[h][i] == 16 && PrefixSum(L[h], i) % 8 == 0 && Total(L, front) % 16 == 0
    requires Usable(L, pkt, end, Without(front, back, width)) && Usable(L, pkt, end, Whole(front, back, h, i, width))
    requires AllAligned(L, Without(front, back, width)) && AllAligned(L, Whole(front, back, h, i, width))
    ensures var short := Buffer(L, pkt, end, Without(front, back, width));
            var long := Buffer(L, pkt, end, Whole(front, back, h, i, width));
            var d := Desc(L, pkt, h, i);
            && |long| == |short| + 2 && d.byteAddr + 2 <= |pkt.mem|
            && OnesComplement.HostSum(Values(long))
               == OnesComplement.HostSum(Values(short))
                  + OnesComplement.HostSum(Values(pkt.mem[d.byteAddr..d.byteAddr + 2]))
  {
    assert Placed(L, pkt);
    ShortBits(L, pkt, end, front, back, width);
    WholeBits(L, pkt, end, front, back, h, i, width);
    hide Usable, Buffer, PlanLists, ListBits, ItemBits, Values, OnesComplement.HostSum, AllAligned, Desc, BitsOf,
         Without, Whole, Total;
    FieldIsWord(L, pkt, h, i);
    ListBitsLength(L, pkt, front);
    var d := Desc(L, pkt, h, i);
    InsertedWord(Buffer(L, pkt, end, Without(front, back, width)),
                 Buffer(L, pkt, end, Whole(front, back, h, i, width)),
                 pkt.mem[d.byteAddr..d.byteAddr + 2], ListBits(L, pkt, front), ListBits(L, pkt, back));
  }

  lemma SingleItem(L: Layout, pkt: Packet, h: nat, i: nat)
    requires Placed(L, pkt) && h < |L| && i < |L[h]|
    ensures Known(L, [Field(h, i)]) && ListBits(L, pkt, [Field(h, i)]) == ItemBits(L, pkt, Field(h, i))
  {
    hide ItemBits;
    assert [Field(h, i)][..0] == [];
    assert [] + ItemBits(L, pkt, Field(h, i)) == ItemBits(L, pkt, Field(h, i));
  }

  /** What every other receiver checks. With the ones' complement sum as checksum operation, a packet
      whose 16-bit checksum field has been updated sums to all ones over its payloads and the list with
      that field in its place: at a whole number of words from the start. */
  lemma DataWithValueSumsToOnes(L: Layout, pkt: Packet, end: nat, front: seq<Item>, back: seq<Item>, h: nat, i: nat,
          width: nat)
    requires Known(L, front) && Known(L, back) && (back != [] ==> !back[0].Payload?) && Target(L, pkt, h, i)
    requires pkt.valid[h] && L[h][i] == 16 && PrefixSum(L[h], i) % 8 == 0 && Total(L, front) % 16 == 0 && width >= 16
    requires Usable(L, pkt, end, Without(front, back, width)) && Usable(L, pkt, end, Whole(front, back, h, i, width))
    requires AllAligned(L, Without(front, back, width)) && AllAligned(L, Whole(front, back, h, i, width))
    requires Independent(L, pkt, end, Without(front, back, width), h, i)
    requires |Buffer(L, pkt, end, Whole(front, back, h, i, width))| < 0x10000
    ensures var pkt' := UpdateField(OnesSumOf, L, pkt, end, Without(front, back, width), h, i);
            var whole := Whole(front, back, h, i, width);
            && Usable(L, pkt', end, whole)
            && OnesComplement.Add(PayloadSum(OnesSumOf, L, pkt', end, Payloads(whole.lists)),
                                  Csum16(OnesSumOf, Buffer(L, pkt', end, whole))) == OnesComplement.MAX16
  {
    assert Placed(L, pkt);
    SamePayloadHeaders(front, back, h, i, width);
    hide Usable, Buffer, PlanLists, Values, OnesComplement.HostSum, OnesComplement.OnesSum, AllAligned, Desc,
         PayloadSum, Csum16, Independent, Value, WriteField, Payloads, Known, Total, PrefixSum, OnesSumOf, UpdateField;
    var c, whole := Without(front, back, width), Whole(front, back, h, i, width);
    var pkt' := UpdateField(OnesSumOf, L, pkt, end, c, h, i);
    UpdateKeepsRest(OnesSumOf, L, pkt, end, c, h, i);
    hide Without, Whole;
    UsableAfter(L, pkt, pkt', end, c);
    UsableAfter(L, pkt, pkt', end, whole);
    ValueInField(L, pkt, pkt', end, c, h, i);
    WholeBufferSum(L, pkt', end, front, back, h, i, width);
    SameBufferLength(L, pkt, pkt', end, whole);
    SumsToOnes(L, pkt', end, c, whole);
  }

  /** The word at the field is the value, which the update has not changed. */
  lemma ValueInField(L: Layout, pkt: Packet, pkt': Packet, end: nat, c: Calculation, h: nat, i: nat)
    requires Usable(L, pkt, end, c) && Usable(L, pkt', end, c) && Target(L, pkt, h, i) && pkt.valid[h]
    requires L[h][i] == 16 && PrefixSum(L[h], i) % 8 == 0 && Independent(L, pkt, end, c, h, i)
    requires pkt' == UpdateField(OnesSumOf, L, pkt, end, c, h, i)
    ensures Target(L, pkt', h, i) && pkt'.valid[h]
    ensures var d := Desc(L, pkt', h, i);
            && d.byteAddr + 2 <= |pkt'.mem|
            && OnesComplement.HostSum(Values(pkt'.mem[d.byteAddr..d.byteAddr + 2])) == Value(OnesSumOf, L, pkt', end, c)
  {
    UpdateKeepsRest(OnesSumOf, L, pkt, end, c, h, i);
    hide Usable, Values, OnesComplement.HostSum, Desc, Independent, Value, UpdateField, OnesSumOf, PrefixSum;
    UpdateOnlyChanges(OnesSumOf, L, pkt, end, c, h, i);
    ValueIsStable(OnesSumOf, L, pkt, pkt', end, c, h, i);
    FieldHoldsValue(OnesSumOf, L, pkt, end, c, h, i);
    SameDesc(L, pkt, pkt', h, i);
  }

  lemma UpdateKeepsRest(f: ChecksumOp, L: Layout, pkt: Packet, end: nat, c: Calculation, h: nat, i: nat)
    requires Usable(L, pkt, end, c) && Target(L, pkt, h, i)
    ensures var pkt' := UpdateField(f, L, pkt, end, c, h, i);
            pkt'.base == pkt.base && pkt'.valid == pkt.valid && |pkt'.mem| == |pkt.mem|
  {
    hide WriteField, Usable, Value;
  }

  lemma SamePayloadHeaders(front: seq<Item>, back: seq<Item>, h: nat, i: nat, width: nat)
    requires back != [] ==> !back[0].Payload?
    ensures Payloads(Whole(front, back, h, i, width).lists) == Payloads(Without(front, back, width).lists)
    ensures Without(front, back, width).outputWidth == width
  {
    PayloadsOfOne(front + back);
    PayloadsOfOne(front + [Field(h, i)] + back);
    SamePayloadEntries(front, back, h, i);
  }

  /** The sum of the whole list is that of the short one and the value. */
  lemma SumsToOnes(L: Layout, pkt: Packet, end: nat, c: Calculation, whole: Calculation)
    requires Usable(L, pkt, end, c) && Usable(L, pkt, end, whole) && c.outputWidth >= 16
    requires Payloads(whole.lists) == Payloads(c.lists)
    requires |Buffer(L, pkt, end, c)| < 0x10000 && |Buffer(L, pkt, end, whole)| < 0x10000
    requires OnesComplement.HostSum(Values(Buffer(L, pkt, end, whole)))
             == OnesComplement.HostSum(Values(Buffer(L, pkt, end, c))) + Value(OnesSumOf, L, pkt, end, c)
    ensures OnesComplement.Add(PayloadSum(OnesSumOf, L, pkt, end, Payloads(whole.lists)),
                               Csum16(OnesSumOf, Buffer(L, pkt, end, whole))) == OnesComplement.MAX16
  {
    var v := ValueCompletesSum(OnesSumOf, L, pkt, end, c);
    hide Buffer, PlanLists, Values, OnesComplement.HostSum, OnesComplement.Add, PayloadSum, Csum16, Value, Payloads,
         OnesSumOf;
    CompletedBuffer(PayloadSum(OnesSumOf, L, pkt, end, Payloads(c.lists)), Buffer(L, pkt, end, c),
                    Buffer(L, pkt, end, whole), v);
  }

  lemma CompletedBuffer(p: nat, short: Memory, long: Memory, v: nat)
    requires |short| < 0x10000 && |long| < 0x10000
    requires OnesComplement.HostSum(Values(long)) == OnesComplement.HostSum(Values(short)) + v
    requires OnesComplement.Add(OnesComplement.Add(p, Csum16(OnesSumOf, short)), v) == OnesComplement.MAX16
    ensures OnesComplement.Add(p, Csum16(OnesSumOf, long)) == OnesComplement.MAX16
  {
    hide Csum16, Values, OnesComplement.HostSum, OnesComplement.OnesSum;
    Csum16OfSum(short);
    Csum16OfSum(long);
    CompletedSum(p, OnesComplement.HostSum(Values(short)), v);
  }

  lemma SameDesc(L: Layout, pkt: Packet, pkt': Packet, h: nat, i: nat)
    requires Target(L, pkt, h, i) && pkt'.base == pkt.base && pkt'.valid == pkt.valid && |pkt'.mem| == |pkt.mem|
    ensures Target(L, pkt', h, i) && Desc(L, pkt', h, i) == Desc(L, pkt, h, i)
  {
  }

  lemma SameBufferLength(L: Layout, pkt: Packet, pkt': Packet, end: nat, c: Calculation)
    requires Usable(L, pkt, end, c) && Usable(L, pkt', end, c)
    ensures |Buffer(L, pkt', end, c)| == |Buffer(L, pkt, end, c)|
  {
    hide PlanLists, Filled;
  }
}

/** The buffer the generated code fills holds the field list in order. */
module FieldListBuffer {
  import opened Words
  import opened FieldMacros
  import opened HeaderRecord
  import opened FieldLists

  // ----- the copies tile the buffer -----

  /** Every copy starts where the one before it ends; together they end at byte n. */
  predicate Tiles(ops: seq<Op>, n: nat) {
    if ops == [] then n == 0 else
      var last := ops[|ops| - 1];
      last.at + last.Len() == n && Tiles(ops[..|ops| - 1], last.at)
  }

  ghost predicate AllInLayout(L: Layout, ops: seq<Op>) {
    forall op :: op in ops ==> InLayout(L, op)
  }

  /** The copies' data one after another, in the order of the list. */
  function Assembled(L: Layout, pkt: Packet, ops: seq<Op>): Memory
    requires Placed(L, pkt) && AllInLayout(L, ops)
  {
    if ops == [] then [] else Assembled(L, pkt, ops[..|ops| - 1]) + Data(L, pkt, ops[|ops| - 1])
  }

  lemma {:induction false} TilesStayInside(L: Layout, ops: seq<Op>, n: nat)
    requires Tiles(ops, n) && AllInLayout(L, ops)
    ensures Runnable(L, ops, n)
  {
    if ops != [] {
      var last := ops[|ops| - 1];
      TilesStayInside(L, ops[..|ops| - 1], last.at);
      assert ops == ops[..|ops| - 1] + [last];
    }
  }

  lemma SplitLast(ops: seq<Op>)
    requires ops != []
    ensures ops == ops[..|ops| - 1] + [ops[|ops| - 1]]
    ensures forall op :: op in ops <==> op in ops[..|ops| - 1] || op == ops[|ops| - 1]
  {
    assert ops == ops[..|ops| - 1] + [ops[|ops| - 1]];
  }

  /** No gap and no overlap: every byte is under exactly one copy. */
  lemma {:induction false} Covered(L: Layout, pkt: Packet, ops: seq<Op>, n: nat, p: nat) returns (o: Op)
    requires Placed(L, pkt) && AllInLayout(L, ops) && Tiles(ops, n) && p < n
    ensures o in ops && o.Over(p) && forall op :: op in ops && op.Over(p) ==> op == o
    ensures p < |Assembled(L, pkt, ops)| && Assembled(L, pkt, ops)[p] == Data(L, pkt, o)[p - o.at]
  {
    hide Data, InLayout;
    var last, front := ops[|ops| - 1], ops[..|ops| - 1];
    SplitLast(ops);
    TilesStayInside(L, front, last.at);
    AssembledLength(L, pkt, front, last.at);
    if p >= last.at {
      o := last;
    } else {
      o := Covered(L, pkt, front, last.at, p);
    }
  }

  lemma {:induction false} AssembledLength(L: Layout, pkt: Packet, ops: seq<Op>, n: nat)
    requires Placed(L, pkt) && AllInLayout(L, ops) && Tiles(ops, n)
    ensures |Assembled(L, pkt, ops)| == n
  {
    if ops != [] {
      AssembledLength(L, pkt, ops[..|ops| - 1], ops[|ops| - 1].at);
    }
  }

  // ----- the order of the copies does not matter -----

  predicate Active(pkt: Packet, op: Op)
    requires op.Copy? ==> op.inst < |pkt.valid|
  {
    op.PutBytes? || pkt.valid[op.inst]
  }

  lemma StepAt(L: Layout, pkt: Packet, buf: Memory, op: Op, p: nat)
    requires Placed(L, pkt) && InLayout(L, op) && op.at + op.Len() <= |buf| && p < |buf|
    ensures Step(L, pkt, buf, op)[p] == if op.Over(p) && Active(pkt, op) then Data(L, pkt, op)[p - op.at] else buf[p]
  {
    hide Data;
  }

  /** A byte under one copy only holds that copy's data once it has run. */
  lemma {:induction false} RunOpsAt(L: Layout, pkt: Packet, buf: Memory, ops: seq<Op>, o: Op, p: nat)
    requires Placed(L, pkt) && Runnable(L, ops, |buf|) && InLayout(L, o) && p < |buf| && o.Over(p)
    requires forall op :: op in ops && op.Over(p) ==> op == o
    ensures RunOps(L, pkt, buf, ops)[p] == if o in ops && Active(pkt, o) then Data(L, pkt, o)[p - o.at] else buf[p]
    decreases |ops|
  {
    if ops != [] {
      assert ops == [ops[0]] + ops[1..];
      StepAt(L, pkt, buf, ops[0], p);
      hide Data, Step;
      RunOpsAt(L, pkt, Step(L, pkt, buf, ops[0]), ops[1..], o, p);
    }
  }

  lemma {:induction false} RunOpsAppend(L: Layout, pkt: Packet, buf: Memory, a: seq<Op>, b: seq<Op>)
    requires Placed(L, pkt) && Runnable(L, a, |buf|) && Runnable(L, b, |buf|)
    ensures Runnable(L, a + b, |buf|)
    ensures RunOps(L, pkt, buf, a + b) == RunOps(L, pkt, RunOps(L, pkt, buf, a), b)
    decreases |a|
  {
    if a == [] {
      assert a + b == b;
    } else {
      assert (a + b)[0] == a[0] && (a + b)[1..] == a[1..] + b;
      RunOpsAppend(L, pkt, Step(L, pkt, buf, a[0]), a[1..], b);
    }
  }

  lemma {:induction false} SkippedGroup(L: Layout, pkt: Packet, buf: Memory, ops: seq<CopyOp>)
    requires Placed(L, pkt) && Runnable(L, ops, |buf|) && forall op: CopyOp :: op in ops ==> !pkt.valid[op.inst]
    ensures RunOps(L, pkt, buf, ops) == buf
    decreases |ops|
  {
    if ops != [] {
      SkippedGroup(L, pkt, buf, ops[1..]);
    }
  }

  /** One test for a whole group does what a test before every copy would do. */
  lemma {:induction false} GroupsRunFlat(L: Layout, pkt: Packet, buf: Memory, groups: seq<Group>)
    requires Placed(L, pkt) && GroupsRunnable(L, groups, |buf|)
    ensures Runnable(L, Flat(groups), |buf|)
    ensures RunGroups(L, pkt, buf, groups) == RunOps(L, pkt, buf, Flat(groups))
    decreases |groups|
  {
    if groups != [] {
      var g := groups[0];
      var buf' := if pkt.valid[g.inst] then RunOps(L, pkt, buf, g.copies) else buf;
      GroupsRunFlat(L, pkt, buf', groups[1..]);
      if !pkt.valid[g.inst] {
        SkippedGroup(L, pkt, buf, g.copies);
      }
      RunOpsAppend(L, pkt, buf, g.copies, Flat(groups[1..]));
    }
  }

  /** Regrouped and in list order the code leaves the same buffer. */
  lemma FilledIsAssembled(L: Layout, pkt: Packet, ops: seq<Op>, n: nat)
    requires Placed(L, pkt) && AllInLayout(L, ops) && Tiles(ops, n)
    ensures Runnable(L, ops, n) && Filled(L, pkt, ops, n) == Assembled(L, pkt, ops)
  {
    TilesStayInside(L, ops, n);
    AssembledLength(L, pkt, ops, n);
    SameOps(ops);
    GroupsCover(Copies(ops));
    GroupsAreRunnable(L, Copies(ops), n);
    var zero, code := ZeroBytes(n), Puts(ops) + Flat(Regroup(Copies(ops)));
    GroupsRunFlat(L, pkt, RunOps(L, pkt, zero, Puts(ops)), Regroup(Copies(ops)));
    RunOpsAppend(L, pkt, zero, Puts(ops), Flat(Regroup(Copies(ops))));
    assert forall op :: op in code <==> op in ops;
    SameBuffer(L, pkt, ops, code, n);
  }

  lemma SameBuffer(L: Layout, pkt: Packet, ops: seq<Op>, code: seq<Op>, n: nat)
    requires Placed(L, pkt) && AllInLayout(L, ops) && Tiles(ops, n) && Runnable(L, code, n)
    requires forall op :: op in code <==> op in ops
    ensures RunOps(L, pkt, ZeroBytes(n), code) == Assembled(L, pkt, ops)
  {
    AssembledLength(L, pkt, ops, n);
    var buf := RunOps(L, pkt, ZeroBytes(n), code);
    forall p | 0 <= p < n ensures buf[p] == Assembled(L, pkt, ops)[p] {
      var o := Covered(L, pkt, ops, n, p);
      RunOpsAt(L, pkt, ZeroBytes(n), code, o, p);
    }
  }

  // ----- a block copy is the concatenation of its fields -----

  function BitsOf(buf: Memory): seq<bool> {
    NetBits(buf, 0, 8 * |buf|)
  }

  lemma BitsOfConcat(a: Memory, b: Memory)
    ensures BitsOf(a + b) == BitsOf(a) + BitsOf(b)
  {
    forall p | 0 <= p < 8 * |a + b|
      ensures NetBit(a + b, p) == if p < 8 * |a| then NetBit(a, p) else NetBit(b, p - 8 * |a|)
    {
      if p >= 8 * |a| {
        assert p / 8 - |a| == (p - 8 * |a|) / 8;
      }
    }
  }

  /** The bits a copy stands for: those of its fields. */
  function OpBits(L: Layout, pkt: Packet, op: Op): (r: seq<bool>)
    requires Placed(L, pkt) && InLayout(L, op)
    ensures op.Copy? ==> |r| == op.width
  {
    if op.PutBytes? then BitsOf(op.bytes)
    else if pkt.valid[op.inst] then NetBits(pkt.mem, 8 * pkt.base[op.inst] + PrefixSum(L[op.inst], op.first), op.width)
    else Zeros(op.width)
  }

  lemma PlaceDoesNotMatter(L: Layout, pkt: Packet, op: Op)
    requires Placed(L, pkt) && InLayout(L, op) && op.Copy?
    ensures OpBits(L, pkt, op) == OpBits(L, pkt, Copy(0, op.inst, op.first, op.width))
  {
    hide NetBits, Zeros;
  }

  function Intended(L: Layout, pkt: Packet, ops: seq<Op>): seq<bool>
    requires Placed(L, pkt) && AllInLayout(L, ops)
  {
    if ops == [] then [] else Intended(L, pkt, ops[..|ops| - 1]) + OpBits(L, pkt, ops[|ops| - 1])
  }

  /** A block that starts on a byte boundary. */
  predicate Aligned(L: Layout, op: Op)
    requires op.Copy? ==> op.inst < |L| && op.first < |L[op.inst]|
  {
    op.Copy? ==> PrefixSum(L[op.inst], op.first) % 8 == 0
  }

  lemma DataBits(L: Layout, pkt: Packet, op: Op)
    requires Placed(L, pkt) && InLayout(L, op) && (op.Copy? ==> op.width % 8 == 0)
    ensures |BitsOf(Data(L, pkt, op))| == 8 * op.Len() == |OpBits(L, pkt, op)|
    ensures Aligned(L, op) ==> BitsOf(Data(L, pkt, op)) == OpBits(L, pkt, op)
  {
    if op.Copy? && Aligned(L, op) {
      var data := Data(L, pkt, op);
      if pkt.valid[op.inst] {
        var from := pkt.base[op.inst] + PrefixSum(L[op.inst], op.first) / 8;
        forall p | 0 <= p < 8 * |data| ensures NetBit(data, p) == NetBit(pkt.mem, 8 * from + p) {
          assert (8 * from + p) / 8 == from + p / 8;
        }
      }
    }
  }

  /** Neighbouring fields lie back to back. */
  lemma {:induction false} RunIsConcatenation(L: Layout, pkt: Packet, items: seq<Item>, k: nat, j: nat)
    requires Placed(L, pkt) && Known(L, items) && k <= j < |items| && items[k].Field?
    requires forall t :: k <= t <= j ==> items[t] == Field(items[k].inst, items[k].index + (t - k))
    ensures var h, i := items[k].inst, items[k].index;
            var w := RunWidth(L, items, k, j);
            InLayout(L, Copy(0, h, i, w)) && ListBits(L, pkt, items[..j + 1])
              == ListBits(L, pkt, items[..k]) + OpBits(L, pkt, Copy(0, h, i, w))
  {
    hide OpBits, ItemBits, RunWidth;
    assert items[..j + 1][..j] == items[..j];
    if j > k {
      RunIsConcatenation(L, pkt, items, k, j - 1);
    }
    OneMoreField(L, pkt, items, k, j);
  }

  lemma OneMoreField(L: Layout, pkt: Packet, items: seq<Item>, k: nat, j: nat)
    requires Placed(L, pkt) && Known(L, items) && k <= j < |items| && items[k].Field?
    requires forall t :: k <= t <= j ==> items[t] == Field(items[k].inst, items[k].index + (t - k))
    ensures var h, i, w := items[k].inst, items[k].index, RunWidth(L, items, k, j);
            && InLayout(L, Copy(0, h, i, w))
            && OpBits(L, pkt, Copy(0, h, i, w))
               == if j == k then ItemBits(L, pkt, items[j])
                  else OpBits(L, pkt, Copy(0, h, i, RunWidth(L, items, k, j - 1))) + ItemBits(L, pkt, items[j])
  {
    var h, i := items[k].inst, items[k].index;
    PrefixSumMonotone(L[h], items[j].index + 1, |L[h]|);
    if j > k && pkt.valid[h] {
      BitsSplit(pkt.mem, 8 * pkt.base[h] + PrefixSum(L[h], i), RunWidth(L, items, k, j - 1), L[h][items[j].index]);
    }
  }

  lemma BitsSplit(mem: Memory, p: nat, m: nat, n: nat)
    requires p + m + n <= 8 * |mem|
    ensures NetBits(mem, p, m + n) == NetBits(mem, p, m) + NetBits(mem, p + m, n)
  {
  }

  /** The run that RunEnd finds. */
  lemma {:induction false} RunOfNeighbours(L: Layout, items: seq<Item>, k: nat)
    requires k < |items| && items[k].Field? && Known(L, items)
    ensures forall t :: k <= t <= RunEnd(L, items, k) ==> items[t] == Field(items[k].inst, items[k].index + (t - k))
    decreases |items| - k
  {
    if Continues(L, items, k) {
      RunOfNeighbours(L, items, k + 1);
    }
  }

  lemma {:induction false} ConstIsBytes(v: nat, n: nat)
    ensures BitsOf(BigEndian(v, n)) == ConstBits(v, 8 * n)
  {
    if n > 0 {
      ConstIsBytes(v / 256, n - 1);
      BitsOfConcat(BigEndian(v / 256, n - 1), [Bits(v, 8)]);
      ConstByte(v, 8 * (n - 1), 8);
      HalvedByte(v);
      forall t: nat | t < 8 ensures BitsOf([Bits(v, 8)])[t] == ConstBits(v, 8)[t] {
        ConstAt(v, 8, t);
      }
    }
  }

  function Halved(v: nat, m: nat): nat {
    if m == 0 then v else Halved(v / 2, m - 1)
  }

  lemma {:induction false} ConstByte(v: nat, w: nat, m: nat)
    ensures ConstBits(v, w + m) == ConstBits(Halved(v, m), w) + ConstBits(v, m)
  {
    if m > 0 {
      ConstByte(v / 2, w, m - 1);
    }
  }

  lemma HalvedTwice(v: nat, m: nat)
    ensures Halved(v, m + 2) == Halved(v / 4, m)
  {
    assert Halved(v, m + 2) == Halved(v / 2, m + 1);
  }

  lemma HalvedByte(v: nat)
    ensures Halved(v, 8) == v / 256
  {
    HalvedTwice(v, 6);
    HalvedTwice(v / 4, 4);
    HalvedTwice(v / 16, 2);
    HalvedTwice(v / 64, 0);
  }

  lemma {:induction false} ConstAt(v: nat, w: nat, t: nat)
    requires t < w
    ensures ConstBits(v, w)[t] == Bits(v, w)[w - 1 - t]
  {
    if t < w - 1 {
      ConstAt(v / 2, w - 1, t);
    }
  }

  // ----- the generator keeps the list -----

  ghost predicate Positive(L: Layout) {
    forall widths :: widths in L ==> forall w :: w in widths ==> w > 0
  }

  /** What an error-free plan looks like at every point. */
  ghost predicate Shape(L: Layout, p: Plan) {
    && p.bits % 8 == 0 && Tiles(p.ops, p.bits / 8) && AllInLayout(L, p.ops)
    && forall op :: op in p.ops && op.Copy? ==> op.width % 8 == 0 && (Positive(L) ==> op.width > 0)
  }

  /** The plan stands for the bits of the lists before this one and of this one so far. */
  ghost predicate Means(L: Layout, pkt: Packet, p: Plan, acc: seq<bool>, bits: seq<bool>)
    requires Placed(L, pkt)
  {
    Shape(L, p) && Intended(L, pkt, p.ops) == acc + bits
  }

  lemma Associate(a: seq<bool>, b: seq<bool>, c: seq<bool>)
    ensures a + b + c == a + (b + c)
  {
  }

  lemma PlanGrows(L: Layout, pkt: Packet, p: Plan, op: Op, acc: seq<bool>, bits: seq<bool>, p': Plan, bits': seq<bool>)
    requires Placed(L, pkt) && Means(L, pkt, p, acc, bits) && InLayout(L, op) && op.at == p.bits / 8
    requires op.Copy? ==> op.width % 8 == 0 && (Positive(L) ==> op.width > 0)
    requires p'.ops == p.ops + [op] && p'.bits == p.bits + 8 * op.Len() && bits' == bits + OpBits(L, pkt, op)
    ensures Means(L, pkt, p', acc, bits')
  {
    hide OpBits, InLayout;
    assert p'.ops[..|p'.ops| - 1] == p.ops;
    Associate(acc, bits, OpBits(L, pkt, op));
  }

  lemma {:induction false} PlanMeans(L: Layout, pkt: Packet, items: seq<Item>, k: nat, p: Plan, acc: seq<bool>)
    requires Known(L, items) && Placed(L, pkt) && k <= |items|
    requires p.ok ==> Means(L, pkt, p, acc, ListBits(L, pkt, items[..k]))
    ensures PlanFrom(L, items, k, p).ok ==> Means(L, pkt, PlanFrom(L, items, k, p), acc, ListBits(L, pkt, items))
    decreases |items| - k
  {
    if k == |items| {
      assert items[..k] == items;
      return;
    }
    hide Means, ListBits, Extend, Next;
    StepMeans(L, pkt, items, k, p, acc);
    PlanMeans(L, pkt, items, Next(L, items, k), Extend(L, items, k, p), acc);
  }

  lemma StepMeans(L: Layout, pkt: Packet, items: seq<Item>, k: nat, p: Plan, acc: seq<bool>)
    requires Known(L, items) && Placed(L, pkt) && k < |items|
    requires p.ok ==> Means(L, pkt, p, acc, ListBits(L, pkt, items[..k]))
    ensures Extend(L, items, k, p).ok ==>
      Means(L, pkt, Extend(L, items, k, p), acc, ListBits(L, pkt, items[..Next(L, items, k)]))
  {
    hide Means, ListBits, BigEndian, RunWidth;
    var p' := Extend(L, items, k, p);
    if p'.ok {
      if items[k].Field? {
        BlockMeans(L, pkt, items, k, RunEnd(L, items, k), p, p', acc);
      } else if items[k].Const? {
        ConstMeans(L, pkt, items, k, p, p', acc);
      } else {
        PayloadMeans(L, pkt, items, k, p, p', acc);
      }
    }
  }

  lemma PayloadMeans(L: Layout, pkt: Packet, items: seq<Item>, k: nat, p: Plan, p': Plan, acc: seq<bool>)
    requires Known(L, items) && Placed(L, pkt) && k < |items| && items[k].Payload?
    requires Means(L, pkt, p, acc, ListBits(L, pkt, items[..k])) && p'.ops == p.ops && p'.bits == p.bits
    ensures Means(L, pkt, p', acc, ListBits(L, pkt, items[..k + 1]))
  {
    assert items[..k + 1][..k] == items[..k];
    assert ListBits(L, pkt, items[..k + 1]) == ListBits(L, pkt, items[..k]);
  }

  lemma ConstMeans(L: Layout, pkt: Packet, items: seq<Item>, k: nat, p: Plan, p': Plan, acc: seq<bool>)
    requires Known(L, items) && Placed(L, pkt) && k < |items| && items[k].Const? && items[k].width % 8 == 0
    requires Means(L, pkt, p, acc, ListBits(L, pkt, items[..k])) && p'.bits == p.bits + items[k].width
    requires p'.ops == p.ops + [PutBytes(p.bits / 8, BigEndian(items[k].value, items[k].width / 8))]
    ensures Means(L, pkt, p', acc, ListBits(L, pkt, items[..k + 1]))
  {
    var op := PutBytes(p.bits / 8, BigEndian(items[k].value, items[k].width / 8));
    ConstAdds(L, pkt, items, k, op);
    assert p.bits % 8 == 0;
    hide Means, ItemBits, OpBits, ListBits, BigEndian;
    PlanGrows(L, pkt, p, op, acc, ListBits(L, pkt, items[..k]), p', ListBits(L, pkt, items[..k + 1]));
  }

  lemma ConstAdds(L: Layout, pkt: Packet, items: seq<Item>, k: nat, op: Op)
    requires Known(L, items) && Placed(L, pkt) && k < |items| && items[k].Const? && items[k].width % 8 == 0
    requires op.PutBytes? && op.bytes == BigEndian(items[k].value, items[k].width / 8)
    ensures ListBits(L, pkt, items[..k + 1]) == ListBits(L, pkt, items[..k]) + OpBits(L, pkt, op)
    ensures 8 * op.Len() == items[k].width
  {
    ConstIsBytes(items[k].value, items[k].width / 8);
    assert items[..k + 1][..k] == items[..k];
  }

  lemma BlockMeans(L: Layout, pkt: Packet, items: seq<Item>, k: nat, j: nat, p: Plan, p': Plan, acc: seq<bool>)
    requires Known(L, items) && Placed(L, pkt) && k < |items| && items[k].Field? && j == RunEnd(L, items, k)
    requires Means(L, pkt, p, acc, ListBits(L, pkt, items[..k]))
    requires var w := RunWidth(L, items, k, j);
             w % 8 == 0 && p'.bits == p.bits + w
               && p'.ops == p.ops + [Copy(p.bits / 8, items[k].inst, items[k].index, w)]
    ensures Means(L, pkt, p', acc, ListBits(L, pkt, items[..j + 1]))
  {
    var w := RunWidth(L, items, k, j);
    var h, i := items[k].inst, items[k].index;
    assert p.bits % 8 == 0;
    hide Means, ListBits, ItemBits, OpBits;
    var op, done := Copy(p.bits / 8, h, i, w), ListBits(L, pkt, items[..k]);
    var bits := ListBits(L, pkt, items[..j + 1]);
    RunOfNeighbours(L, items, k);
    RunIsConcatenation(L, pkt, items, k, j);
    PlaceDoesNotMatter(L, pkt, op);
    assert bits == done + OpBits(L, pkt, op);
    RunIsPositive(L, items, k, j);
    hide RunWidth;
    PlanGrows(L, pkt, p, op, acc, done, p', bits);
    assert Means(L, pkt, p', acc, bits);
  }

  lemma RunIsPositive(L: Layout, items: seq<Item>, k: nat, j: nat)
    requires Known(L, items) && k <= j < |items| && items[k].Field?
    requires items[j] == Field(items[k].inst, items[k].index + (j - k))
    ensures Positive(L) ==> RunWidth(L, items, k, j) > 0
  {
    var widths := L[items[k].inst];
    PrefixSumMonotone(widths, items[k].index + 1, items[j].index + 1);
    assert widths in L && widths[items[k].index] in widths;
  }

  function ListsBits(L: Layout, pkt: Packet, lists: seq<seq<Item>>): seq<bool>
    requires Placed(L, pkt) && forall items :: items in lists ==> Known(L, items)
  {
    if lists == [] then [] else
      var n := |lists| - 1;
      ListsBits(L, pkt, lists[..n]) + ListBits(L, pkt, lists[n])
  }

  lemma {:induction false} PlanListsMean(L: Layout, pkt: Packet, lists: seq<seq<Item>>)
    requires Placed(L, pkt) && forall items :: items in lists ==> Known(L, items)
    ensures PlanLists(L, lists).ok ==> Means(L, pkt, PlanLists(L, lists), [], ListsBits(L, pkt, lists))
  {
    if lists != [] {
      var n := |lists| - 1;
      PlanListsMean(L, pkt, lists[..n]);
      var acc := ListsBits(L, pkt, lists[..n]);
      assert [] + acc == acc == acc + ListBits(L, pkt, lists[n][..0]);
      assert [] + ListsBits(L, pkt, lists) == acc + ListBits(L, pkt, lists[n]);
      PlanMeans(L, pkt, lists[n], 0, PlanLists(L, lists[..n]), acc);
    }
  }

  // ----- the buffer -----

  lemma {:induction false} AssembledBits(L: Layout, pkt: Packet, ops: seq<Op>, n: nat)
    requires Placed(L, pkt) && AllInLayout(L, ops) && Tiles(ops, n)
    requires forall op :: op in ops && op.Copy? ==> op.width % 8 == 0
    ensures |BitsOf(Assembled(L, pkt, ops))| == 8 * n == |Intended(L, pkt, ops)|
    ensures (forall op :: op in ops ==> Aligned(L, op)) ==> BitsOf(Assembled(L, pkt, ops)) == Intended(L, pkt, ops)
  {
    if ops != [] {
      var last, front := ops[|ops| - 1], ops[..|ops| - 1];
      assert ops == front + [last];
      hide Data, OpBits, InLayout, Aligned, BitsOf;
      AssembledBits(L, pkt, front, last.at);
      DataBits(L, pkt, last);
      BitsOfConcat(Assembled(L, pkt, front), Data(L, pkt, last));
    }
  }

  /** A block whose bytes are not its fields' bits shows in the whole. */
  lemma {:induction false} OneBadBlock(L: Layout, pkt: Packet, ops: seq<Op>, n: nat, op: Op)
    requires Placed(L, pkt) && AllInLayout(L, ops) && Tiles(ops, n)
    requires forall op :: op in ops && op.Copy? ==> op.width % 8 == 0
    requires op in ops && BitsOf(Data(L, pkt, op)) != OpBits(L, pkt, op)
    ensures BitsOf(Assembled(L, pkt, ops)) != Intended(L, pkt, ops)
  {
    hide Data, OpBits, InLayout, BitsOf;
    var last, front := ops[|ops| - 1], ops[..|ops| - 1];
    SplitLast(ops);
    AssembledBits(L, pkt, front, last.at);
    DataBits(L, pkt, last);
    BitsOfConcat(Assembled(L, pkt, front), Data(L, pkt, last));
    if op in front {
      OneBadBlock(L, pkt, front, last.at, op);
    }
    SplitsAlike(BitsOf(Assembled(L, pkt, front)), BitsOf(Data(L, pkt, last)),
                Intended(L, pkt, front), OpBits(L, pkt, last));
  }

  lemma SplitsAlike(a: seq<bool>, b: seq<bool>, c: seq<bool>, d: seq<bool>)
    requires |a| == |c|
    ensures a + b == c + d ==> a == c && b == d
  {
    if a + b == c + d {
      assert a == (a + b)[..|a|] == c && b == (a + b)[|a|..] == d;
    }
  }

  /** For an accepted calculation whose blocks start on byte boundaries the summed buffer is the
      field lists in order, with zeros for the fields of invalid headers. */
  lemma BufferIsInOrder(L: Layout, pkt: Packet, lists: seq<seq<Item>>)
    requires Placed(L, pkt) && forall items :: items in lists ==> Known(L, items)
    requires PlanLists(L, lists).ok
    ensures var p := PlanLists(L, lists);
            && Shape(L, p) && Runnable(L, p.ops, p.bits / 8)
            && |ListsBits(L, pkt, lists)| == p.bits
            && ((forall op :: op in p.ops ==> Aligned(L, op)) ==>
                  BitsOf(Filled(L, pkt, p.ops, p.bits / 8)) == ListsBits(L, pkt, lists))
  {
    var p := PlanLists(L, lists);
    PlanListsMean(L, pkt, lists);
    TilesStayInside(L, p.ops, p.bits / 8);
    FilledIsAssembled(L, pkt, p.ops, p.bits / 8);
    AssembledBits(L, pkt, p.ops, p.bits / 8);
  }

  /** A packet that shows a misaligned block: one bit is set, in the block's first byte but
      before its first field. */
  function Witness(L: Layout, op: Op): Packet
    requires op.Copy? && op.inst < |L| && op.first < |L[op.inst]|
  {
    var size := TotalBits(L) / 8 + 1;
    var at := PrefixSum(L[op.inst], op.first) / 8;
    Packet(seq(size, i => if i == at then ZERO_BYTE[7 := true] else ZERO_BYTE),
           seq(|L|, _ => 0), seq(|L|, i => i == op.inst))
  }

  function TotalBits(L: Layout): nat {
    if L == [] then 0 else TotalBits(L[..|L| - 1]) + PrefixSum(L[|L| - 1], |L[|L| - 1]|)
  }

  lemma {:induction false} TotalIsEnough(L: Layout, h: nat)
    requires h < |L|
    ensures PrefixSum(L[h], |L[h]|) <= TotalBits(L)
  {
    if h < |L| - 1 {
      TotalIsEnough(L[..|L| - 1], h);
    }
  }

  lemma WitnessShows(L: Layout, op: Op)
    requires op.Copy? && InLayout(L, op) && op.width % 8 == 0 && op.width > 0 && !Aligned(L, op)
    ensures Placed(L, Witness(L, op)) && BitsOf(Data(L, Witness(L, op), op)) != OpBits(L, Witness(L, op), op)
  {
    var pkt := Witness(L, op);
    forall i | 0 <= i < |L| ensures PrefixSum(L[i], |L[i]|) <= 8 * |pkt.mem| {
      TotalIsEnough(L, i);
    }
    var o := PrefixSum(L[op.inst], op.first);
    PrefixSumMonotone(L[op.inst], op.first, |L[op.inst]|);
    assert Data(L, pkt, op)[0] == pkt.mem[o / 8];
    assert BitsOf(Data(L, pkt, op))[0];
    assert pkt.mem[o / 8] == ZERO_BYTE[7 := true] && !pkt.mem[o / 8][7 - o % 8];
    FirstBit(L, pkt, op);
  }

  lemma FirstBit(L: Layout, pkt: Packet, op: Op)
    requires Placed(L, pkt) && InLayout(L, op) && op.Copy? && op.width > 0 && pkt.valid[op.inst]
      && pkt.base[op.inst] == 0
    ensures var o := PrefixSum(L[op.inst], op.first);
            |OpBits(L, pkt, op)| > 0 && o < 8 * |pkt.mem| && OpBits(L, pkt, op)[0] == pkt.mem[o / 8][7 - o % 8]
  {
  }

  /** Exactly the calculations all of whose blocks start on byte boundaries fill the buffer right
      for every packet. */
  lemma AlignmentIsExact(L: Layout, lists: seq<seq<Item>>)
    requires Positive(L) && (forall items :: items in lists ==> Known(L, items)) && PlanLists(L, lists).ok
    ensures var p := PlanLists(L, lists); Shape(L, p) && Runnable(L, p.ops, p.bits / 8)
    ensures var p := PlanLists(L, lists);
            (forall op :: op in p.ops ==> Aligned(L, op)) <==>
            (forall pkt | Placed(L, pkt) :: BitsOf(Filled(L, pkt, p.ops, p.bits / 8)) == ListsBits(L, pkt, lists))
  {
    var p := PlanLists(L, lists);
    hide PlanLists;
    BufferIsInOrder(L, Packet([], seq(|L|, _ => 0), seq(|L|, _ => false)), lists);
    forall pkt | Placed(L, pkt)
      ensures (forall op :: op in p.ops ==> Aligned(L, op)) ==>
                BitsOf(Filled(L, pkt, p.ops, p.bits / 8)) == ListsBits(L, pkt, lists)
    {
      BufferIsInOrder(L, pkt, lists);
    }
    if op :| op in p.ops && !Aligned(L, op) {
      WitnessShows(L, op);
      MisalignedBuffer(L, Witness(L, op), lists, op);
    }
  }

  lemma MisalignedBuffer(L: Layout, pkt: Packet, lists: seq<seq<Item>>, op: Op)
    requires Placed(L, pkt) && (forall items :: items in lists ==> Known(L, items)) && PlanLists(L, lists).ok
    requires op in PlanLists(L, lists).ops && InLayout(L, op) && BitsOf(Data(L, pkt, op)) != OpBits(L, pkt, op)
    ensures var p := PlanLists(L, lists);
            Runnable(L, p.ops, p.bits / 8) && BitsOf(Filled(L, pkt, p.ops, p.bits / 8)) != ListsBits(L, pkt, lists)
  {
    var p := PlanLists(L, lists);
    PlanListsMean(L, pkt, lists);
    TilesStayInside(L, p.ops, p.bits / 8);
    FilledIsAssembled(L, pkt, p.ops, p.bits / 8);
    OneBadBlock(L, pkt, p.ops, p.bits / 8, op);
  }
}

/** The generator of checksum inputs. Runs of neighbouring header fields become block copies,
    the copies are regrouped by header behind one validity test each, and constants become
    byte arrays; the buffer filled by the generated code is compared with the field list. */
module FieldLists {
  import opened Words
  import opened FieldMacros
  import opened HeaderRecord

  // ----- field lists and packets -----

  /** An entry of a field list: field `index` of a header instance, a sized constant, or payload. */
  datatype Item = Field(inst: nat, index: nat) | Const(value: nat, width: nat) | Payload

  /** The field widths of every header instance. */
  type Layout = seq<seq<nat>>

  /** Where the headers lie and which ones are valid. */
  datatype Packet = Packet(mem: Memory, base: seq<nat>, valid: seq<bool>)

  predicate Known(L: Layout, items: seq<Item>) {
    forall k :: 0 <= k < |items| && items[k].Field? ==> items[k].inst < |L| && items[k].index < |L[items[k].inst]|
  }

  ghost predicate Placed(L: Layout, pkt: Packet) {
    && |pkt.base| == |pkt.valid| == |L|
    && forall i :: 0 <= i < |L| && pkt.valid[i] ==> 8 * pkt.base[i] + PrefixSum(L[i], |L[i]|) <= 8 * |pkt.mem|
  }

  /** n bits in network order from position p on. */
  function NetBits(mem: Memory, p: nat, n: nat): seq<bool>
    requires p + n <= 8 * |mem|
  {
    seq(n, t requires 0 <= t < n => NetBit(mem, p + t))
  }

  function Zeros(n: nat): seq<bool> {
    seq(n, _ => false)
  }

  /** The bits of w-bit constant, most significant first. */
  function ConstBits(v: nat, w: nat): (r: seq<bool>)
    ensures |r| == w
  {
    if w == 0 then [] else ConstBits(v / 2, w - 1) + [v % 2 == 1]
  }

  // ----- what a field list says -----

  function ItemBits(L: Layout, pkt: Packet, it: Item): seq<bool>
    requires Placed(L, pkt) && (it.Field? ==> it.inst < |L| && it.index < |L[it.inst]|)
  {
    match it
    case Field(h, i) =>
      PrefixSumMonotone(L[h], i + 1, |L[h]|);
      if pkt.valid[h] then NetBits(pkt.mem, 8 * pkt.base[h] + PrefixSum(L[h], i), L[h][i]) else Zeros(L[h][i])
    case Const(v, w) => ConstBits(v, w)
    case Payload => []
  }

  /** The entries' bits one after another; fields of invalid headers read as zeros. */
  function ListBits(L: Layout, pkt: Packet, items: seq<Item>): seq<bool>
    requires Placed(L, pkt) && Known(L, items)
  {
    if items == [] then [] else
      var n := |items| - 1;
      ListBits(L, pkt, items[..n]) + ItemBits(L, pkt, items[n])
  }

  // ----- the generator -----

  /** A generated memcpy into the buffer: of a byte array, or of `width` bits of a header from the
      byte that holds the start of field `first`. */
  datatype Op = PutBytes(at: nat, bytes: Memory) | Copy(at: nat, inst: nat, first: nat, width: nat) {
    function Len(): nat {
      if PutBytes? then |bytes| else width / 8
    }
    predicate Over(p: nat) {
      at <= p < at + Len()
    }
  }

  /** The generator's state: whether no error was added, the copies in the order of the list, and
      the bits laid out so far. */
  datatype Plan = Plan(ok: bool, ops: seq<Op>, bits: nat)

  /** Item k + 1 is the next field of the header that item k is in. */
  predicate Continues(L: Layout, items: seq<Item>, k: nat)
    requires k < |items| && items[k].Field? && Known(L, items)
  {
    var f := items[k];
    f.index + 1 < |L[f.inst]| && k + 1 < |items| && items[k + 1] == Field(f.inst, f.index + 1)
  }

  /** Last item of the run of neighbours that starts at k. */
  function RunEnd(L: Layout, items: seq<Item>, k: nat): (j: nat)
    requires k < |items| && items[k].Field? && Known(L, items)
    ensures k <= j < |items| && items[j] == Field(items[k].inst, items[k].index + (j - k))
    decreases |items| - k
  {
    if Continues(L, items, k) then RunEnd(L, items, k + 1) else k
  }

  function RunWidth(L: Layout, items: seq<Item>, k: nat, j: nat): nat
    requires k <= j < |items| && items[k].Field? && Known(L, items)
    requires items[j] == Field(items[k].inst, items[k].index + (j - k))
  {
    var widths := L[items[k].inst];
    PrefixSumMonotone(widths, items[k].index, items[j].index + 1);
    PrefixSum(widths, items[j].index + 1) - PrefixSum(widths, items[k].index)
  }

  /** The item after the block or single item at k. */
  function Next(L: Layout, items: seq<Item>, k: nat): (n: nat)
    requires k < |items| && Known(L, items)
    ensures k < n <= |items|
  {
    if items[k].Field? then RunEnd(L, items, k) + 1 else k + 1
  }

  /** The plan with that block or item. */
  function Extend(L: Layout, items: seq<Item>, k: nat, p: Plan): Plan
    requires k < |items| && Known(L, items)
  {
    match items[k]
    case Field(h, i) =>
      var w := RunWidth(L, items, k, RunEnd(L, items, k));
      Plan(p.ok && w % 8 == 0, p.ops + [Copy(p.bits / 8, h, i, w)], p.bits + w)
    case Const(v, w) =>
      if w % 8 != 0 then p.(ok := false)
      else Plan(p.ok, p.ops + [PutBytes(p.bits / 8, BigEndian(v, w / 8))], p.bits + w)
    case Payload =>
      p.(ok := p.ok && k > 0 && items[k - 1].Field?)
  }

  /** The items from k on, after the plan p. */
  function PlanFrom(L: Layout, items: seq<Item>, k: nat, p: Plan): Plan
    requires Known(L, items)
    decreases |items| - k
  {
    if k >= |items| then p else PlanFrom(L, items, Next(L, items, k), Extend(L, items, k, p))
  }

  const START := Plan(true, [], 0)

  /** All field lists of a calculation. */
  function PlanLists(L: Layout, lists: seq<seq<Item>>): Plan
    requires forall items :: items in lists ==> Known(L, items)
  {
    if lists == [] then START else
      var n := |lists| - 1;
      PlanFrom(L, lists[n], 0, PlanLists(L, lists[..n]))
  }

  function BigEndian(v: nat, n: nat): (r: Memory)
    ensures |r| == n
  {
    if n == 0 then [] else BigEndian(v / 256, n - 1) + [Bits(v, 8)]
  }

  /** int_to_big_endian_byte_array_with_length: high bytes beyond the width are lost. */
  method BigEndianByteArray(value: nat, width: nat) returns (result: Memory)
    ensures result == BigEndian(value, width)
  {
    var val, res: Memory := value, [];
    hide Digits, BigEndian;
    DigitsStart(value);
    while val > 0
      invariant Digits(value, val, res)
    {
      OneByteMore(value, val, res);
      res := [Bits(val % 256, 8)] + res;
      val := val / 256;
    }
    DigitsDone(value, res, width);
    var len := |res|;
    result := if len <= width then ZeroBytes(width - len) + res else res[len - width..len];
  }

  /** The bytes res follow those of val in every big-endian form of value. */
  ghost predicate Digits(value: nat, val: nat, res: Memory) {
    forall m: nat :: BigEndian(value, m + |res|) == BigEndian(val, m) + res
  }

  lemma DigitsStart(value: nat)
    ensures Digits(value, value, [])
  {
  }

  lemma DigitsDone(value: nat, res: Memory, width: nat)
    requires Digits(value, 0, res)
    ensures |res| <= width ==> BigEndian(value, width) == ZeroBytes(width - |res|) + res
    ensures |res| > width ==> BigEndian(value, width) == res[|res| - width..|res|]
  {
    hide Digits, BigEndian, ZeroBytes;
    if |res| <= width {
      DigitsAt(value, res, width - |res|, width);
      BigEndianOfZero(width - |res|);
    } else {
      DigitsAt(value, res, 0, |res|);
      BigEndianSuffix(value, |res|, width);
      assert BigEndian(0, 0) + res == res;
    }
  }

  lemma DigitsAt(value: nat, res: Memory, m: nat, n: nat)
    requires Digits(value, 0, res) && n == m + |res|
    ensures BigEndian(value, n) == BigEndian(0, m) + res
  {
    hide BigEndian;
  }

  lemma OneByteMore(value: nat, val: nat, res: Memory)
    requires Digits(value, val, res)
    ensures Digits(value, val / 256, [Bits(val % 256, 8)] + res)
  {
    SameLowBits(val, val % 256, val / 256, 8);
    var more := [Bits(val % 256, 8)] + res;
    forall m: nat ensures BigEndian(value, m + |more|) == BigEndian(val / 256, m) + more {
      assert m + |more| == (m + 1) + |res|;
      assert BigEndian(val, m + 1) == BigEndian(val / 256, m) + [Bits(val, 8)];
    }
  }

  lemma {:induction false} SameLowBits(v: nat, u: nat, q: nat, len: nat)
    requires v == u + Pow2(len) * q
    ensures Bits(v, len) == Bits(u, len)
  {
    if len > 0 {
      var r := Pow2(len - 1) * q;
      assert Pow2(len) * q == 2 * r;
      SameLowBits(v / 2, u / 2, q, len - 1);
    }
  }

  lemma {:induction false} BitsOfZero(len: nat)
    ensures Bits(0, len) == Zeros(len)
  {
    if len > 0 {
      BitsOfZero(len - 1);
    }
  }

  lemma {:induction false} BigEndianOfZero(n: nat)
    ensures BigEndian(0, n) == ZeroBytes(n)
  {
    if n > 0 {
      BigEndianOfZero(n - 1);
      BitsOfZero(8);
      assert Zeros(8) == ZERO_BYTE;
    }
  }

  lemma {:induction false} BigEndianSuffix(v: nat, n: nat, w: nat)
    requires w <= n
    ensures BigEndian(v, n)[n - w..] == BigEndian(v, w)
  {
    if w > 0 {
      BigEndianSuffix(v / 256, n - 1, w - 1);
      assert BigEndian(v, n)[n - w..] == BigEndian(v / 256, n - 1)[n - w..] + [Bits(v, 8)];
    }
  }

  /** The loops of the generator over one field list. */
  method PlanList(L: Layout, items: seq<Item>, start: Plan) returns (p: Plan)
    requires Known(L, items)
    ensures p == PlanFrom(L, items, 0, start)
  {
    hide BigEndian, RunEnd, RunWidth;
    p := start;
    var item_index := 0;
    while item_index < |items|
      invariant PlanFrom(L, items, item_index, p) == PlanFrom(L, items, 0, start)
    {
      match items[item_index] {
        case Field(h, first) =>
          var last, width := FindRun(L, items, item_index);
          item_index := last;
          p := Plan(p.ok && width % 8 == 0, p.ops + [Copy(p.bits / 8, h, first, width)], p.bits + width);
        case Const(v, w) =>
          if w % 8 != 0 {
            p := p.(ok := false);
          } else {
            var bytes := BigEndianByteArray(v, w / 8);
            p := Plan(p.ok, p.ops + [PutBytes(p.bits / 8, bytes)], p.bits + w);
          }
        case Payload =>
          if item_index == 0 || !items[item_index - 1].Field? {
            p := p.(ok := false);
          }
      }
      item_index := item_index + 1;
    }
  }

  /** The inner loop: how far a run of neighbours goes and how wide it is. */
  method FindRun(L: Layout, items: seq<Item>, k: nat) returns (item_index: nat, width: nat)
    requires k < |items| && items[k].Field? && Known(L, items)
    ensures item_index == RunEnd(L, items, k) && width == RunWidth(L, items, k, item_index)
  {
    var h, first := items[k].inst, items[k].index;
    var inst_index := first;
    item_index, width := k, L[h][first];
    while inst_index + 1 < |L[h]| && item_index + 1 < |items| && items[item_index + 1] == Field(h, inst_index + 1)
      invariant k <= item_index < |items| && items[item_index] == Field(h, inst_index)
      invariant inst_index == first + (item_index - k) && inst_index < |L[h]|
      invariant width == RunWidth(L, items, k, item_index)
      invariant RunEnd(L, items, item_index) == RunEnd(L, items, k)
    {
      item_index := item_index + 1;
      inst_index := inst_index + 1;
      width := width + L[h][inst_index];
    }
  }

  // ----- which calculations are accepted -----

  function Width(L: Layout, it: Item): nat
    requires it.Field? ==> it.inst < |L| && it.index < |L[it.inst]|
  {
    match it
    case Field(h, i) => L[h][i]
    case Const(_, w) => w
    case Payload => 0
  }

  /** The widths of all entries together. */
  function Total(L: Layout, items: seq<Item>): nat
    requires Known(L, items)
  {
    if items == [] then 0 else Total(L, items[..|items| - 1]) + Width(L, items[|items| - 1])
  }

  /** A constant, or a field that the next entry does not continue, lies right before k. */
  predicate BlockEnds(items: seq<Item>, k: nat)
    requires 0 < k <= |items|
  {
    match items[k - 1]
    case Field(h, i) => k == |items| || items[k] != Field(h, i + 1)
    case Const(_, _) => true
    case Payload => false
  }

  ghost predicate AcceptedFrom(L: Layout, items: seq<Item>, from: nat)
    requires Known(L, items)
  {
    && (forall k :: from < k <= |items| && BlockEnds(items, k) ==> Total(L, items[..k]) % 8 == 0)
    && (forall k :: from <= k < |items| && items[k].Payload? ==> k > 0 && items[k - 1].Field?)
  }

  /** Every block of neighbours and every constant ends on a byte, counted from the start of the
      list, and every payload directly follows a field. */
  ghost predicate Accepted(L: Layout, items: seq<Item>)
    requires Known(L, items)
  {
    AcceptedFrom(L, items, 0)
  }

  lemma {:induction false} TotalOfRun(L: Layout, items: seq<Item>, k: nat, j: nat)
    requires Known(L, items) && k <= j < |items| && items[k].Field?
    requires forall t :: k <= t <= j ==> items[t] == Field(items[k].inst, items[k].index + (t - k))
    ensures Total(L, items[..j + 1]) == Total(L, items[..k]) + RunWidth(L, items, k, j)
  {
    assert items[..j + 1][..j] == items[..j];
    if j > k {
      TotalOfRun(L, items, k, j - 1);
    }
  }

  /** Inside the run that starts at k no block ends. */
  lemma {:induction false} RunHasOneEnd(L: Layout, items: seq<Item>, k: nat)
    requires k < |items| && items[k].Field? && Known(L, items)
    ensures var n := RunEnd(L, items, k) + 1;
            && BlockEnds(items, n) && (forall m :: k < m < n ==> !BlockEnds(items, m))
            && (forall t :: k <= t < n ==> items[t] == Field(items[k].inst, items[k].index + (t - k)))
    decreases |items| - k
  {
    if Continues(L, items, k) {
      RunHasOneEnd(L, items, k + 1);
    }
  }

  lemma {:induction false} ErrorsStay(L: Layout, items: seq<Item>, k: nat, p: Plan)
    requires Known(L, items)
    ensures PlanFrom(L, items, k, p).ok ==> p.ok
    decreases |items| - k
  {
    hide RunWidth, RunEnd, BigEndian;
    if k < |items| {
      ErrorsStay(L, items, Next(L, items, k), Extend(L, items, k, p));
    }
  }

  lemma StepIsAccepted(L: Layout, items: seq<Item>, k: nat, p: Plan)
    requires Known(L, items) && k < |items| && Total(L, items[..k]) % 8 == 0
    ensures var n := Next(L, items, k);
            && (Extend(L, items, k, p).ok <==>
                  && p.ok && (items[k].Payload? || Total(L, items[..n]) % 8 == 0)
                  && (items[k].Payload? ==> k > 0 && items[k - 1].Field?))
            && (items[k].Payload? ==> Total(L, items[..n]) % 8 == 0)
            && (BlockEnds(items, n) <==> !items[k].Payload?)
            && (forall m :: k < m < n ==> !BlockEnds(items, m) && items[m].Field?)
  {
    hide RunWidth, BigEndian;
    if items[k].Field? {
      RunHasOneEnd(L, items, k);
      TotalOfRun(L, items, k, RunEnd(L, items, k));
    } else {
      assert items[..k + 1][..k] == items[..k];
    }
  }

  lemma {:induction false} PlanFromOkIff(L: Layout, items: seq<Item>, k: nat, p: Plan)
    requires Known(L, items) && k <= |items| && (p.ok ==> Total(L, items[..k]) % 8 == 0)
    ensures PlanFrom(L, items, k, p).ok <==> p.ok && AcceptedFrom(L, items, k)
    decreases |items| - k
  {
    hide Extend, Next, Total, BlockEnds;
    if !p.ok {
      ErrorsStay(L, items, k, p);
    } else if k < |items| {
      var n, p' := Next(L, items, k), Extend(L, items, k, p);
      StepIsAccepted(L, items, k, p);
      if p'.ok {
        PlanFromOkIff(L, items, n, p');
      } else {
        ErrorsStay(L, items, n, p');
      }
    }
  }

  /** The generator reports no error for a calculation if and only if its lists are accepted. */
  lemma {:induction false} PlanOkIff(L: Layout, lists: seq<seq<Item>>)
    requires forall items :: items in lists ==> Known(L, items)
    ensures PlanLists(L, lists).ok <==> forall items :: items in lists ==> Accepted(L, items)
  {
    if lists != [] {
      var n := |lists| - 1;
      assert lists == lists[..n] + [lists[n]];
      PlanOkIff(L, lists[..n]);
      PlanFromOkIff(L, lists[n], 0, PlanLists(L, lists[..n]));
    }
  }

  // ----- regrouping by header -----

  type CopyOp = op: Op | op.Copy? witness Copy(0, 0, 0, 0)

  datatype Group = Group(inst: nat, copies: seq<CopyOp>)

  function Puts(ops: seq<Op>): seq<Op> {
    if ops == [] then [] else (if ops[0].PutBytes? then [ops[0]] else []) + Puts(ops[1..])
  }

  function Copies(ops: seq<Op>): seq<CopyOp>
  {
    if ops == [] then [] else (if ops[0].Copy? then [ops[0]] else []) + Copies(ops[1..])
  }

  function Of(ops: seq<CopyOp>, h: nat): seq<CopyOp> {
    if ops == [] then [] else (if ops[0].inst == h then [ops[0]] else []) + Of(ops[1..], h)
  }

  function NotOf(ops: seq<CopyOp>, h: nat): (r: seq<CopyOp>)
    ensures |r| <= |ops| && (ops != [] && ops[0].inst == h ==> |r| < |ops|)
  {
    if ops == [] then [] else (if ops[0].inst != h then [ops[0]] else []) + NotOf(ops[1..], h)
  }

  lemma NoneOf(h: nat)
    ensures Of([], h) == [] == NotOf([], h)
  {
  }

  lemma FirstOf(ops: seq<CopyOp>, h: nat)
    requires ops != []
    ensures ops[0].inst == h ==> Of(ops, h) == [ops[0]] + Of(ops[1..], h) && NotOf(ops, h) == NotOf(ops[1..], h)
    ensures ops[0].inst != h ==> Of(ops, h) == Of(ops[1..], h) && NotOf(ops, h) == [ops[0]] + NotOf(ops[1..], h)
  {
  }

  lemma {:induction false} OfMembers(ops: seq<CopyOp>, h: nat)
    ensures forall op: CopyOp :: op in Of(ops, h) <==> op in ops && op.inst == h
    ensures forall op: CopyOp :: op in NotOf(ops, h) <==> op in ops && op.inst != h
  {
    if ops != [] {
      OfMembers(ops[1..], h);
      assert ops == [ops[0]] + ops[1..];
    }
  }

  function Regroup(ops: seq<CopyOp>): seq<Group>
    decreases |ops|
  {
    if ops == [] then [] else
      var h := ops[0].inst;
      [Group(h, Of(ops, h))] + Regroup(NotOf(ops, h))
  }

  /** The loop that empties tmp_list, one header at a time. */
  method RegroupList(ops: seq<CopyOp>) returns (groups: seq<Group>)
    ensures groups == Regroup(ops)
  {
    var tmp_list := ops;
    groups := [];
    while |tmp_list| > 0
      invariant groups + Regroup(tmp_list) == Regroup(ops)
      decreases |tmp_list|
    {
      var inst := tmp_list[0].inst;
      var copies, others := TakeHeader(tmp_list, inst);
      groups := groups + [Group(inst, copies)];
      tmp_list := others;
    }
  }

  method TakeHeader(ops: seq<CopyOp>, inst: nat) returns (copies: seq<CopyOp>, tmp_list: seq<CopyOp>)
    ensures copies == Of(ops, inst) && tmp_list == NotOf(ops, inst)
  {
    hide Of, NotOf;
    var list_index := 0;
    copies, tmp_list := [], ops;
    ghost var rest := ops;
    while list_index < |tmp_list|
      invariant 0 <= list_index <= |tmp_list| && rest == tmp_list[list_index..]
      invariant copies + Of(rest, inst) == Of(ops, inst)
      invariant tmp_list[..list_index] + NotOf(rest, inst) == NotOf(ops, inst)
      decreases |tmp_list| - list_index
    {
      var item := tmp_list[list_index];
      assert rest[0] == item;
      FirstOf(rest, inst);
      rest := rest[1..];
      if item.inst == inst {
        copies := copies + [item];
        tmp_list := tmp_list[..list_index] + tmp_list[list_index + 1..];
      } else {
        assert tmp_list[..list_index + 1] == tmp_list[..list_index] + [item];
        list_index := list_index + 1;
      }
    }
    NoneOf(inst);
  }

  // ----- the generated code -----

  ghost predicate InLayout(L: Layout, op: Op) {
    op.Copy? ==>
      && op.inst < |L| && op.first < |L[op.inst]|
      && PrefixSum(L[op.inst], op.first) + op.width <= PrefixSum(L[op.inst], |L[op.inst]|)
  }

  /** The bytes a copy brings, zeros when its header is invalid. */
  function Data(L: Layout, pkt: Packet, op: Op): (r: Memory)
    requires Placed(L, pkt) && InLayout(L, op)
    ensures |r| == op.Len()
  {
    if op.PutBytes? then op.bytes
    else if pkt.valid[op.inst] then
      var from := pkt.base[op.inst] + PrefixSum(L[op.inst], op.first) / 8;
      pkt.mem[from..from + op.width / 8]
    else ZeroBytes(op.width / 8)
  }

  ghost predicate Runnable(L: Layout, ops: seq<Op>, size: nat) {
    forall op :: op in ops ==> InLayout(L, op) && op.at + op.Len() <= size
  }

  /** The buffer after memcpy(buf + at, data). */
  function Splice(buf: Memory, at: nat, data: Memory): (r: Memory)
    requires at + |data| <= |buf|
    ensures |r| == |buf|
  {
    buf[..at] + data + buf[at + |data|..]
  }

  function Step(L: Layout, pkt: Packet, buf: Memory, op: Op): (r: Memory)
    requires Placed(L, pkt) && InLayout(L, op) && op.at + op.Len() <= |buf|
    ensures |r| == |buf|
  {
    if op.Copy? && !pkt.valid[op.inst] then buf else Splice(buf, op.at, Data(L, pkt, op))
  }

  function RunOps(L: Layout, pkt: Packet, buf: Memory, ops: seq<Op>): (r: Memory)
    requires Placed(L, pkt) && Runnable(L, ops, |buf|)
    ensures |r| == |buf|
    decreases |ops|
  {
    if ops == [] then buf else RunOps(L, pkt, Step(L, pkt, buf, ops[0]), ops[1..])
  }

  ghost predicate GroupsRunnable(L: Layout, groups: seq<Group>, size: nat) {
    forall g :: g in groups ==>
      g.inst < |L| && Runnable(L, g.copies, size) && forall op: CopyOp :: op in g.copies ==> op.inst == g.inst
  }

  /** One validity test, then the copies of that header. */
  function RunGroups(L: Layout, pkt: Packet, buf: Memory, groups: seq<Group>): (r: Memory)
    requires Placed(L, pkt) && GroupsRunnable(L, groups, |buf|)
    ensures |r| == |buf|
    decreases |groups|
  {
    if groups == [] then buf else
      var g := groups[0];
      RunGroups(L, pkt, if pkt.valid[g.inst] then RunOps(L, pkt, buf, g.copies) else buf, groups[1..])
  }

  /** memset, the constants, then the groups: the buffer that is summed. */
  function Filled(L: Layout, pkt: Packet, ops: seq<Op>, size: nat): (r: Memory)
    requires Placed(L, pkt) && Runnable(L, ops, size)
    ensures |r| == size
  {
    SameOps(ops);
    GroupsAreRunnable(L, Copies(ops), size);
    RunGroups(L, pkt, RunOps(L, pkt, ZeroBytes(size), Puts(ops)), Regroup(Copies(ops)))
  }

  lemma GroupsAreRunnable(L: Layout, ops: seq<CopyOp>, size: nat)
    requires Runnable(L, ops, size)
    ensures GroupsRunnable(L, Regroup(ops), size)
  {
    GroupsCover(ops);
    forall g | g in Regroup(ops) ensures g.inst < |L| && Runnable(L, g.copies, size) {
      assert g.copies[0] in ops;
    }
  }

  lemma {:induction false} SameOps(ops: seq<Op>)
    ensures forall op :: op in ops <==> op in Puts(ops) || op in Copies(ops)
    ensures forall op :: op in Puts(ops) ==> op.PutBytes?
  {
    if ops != [] {
      SameOps(ops[1..]);
      assert ops == [ops[0]] + ops[1..];
    }
  }

  function Flat(groups: seq<Group>): seq<CopyOp> {
    if groups == [] then [] else groups[0].copies + Flat(groups[1..])
  }

  /** Regrouping loses and invents no copy, and every copy is behind the test of its own header. */
  lemma {:induction false} GroupsCover(ops: seq<CopyOp>)
    ensures forall op: CopyOp :: op in ops <==> op in Flat(Regroup(ops))
    ensures forall g :: g in Regroup(ops) ==>
      g.copies != [] && forall op: CopyOp :: op in g.copies ==> op in ops && op.inst == g.inst
    decreases |ops|
  {
    if ops != [] {
      OfMembers(ops, ops[0].inst);
      GroupsCover(NotOf(ops, ops[0].inst));
      assert ops[0] in Of(ops, ops[0].inst);
    }
  }

  /** The generated function fills its buffer in place. */
  method FillBuffer(L: Layout, pkt: Packet, puts: seq<Op>, groups: seq<Group>, size: nat) returns (buf: array<Byte>)
    requires Placed(L, pkt) && Runnable(L, puts, size) && GroupsRunnable(L, groups, size)
    ensures fresh(buf) && buf[..] == RunGroups(L, pkt, RunOps(L, pkt, ZeroBytes(size), puts), groups)
  {
    buf := new Byte[size](_ => ZERO_BYTE);
    assert buf[..] == ZeroBytes(size);
    MemCpys(L, pkt, buf, puts);
    ghost var filled := buf[..];
    for i := 0 to |groups|
      invariant RunGroups(L, pkt, buf[..], groups[i..]) == RunGroups(L, pkt, filled, groups)
    {
      if pkt.valid[groups[i].inst] {
        MemCpys(L, pkt, buf, groups[i].copies);
      }
    }
  }

  method MemCpys(L: Layout, pkt: Packet, buf: array<Byte>, ops: seq<Op>)
    requires Placed(L, pkt) && Runnable(L, ops, buf.Length)
    modifies buf
    ensures buf[..] == RunOps(L, pkt, old(buf[..]), ops)
  {
    hide Splice, Data;
    for i := 0 to |ops|
      invariant RunOps(L, pkt, buf[..], ops[i..]) == RunOps(L, pkt, old(buf[..]), ops)
    {
      assert ops[i..][0] == ops[i] && ops[i..][1..] == ops[i + 1..];
      if ops[i].PutBytes? || pkt.valid[ops[i].inst] {
        MemCpy(buf, ops[i].at, Data(L, pkt, ops[i]));
      }
    }
  }

  method MemCpy(buf: array<Byte>, at: nat, data: Memory)
    requires at + |data| <= buf.Length
    modifies buf
    ensures buf[..] == Splice(old(buf[..]), at, data)
  {
    forall j | 0 <= j < |data| {
      buf[at + j] := data[j];
    }
  }
}

/** The control messages as bytes: struct layouts, the builders that fill a buffer in place and
    convert it to network order, and what each struct holds. */
module Messages {
  import opened Basics

  /** uint16_t and uint32_t fields in memory, in host (little-endian) or network order. */
  function U16(bs: seq<byte>, net: bool): nat
    requires |bs| == 2
  {
    if net then 256 * (bs[0] as nat) + bs[1] as nat else bs[0] as nat + 256 * (bs[1] as nat)
  }

  function U32(bs: seq<byte>, net: bool): nat
    requires |bs| == 4
  {
    if net then 65536 * U16(bs[..2], net) + U16(bs[2..], net) else U16(bs[..2], net) + 65536 * U16(bs[2..], net)
  }

  /** A NUL-terminated string at the start of a char array. */
  ghost predicate HoldsName(bs: seq<byte>, name: seq<byte>) {
    |name| < |bs| && bs[..|name|] == name && bs[|name|] == 0 && 0 !in name
  }

  /** The characters before the first NUL. */
  function CString(bs: seq<byte>): seq<byte> {
    if bs == [] || bs[0] == 0 then [] else [bs[0]] + CString(bs[1..])
  }

  lemma {:induction false} NameIsCString(bs: seq<byte>, name: seq<byte>)
    requires HoldsName(bs, name)
    ensures CString(bs) == name
  {
    if name != [] {
      assert bs[0] == name[0] by { assert bs[..|name|][0] == name[0]; }
      assert bs[1..][..|name| - 1] == bs[..|name|][1..];
      NameIsCString(bs[1..], name[1..]);
    }
  }

  // ----- struct sizes and offsets -----

  const HEADER_SIZE: nat := 8
  const NAME_LEN: nat := 128
  const ENTRY_SIZE: nat := 140
  const ACTION_SIZE: nat := 130
  const PARAM_SIZE: nat := 260
  const BITMAP_LEN: nat := 256
  const PARAM_BITMAP_LEN: nat := 128

  const SET_DEFAULT_ACTION: byte := 103
  const ADD_TABLE_ENTRY: byte := 104

  datatype Kind = Exact | Ternary | Lpm | Range | Valid

  /** p4_field_match_type. */
  function Code(k: Kind): byte {
    match k
    case Exact => 0
    case Ternary => 1
    case Lpm => 2
    case Range => 3
    case Valid => 4
  }

  /** sizeof of the struct, with the compiler's padding to an even size. */
  function MatchSize(k: Kind): nat {
    match k
    case Exact => 388
    case Lpm => 388
    case Valid => 390
    case Ternary => 646
    case Range => 646
  }

  /** Offset of the (first) bitmap: after the length, or after is_signed, priority or is_valid. */
  function BitmapOffset(k: Kind): nat {
    if k == Exact || k == Lpm then 132 else 133
  }

  /** A field match. `flag` is is_signed, priority or is_valid, `second` is max_bitmap or mask;
      kinds without them ignore them. A bitmap lists the bytes its owner fills in. */
  datatype Match = Match(kind: Kind, name: seq<byte>, length: nat, flag: byte, bitmap: seq<byte>, second: seq<byte>)

  datatype Param = Param(name: seq<byte>, length: nat, bitmap: seq<byte>)

  /** What an ADD_TABLE_ENTRY message says. */
  datatype Entry = Entry(xid: nat, table: seq<byte>, matches: seq<Match>, action: seq<byte>, params: seq<Param>)

  predicate FitsMatch(m: Match) {
    && |m.name| < NAME_LEN && 0 !in m.name && m.length < 0x1_0000
    && |m.bitmap| <= BITMAP_LEN && |m.second| <= BITMAP_LEN
  }

  predicate FitsParam(p: Param) {
    |p.name| < NAME_LEN && 0 !in p.name && p.length < 0x1_0000_0000 && |p.bitmap| <= PARAM_BITMAP_LEN
  }

  predicate FitMatches(ms: seq<Match>) {
    forall m | m in ms :: FitsMatch(m)
  }

  predicate FitParams(ps: seq<Param>) {
    forall p | p in ps :: FitsParam(p)
  }

  /** The values the C types and char arrays can hold. */
  ghost predicate FitsEntry(e: Entry) {
    && e.xid < 0x1_0000_0000
    && |e.table| < NAME_LEN && 0 !in e.table && |e.action| < NAME_LEN && 0 !in e.action
    && FitMatches(e.matches) && FitParams(e.params)
  }

  // ----- what the structs at an address hold -----

  /** bs and bs' agree on lo .. hi-1. */
  ghost predicate Agree(bs: seq<byte>, bs': seq<byte>, lo: nat, hi: nat) {
    hi <= |bs| && hi <= |bs'| && forall i :: lo <= i < hi ==> bs'[i] == bs[i]
  }

  lemma AgreeingSlices(bs: seq<byte>, bs': seq<byte>, lo: nat, hi: nat, from: nat, to: nat)
    requires Agree(bs, bs', lo, hi) && lo <= from <= to <= hi
    ensures bs'[from..to] == bs[from..to]
  {
  }

  lemma AgreeWithin(bs: seq<byte>, bs': seq<byte>, lo: nat, hi: nat, lo': nat, hi': nat)
    requires Agree(bs, bs', lo, hi) && lo <= lo' && hi' <= hi
    ensures Agree(bs, bs', lo', hi')
  {
  }

  ghost predicate NameAt(bs: seq<byte>, off: nat, name: seq<byte>) {
    off + NAME_LEN <= |bs| && HoldsName(bs[off..off + NAME_LEN], name)
  }

  ghost predicate U16At(bs: seq<byte>, off: nat, v: nat, net: bool) {
    off + 2 <= |bs| && U16(bs[off..off + 2], net) == v
  }

  ghost predicate U32At(bs: seq<byte>, off: nat, v: nat, net: bool) {
    off + 4 <= |bs| && U32(bs[off..off + 4], net) == v
  }

  ghost predicate BytesAt(bs: seq<byte>, off: nat, data: seq<byte>) {
    off + |data| <= |bs| && bs[off..off + |data|] == data
  }

  ghost predicate HeaderAt(bs: seq<byte>, kind: byte, length: nat, xid: nat, net: bool) {
    && HEADER_SIZE <= |bs| && bs[0] == 1 && bs[1] == kind
    && U16At(bs, 2, length, net) && U32At(bs, 4, xid, net)
  }

  ghost predicate MatchAt(bs: seq<byte>, off: nat, m: Match, net: bool) {
    && off + MatchSize(m.kind) <= |bs|
    && NameAt(bs, off, m.name) && bs[off + 128] == Code(m.kind) && U16At(bs, off + 130, m.length, net)
    && BytesAt(bs, off + BitmapOffset(m.kind), m.bitmap)
    && (BitmapOffset(m.kind) == 133 ==> bs[off + 132] == m.flag)
    && (MatchSize(m.kind) == 646 ==> BytesAt(bs, off + 389, m.second))
  }

  ghost predicate ActionAt(bs: seq<byte>, off: nat, name: seq<byte>, params: nat) {
    off + ACTION_SIZE <= |bs| && bs[off] == 0 && NameAt(bs, off + 1, name) && bs[off + 129] as nat == params
  }

  ghost predicate ParamAt(bs: seq<byte>, off: nat, p: Param, net: bool) {
    off + PARAM_SIZE <= |bs| && NameAt(bs, off, p.name) && U32At(bs, off + 128, p.length, net)
      && BytesAt(bs, off + 132, p.bitmap)
  }

  lemma MatchKept(bs: seq<byte>, bs': seq<byte>, off: nat, m: Match, net: bool)
    requires FitsMatch(m) && MatchAt(bs, off, m, net) && Agree(bs, bs', off, off + MatchSize(m.kind))
    ensures MatchAt(bs', off, m, net)
  {
    var hi := off + MatchSize(m.kind);
    AgreeingSlices(bs, bs', off, hi, off, off + NAME_LEN);
    AgreeingSlices(bs, bs', off, hi, off + 130, off + 132);
    AgreeingSlices(bs, bs', off, hi, off + BitmapOffset(m.kind), off + BitmapOffset(m.kind) + |m.bitmap|);
    if MatchSize(m.kind) == 646 {
      AgreeingSlices(bs, bs', off, hi, off + 389, off + 389 + |m.second|);
    }
  }

  lemma ActionKept(bs: seq<byte>, bs': seq<byte>, off: nat, name: seq<byte>, params: nat)
    requires ActionAt(bs, off, name, params) && Agree(bs, bs', off, off + ACTION_SIZE)
    ensures ActionAt(bs', off, name, params)
  {
    AgreeingSlices(bs, bs', off, off + ACTION_SIZE, off + 1, off + 129);
  }

  lemma ParamKept(bs: seq<byte>, bs': seq<byte>, off: nat, p: Param, net: bool)
    requires FitsParam(p) && ParamAt(bs, off, p, net) && Agree(bs, bs', off, off + PARAM_SIZE)
    ensures ParamAt(bs', off, p, net)
  {
    var hi := off + PARAM_SIZE;
    AgreeingSlices(bs, bs', off, hi, off, off + NAME_LEN);
    AgreeingSlices(bs, bs', off, hi, off + 128, off + 132);
    AgreeingSlices(bs, bs', off, hi, off + 132, off + 132 + |p.bitmap|);
  }

  lemma HeaderKept(bs: seq<byte>, bs': seq<byte>, kind: byte, length: nat, xid: nat, net: bool)
    requires HeaderAt(bs, kind, length, xid, net) && Agree(bs, bs', 0, HEADER_SIZE)
    ensures HeaderAt(bs', kind, length, xid, net)
  {
    AgreeingSlices(bs, bs', 0, HEADER_SIZE, 2, 4);
    AgreeingSlices(bs, bs', 0, HEADER_SIZE, 4, 8);
  }

  // ----- where the parts of an entry lie -----

  /** Addresses of the matches, and of the first byte behind them. */
  ghost predicate IsLayout(offs: seq<nat>, ms: seq<Match>) {
    && |offs| == |ms| + 1 && offs[0] == ENTRY_SIZE
    && forall i :: 0 <= i < |ms| ==> offs[i + 1] == offs[i] + MatchSize(ms[i].kind)
  }

  function Layout(ms: seq<Match>): (offs: seq<nat>)
    ensures |offs| == |ms| + 1 && IsLayout(offs, ms)
  {
    if ms == [] then [ENTRY_SIZE]
    else
      var rest := Layout(ms[..|ms| - 1]);
      rest + [rest[|ms| - 1] + MatchSize(ms[|ms| - 1].kind)]
  }

  function MatchesEnd(ms: seq<Match>): nat {
    Layout(ms)[|ms|]
  }

  function ParamOffset(ms: seq<Match>, j: nat): nat {
    MatchesEnd(ms) + 130 + 260 * j
  }

  /** Sum of the sizes of the parts. */
  function EntryLength(e: Entry): nat {
    ParamOffset(e.matches, |e.params|)
  }

  lemma {:induction false} LayoutGrows(offs: seq<nat>, ms: seq<Match>, i: nat, j: nat)
    requires IsLayout(offs, ms) && i <= j <= |ms|
    ensures ENTRY_SIZE + 388 * i <= offs[i] && offs[i] + 388 * (j - i) <= offs[j]
    decreases j
  {
    if i < j {
      LayoutGrows(offs, ms, i, j - 1);
      assert offs[j - 1 + 1] == offs[j - 1] + MatchSize(ms[j - 1].kind);
    } else if i > 0 {
      LayoutGrows(offs, ms, i - 1, i - 1);
      assert offs[i - 1 + 1] == offs[i - 1] + MatchSize(ms[i - 1].kind);
    }
  }

  lemma LayoutAppend(ms: seq<Match>, m: Match)
    ensures Layout(ms + [m]) == Layout(ms) + [MatchesEnd(ms) + MatchSize(m.kind)]
  {
    assert (ms + [m])[..|ms|] == ms;
  }

  /** How many parts have been converted from one byte order to the other. */
  datatype Converted = Converted(header: bool, matches: nat, params: nat)

  const NONE := Converted(false, 0, 0)

  function All(e: Entry): Converted {
    Converted(true, |e.matches|, |e.params|)
  }

  /** The matches are in the buffer: the first a of them in order net, the others in the other. */
  ghost predicate MatchesHold(bs: seq<byte>, ms: seq<Match>, a: nat, net: bool) {
    forall i :: 0 <= i < |ms| ==> MatchAt(bs, Layout(ms)[i], ms[i], (i < a) == net)
  }

  ghost predicate ParamsHold(bs: seq<byte>, ms: seq<Match>, ps: seq<Param>, b: nat, net: bool) {
    forall j :: 0 <= j < |ps| ==> ParamAt(bs, ParamOffset(ms, j), ps[j], (j < b) == net)
  }

  ghost predicate PreambleHolds(bs: seq<byte>, length: nat, xid: nat, table: seq<byte>, count: nat, net: bool) {
    && ENTRY_SIZE <= |bs| && HeaderAt(bs, ADD_TABLE_ENTRY, length, xid, net)
    && NameAt(bs, 8, table) && bs[136] as nat == count
  }

  /** The buffer holds the first part of an entry: header, table name and the filled matches. */
  ghost predicate IsDraft(bs: seq<byte>, xid: nat, table: seq<byte>, ms: seq<Match>) {
    && MatchesEnd(ms) <= |bs| && PreambleHolds(bs, MatchesEnd(ms), xid, table, |ms|, false)
    && MatchesHold(bs, ms, 0, true)
  }

  /** The buffer holds the entry e, the converted parts in order net and the others in the other. */
  ghost predicate IsEntry(bs: seq<byte>, e: Entry, c: Converted, net: bool) {
    && EntryLength(e) <= |bs|
    && PreambleHolds(bs, EntryLength(e), e.xid, e.table, |e.matches|, c.header == net)
    && MatchesHold(bs, e.matches, c.matches, net)
    && ActionAt(bs, MatchesEnd(e.matches), e.action, |e.params|)
    && ParamsHold(bs, e.matches, e.params, c.params, net)
  }

  /** Everything converted one way is nothing converted the other way. */
  lemma ConvertedBack(bs: seq<byte>, e: Entry, net: bool)
    requires IsEntry(bs, e, All(e), net)
    ensures IsEntry(bs, e, NONE, !net)
  {
    hide PreambleHolds, ActionAt, MatchAt, ParamAt, Layout;
  }

  // ----- changes elsewhere in the buffer -----

  lemma PreambleKept(bs: seq<byte>, bs': seq<byte>, length: nat, xid: nat, table: seq<byte>, count: nat, net: bool)
    requires PreambleHolds(bs, length, xid, table, count, net) && |bs'| >= ENTRY_SIZE && Agree(bs, bs', 0, 137)
    ensures PreambleHolds(bs', length, xid, table, count, net)
  {
    HeaderKept(bs, bs', ADD_TABLE_ENTRY, length, xid, net);
    AgreeingSlices(bs, bs', 0, 137, 8, 136);
  }

  /** Changing one match, or none when k is |ms|, keeps the others. */
  lemma MatchesKept(bs: seq<byte>, bs': seq<byte>, ms: seq<Match>, a: nat, net: bool, k: nat)
    requires MatchesHold(bs, ms, a, net) && k <= |ms|
    requires Agree(bs, bs', ENTRY_SIZE, Layout(ms)[k])
    requires k < |ms| ==> Agree(bs, bs', Layout(ms)[k + 1], MatchesEnd(ms))
    requires FitMatches(ms)
    ensures forall i :: 0 <= i < |ms| && i != k ==> MatchAt(bs', Layout(ms)[i], ms[i], (i < a) == net)
    ensures k == |ms| ==> MatchesHold(bs', ms, a, net)
  {
    hide MatchAt, Layout;
    forall i | 0 <= i < |ms| && i != k ensures MatchAt(bs', Layout(ms)[i], ms[i], (i < a) == net) {
      if i < k {
        LayoutGrows(Layout(ms), ms, i + 1, k);
        LayoutGrows(Layout(ms), ms, i, i);
      } else {
        LayoutGrows(Layout(ms), ms, i + 1, |ms|);
        LayoutGrows(Layout(ms), ms, k + 1, i);
      }
      MatchKept(bs, bs', Layout(ms)[i], ms[i], (i < a) == net);
    }
  }

  lemma ParamsKept(bs: seq<byte>, bs': seq<byte>, ms: seq<Match>, ps: seq<Param>, b: nat, net: bool, k: nat)
    requires ParamsHold(bs, ms, ps, b, net) && k <= |ps|
    requires Agree(bs, bs', ParamOffset(ms, 0), ParamOffset(ms, k))
    requires k < |ps| ==> Agree(bs, bs', ParamOffset(ms, k + 1), ParamOffset(ms, |ps|))
    requires FitParams(ps)
    ensures forall j :: 0 <= j < |ps| && j != k ==> ParamAt(bs', ParamOffset(ms, j), ps[j], (j < b) == net)
    ensures k == |ps| ==> ParamsHold(bs', ms, ps, b, net)
  {
    hide ParamAt, Layout;
    forall j | 0 <= j < |ps| && j != k ensures ParamAt(bs', ParamOffset(ms, j), ps[j], (j < b) == net) {
      ParamKept(bs, bs', ParamOffset(ms, j), ps[j], (j < b) == net);
    }
  }

  /** An entry is determined by the bytes the header length counts. */
  lemma EntryPrefix(bs: seq<byte>, bs': seq<byte>, e: Entry, c: Converted, net: bool)
    requires FitsEntry(e) && IsEntry(bs, e, c, net) && EntryLength(e) <= |bs'|
    requires Agree(bs, bs', 0, EntryLength(e))
    ensures IsEntry(bs', e, c, net)
  {
    LayoutGrows(Layout(e.matches), e.matches, |e.matches|, |e.matches|);
    hide Agree, PreambleHolds, MatchesHold, ActionAt, ParamsHold, Layout, FitMatches, FitParams;
    var n, end := |e.params|, MatchesEnd(e.matches);
    AgreeWithin(bs, bs', 0, EntryLength(e), 0, 137);
    AgreeWithin(bs, bs', 0, EntryLength(e), ENTRY_SIZE, end);
    AgreeWithin(bs, bs', 0, EntryLength(e), end, end + ACTION_SIZE);
    AgreeWithin(bs, bs', 0, EntryLength(e), ParamOffset(e.matches, 0), ParamOffset(e.matches, n));
    PreambleKept(bs, bs', EntryLength(e), e.xid, e.table, |e.matches|, c.header == net);
    MatchesKept(bs, bs', e.matches, c.matches, net, |e.matches|);
    ActionKept(bs, bs', end, e.action, n);
    ParamsKept(bs, bs', e.matches, e.params, c.params, net, n);
  }
}

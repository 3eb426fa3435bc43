/** Building an ADD_TABLE_ENTRY message in a buffer: the create and add functions, the writes of
    their callers, and the conversion of every part to network order. */
module MessageBuilder {
  import opened Basics
  import opened Messages

  // ----- writing into the buffer -----

  /** bs' differs from bs at most at lo .. hi-1. */
  ghost predicate Untouched(bs: seq<byte>, bs': seq<byte>, lo: nat, hi: nat) {
    |bs| == |bs'| && forall i :: 0 <= i < |bs| && !(lo <= i < hi) ==> bs'[i] == bs[i]
  }

  lemma AgreeOutside(bs: seq<byte>, bs': seq<byte>, lo: nat, hi: nat, from: nat, to: nat)
    requires Untouched(bs, bs', lo, hi) && to <= |bs| && (to <= lo || hi <= from)
    ensures Agree(bs, bs', from, to)
  {
  }

  method PutU16(buf: array<byte>, off: nat, v: nat)
    requires off + 2 <= buf.Length && v < 0x1_0000
    modifies buf
    ensures U16At(buf[..], off, v, false)
    ensures Untouched(old(buf[..]), buf[..], off, off + 2)
  {
    buf[off] := (v % 256) as byte;
    buf[off + 1] := (v / 256) as byte;
    assert buf[..][off..off + 2] == [(v % 256) as byte, (v / 256) as byte];
  }

  method PutU32(buf: array<byte>, off: nat, v: nat)
    requires off + 4 <= buf.Length && v < 0x1_0000_0000
    modifies buf
    ensures U32At(buf[..], off, v, false)
    ensures Untouched(old(buf[..]), buf[..], off, off + 4)
  {
    PutU16(buf, off, v % 65536);
    ghost var low := buf[..];
    PutU16(buf, off + 2, v / 65536);
    assert buf[..][off..off + 4][..2] == low[off..off + 2];
    assert buf[..][off..off + 4][2..] == buf[..][off + 2..off + 4];
  }

  /** memcpy. */
  method PutBytes(buf: array<byte>, off: nat, src: seq<byte>)
    requires off + |src| <= buf.Length
    modifies buf
    ensures BytesAt(buf[..], off, src)
    ensures Untouched(old(buf[..]), buf[..], off, off + |src|)
  {
    ghost var before := buf[..];
    for k := 0 to |src|
      invariant forall i :: 0 <= i < k ==> buf[off + i] == src[i]
      invariant Untouched(before, buf[..], off, off + k)
    {
      buf[off + k] := src[k];
    }
  }

  /** strcpy into an array of NAME_LEN characters. */
  method StrCpy(buf: array<byte>, off: nat, name: seq<byte>)
    requires off + NAME_LEN <= buf.Length && |name| < NAME_LEN && 0 !in name
    modifies buf
    ensures NameAt(buf[..], off, name)
    ensures Untouched(old(buf[..]), buf[..], off, off + NAME_LEN)
  {
    PutBytes(buf, off, name);
    ghost var copied := buf[..];
    buf[off + |name|] := 0;
    assert buf[..][off..off + NAME_LEN][..|name|] == copied[off..off + |name|];
  }

  // ----- create_p4_header, create_p4_add_table_entry -----

  method CreateP4Header(buf: array<byte>, maxlength: nat) returns (ok: bool)
    requires maxlength <= buf.Length
    modifies buf
    ensures ok == (HEADER_SIZE <= maxlength)
    ensures ok ==> HeaderAt(buf[..], 0, HEADER_SIZE, 0, false)
    ensures Untouched(old(buf[..]), buf[..], 0, HEADER_SIZE)
  {
    ok := HEADER_SIZE <= maxlength;
    if ok {
      buf[0], buf[1] := 1, 0;
      PutU16(buf, 2, HEADER_SIZE);
      ghost var before := buf[..];
      PutU32(buf, 4, 0);
      AgreeingSlices(before, buf[..], 0, 4, 2, 4);
    }
  }

  method CreateAddTableEntry(buf: array<byte>, maxlength: nat) returns (ok: bool)
    requires maxlength <= buf.Length
    modifies buf
    ensures ok == (ENTRY_SIZE < maxlength)
    ensures !ok ==> buf[..] == old(buf[..])
    ensures ok ==> forall length, xid :: HeaderAt(old(buf[..]), 0, length, xid, false) ==>
                     HeaderAt(buf[..], ADD_TABLE_ENTRY, ENTRY_SIZE, xid, false)
    ensures ok ==> NameAt(buf[..], 8, []) && buf[136] == 0
  {
    ok := ENTRY_SIZE < maxlength;
    if ok {
      ghost var b0 := buf[..];
      PutU16(buf, 2, ENTRY_SIZE);
      ghost var b1 := buf[..];
      buf[1] := ADD_TABLE_ENTRY;
      buf[136] := 0;
      buf[8] := 0;
      AgreeingSlices(b1, buf[..], 2, 8, 2, 4);
      AgreeingSlices(b0, buf[..], 4, 8, 4, 8);
    }
  }

  /** A fresh message, with the transaction id and the table name the caller puts in. */
  method StartEntry(buf: array<byte>, maxlength: nat, xid: nat, table: seq<byte>) returns (ok: bool)
    requires maxlength <= buf.Length && xid < 0x1_0000_0000 && |table| < NAME_LEN && 0 !in table
    modifies buf
    ensures ok == (ENTRY_SIZE < maxlength)
    ensures ok ==> IsDraft(buf[..], xid, table, [])
  {
    ok := CreateP4Header(buf, maxlength);
    if ok {
      ok := CreateAddTableEntry(buf, maxlength);
    }
    if ok {
      ghost var b1 := buf[..];
      PutU32(buf, 4, xid);
      ghost var b2 := buf[..];
      StrCpy(buf, 8, table);
      AgreeingSlices(b1, buf[..], 2, 4, 2, 4);
      AgreeingSlices(b2, buf[..], 0, 8, 4, 8);
    }
  }

  // ----- growing a message -----

  /** header.length while it is in host order. */
  method HeaderLength(buf: array<byte>) returns (n: nat)
    requires buf.Length >= HEADER_SIZE
    ensures U16At(buf[..], 2, n, false)
  {
    n := buf[2] as nat + 256 * (buf[3] as nat);
  }

  /** Adding to a uint8_t. */
  function Plus(b: byte, more: byte): byte {
    if b as nat + more as nat < 256 then b + more else (b as nat + more as nat - 256) as byte
  }

  /** From b0 to b1 the header has grown to `length` bytes and the count at `at` has grown by
      `more`; nothing else below `off` has changed. */
  ghost predicate Grown(b0: seq<byte>, b1: seq<byte>, off: nat, length: nat, at: nat, more: byte) {
    && |b0| == |b1| && 4 <= at < off <= |b0|
    && U16At(b1, 2, length, false)
    && b1[at] == Plus(b0[at], more)
    && forall i :: 0 <= i < off && !(2 <= i < 4) && i != at ==> b1[i] == b0[i]
  }

  /** The five add_p4_field_match functions: reserve the struct, count it and set its type. */
  method AddFieldMatch(buf: array<byte>, maxlength: nat, kind: Kind) returns (ok: bool, off: nat)
    requires maxlength < 0x1_0000 && maxlength <= buf.Length && buf.Length >= HEADER_SIZE
    requires forall n: nat :: U16At(buf[..], 2, n, false) ==> n >= ENTRY_SIZE
    modifies buf
    ensures U16At(old(buf[..]), 2, off, false) && ok == (off + MatchSize(kind) <= maxlength)
    ensures ok ==> Grown(old(buf[..]), buf[..], off, off + MatchSize(kind), 136, 1) && buf[off + 128] == Code(kind)
    ensures ok ==> U16At(buf[..], off + 130, 0, false) && (BitmapOffset(kind) == 133 ==> buf[off + 132] == 0)
    ensures !ok ==> buf[..] == old(buf[..])
  {
    off := HeaderLength(buf);
    ok := off + MatchSize(kind) <= maxlength;
    if ok {
      PutU16(buf, 2, off + MatchSize(kind));
      ghost var b1 := buf[..];
      buf[136] := Plus(buf[136], 1);
      buf[off + 128] := Code(kind);
      if BitmapOffset(kind) == 133 {
        buf[off + 132] := 0;
      }
      PutU16(buf, off + 130, 0);
      AgreeingSlices(b1, buf[..], 2, 4, 2, 4);
    }
  }

  /** The caller's writes into a match: name, length, bitmaps and the one-byte field. */
  method FillMatch(buf: array<byte>, off: nat, m: Match)
    requires FitsMatch(m) && off + MatchSize(m.kind) <= buf.Length && buf[off + 128] == Code(m.kind)
    modifies buf
    ensures MatchAt(buf[..], off, m, false)
    ensures Untouched(old(buf[..]), buf[..], off, off + MatchSize(m.kind))
  {
    StrCpy(buf, off, m.name);
    ghost var b1 := buf[..];
    PutU16(buf, off + 130, m.length);
    ghost var b2 := buf[..];
    if BitmapOffset(m.kind) == 133 {
      buf[off + 132] := m.flag;
    }
    PutBytes(buf, off + BitmapOffset(m.kind), m.bitmap);
    ghost var b3 := buf[..];
    if MatchSize(m.kind) == 646 {
      PutBytes(buf, off + 389, m.second);
    }
    FillKept(b1, b2, b3, buf[..], off, m);
  }

  /** Later writes leave the earlier ones. */
  lemma FillKept(b1: seq<byte>, b2: seq<byte>, b3: seq<byte>, b4: seq<byte>, off: nat, m: Match)
    requires FitsMatch(m) && off + MatchSize(m.kind) <= |b1|
    requires NameAt(b1, off, m.name) && Untouched(b1, b2, off + 130, off + 132)
    requires U16At(b2, off + 130, m.length, false) && Untouched(b2, b3, off + 132, off + MatchSize(m.kind))
    requires BytesAt(b3, off + BitmapOffset(m.kind), m.bitmap) && Untouched(b3, b4, off + 389, off + MatchSize(m.kind))
    ensures NameAt(b4, off, m.name) && U16At(b4, off + 130, m.length, false)
    ensures BytesAt(b4, off + BitmapOffset(m.kind), m.bitmap)
  {
    AgreeingSlices(b1, b4, off, off + NAME_LEN, off, off + NAME_LEN);
    AgreeingSlices(b2, b4, off + 130, off + 132, off + 130, off + 132);
    var fo := off + BitmapOffset(m.kind);
    AgreeingSlices(b3, b4, fo, fo + |m.bitmap|, fo, fo + |m.bitmap|);
  }

  /** add_p4_action. */
  method AddAction(buf: array<byte>, maxlength: nat) returns (ok: bool, off: nat)
    requires maxlength < 0x1_0000 && maxlength <= buf.Length && buf.Length >= HEADER_SIZE
    requires forall n: nat :: U16At(buf[..], 2, n, false) ==> n >= ENTRY_SIZE
    modifies buf
    ensures U16At(old(buf[..]), 2, off, false) && ok == (off + ACTION_SIZE <= maxlength)
    ensures ok ==> Grown(old(buf[..]), buf[..], off, off + ACTION_SIZE, 136, 0) && ActionAt(buf[..], off, [], 0)
    ensures !ok ==> buf[..] == old(buf[..])
  {
    off := HeaderLength(buf);
    ok := off + ACTION_SIZE <= maxlength;
    if ok {
      PutU16(buf, 2, off + ACTION_SIZE);
      ghost var b1 := buf[..];
      buf[off], buf[off + 1], buf[off + 129] := 0, 0, 0;
      AgreeingSlices(b1, buf[..], 2, 4, 2, 4);
    }
  }

  /** add_p4_action_parameter, for an action at the given address. */
  method AddActionParameter(buf: array<byte>, maxlength: nat, action: nat) returns (ok: bool, off: nat)
    requires maxlength < 0x1_0000 && maxlength <= buf.Length && buf.Length >= HEADER_SIZE
    requires forall n: nat :: U16At(buf[..], 2, n, false) ==> n >= action + ACTION_SIZE
    modifies buf
    ensures U16At(old(buf[..]), 2, off, false) && ok == (off + PARAM_SIZE <= maxlength)
    ensures ok ==> Grown(old(buf[..]), buf[..], off, off + PARAM_SIZE, action + 129, 1)
    ensures ok ==> buf[off] == 0 && U32At(buf[..], off + 128, 0, false)
    ensures !ok ==> buf[..] == old(buf[..])
  {
    off := HeaderLength(buf);
    ok := off + PARAM_SIZE <= maxlength;
    if ok {
      PutU16(buf, 2, off + PARAM_SIZE);
      ghost var b1 := buf[..];
      buf[action + 129] := Plus(buf[action + 129], 1);
      buf[off] := 0;
      ghost var b2 := buf[..];
      PutU32(buf, off + 128, 0);
      AgreeingSlices(b1, buf[..], 2, 4, 2, 4);
    }
  }

  /** The caller's writes into a parameter. */
  method FillParam(buf: array<byte>, off: nat, p: Param)
    requires FitsParam(p) && off + PARAM_SIZE <= buf.Length
    modifies buf
    ensures ParamAt(buf[..], off, p, false)
    ensures Untouched(old(buf[..]), buf[..], off, off + PARAM_SIZE)
  {
    StrCpy(buf, off, p.name);
    ghost var b1 := buf[..];
    PutBytes(buf, off + 132, p.bitmap);
    ghost var b2 := buf[..];
    PutU32(buf, off + 128, p.length);
    AgreeingSlices(b1, buf[..], off, off + NAME_LEN, off, off + NAME_LEN);
    AgreeingSlices(b2, buf[..], off + 132, off + 132 + |p.bitmap|, off + 132, off + 132 + |p.bitmap|);
  }

  // ----- what the message holds after each part -----

  /** A match more. Its 8-bit count does not wrap: a 16-bit length has room for 168 matches. */
  lemma DraftGrows(b0: seq<byte>, b1: seq<byte>, b2: seq<byte>, xid: nat, table: seq<byte>, ms: seq<Match>, m: Match)
    requires IsDraft(b0, xid, table, ms) && FitMatches(ms) && FitsMatch(m)
    requires Grown(b0, b1, MatchesEnd(ms), MatchesEnd(ms) + MatchSize(m.kind), 136, 1)
    requires MatchesEnd(ms) + MatchSize(m.kind) < 0x1_0000
    requires MatchAt(b2, MatchesEnd(ms), m, false)
    requires Untouched(b1, b2, MatchesEnd(ms), MatchesEnd(ms) + MatchSize(m.kind))
    ensures IsDraft(b2, xid, table, ms + [m])
  {
    LayoutGrows(Layout(ms), ms, |ms|, |ms|);
    LayoutAppend(ms, m);
    hide Layout, IsLayout, FitMatches;
    assert PreambleHolds(b2, MatchesEnd(ms + [m]), xid, table, |ms| + 1, false) by {
      PreambleGrows(b0, b1, b2, MatchesEnd(ms), MatchesEnd(ms) + MatchSize(m.kind), xid, table, |ms|, 1);
    }
    assert MatchesHold(b2, ms + [m], 0, true) by {
      hide MatchAt;
      MatchesKept(b0, b2, ms, 0, true, |ms|);
      forall i | 0 <= i < |ms + [m]| ensures MatchAt(b2, Layout(ms + [m])[i], (ms + [m])[i], false) {
        if i < |ms| {
          assert MatchAt(b2, Layout(ms)[i], ms[i], (i < 0) == true);
        }
      }
    }
  }

  lemma PreambleGrows(b0: seq<byte>, b1: seq<byte>, b2: seq<byte>, off: nat, length: nat, xid: nat,
          table: seq<byte>, count: nat, more: byte)
    requires PreambleHolds(b0, off, xid, table, count, false) && count + more as nat < 256 && off >= ENTRY_SIZE
    requires Grown(b0, b1, off, length, 136, more) && Agree(b1, b2, 0, off)
    ensures PreambleHolds(b2, length, xid, table, count + more as nat, false)
  {
    AgreeingSlices(b1, b2, 0, off, 2, 4);
    AgreeingSlices(b0, b2, 4, 136, 4, 8);
    AgreeingSlices(b0, b2, 4, 136, 8, 136);
  }

  /** The action makes a draft an entry without parameters. */
  lemma DraftBecomesEntry(b0: seq<byte>, b1: seq<byte>, b2: seq<byte>, xid: nat, table: seq<byte>, ms: seq<Match>,
          action: seq<byte>)
    requires IsDraft(b0, xid, table, ms) && FitMatches(ms)
    requires Grown(b0, b1, MatchesEnd(ms), MatchesEnd(ms) + ACTION_SIZE, 136, 0)
    requires ActionAt(b2, MatchesEnd(ms), action, 0)
    requires MatchesEnd(ms) < 0x1_0000
    requires Untouched(b1, b2, MatchesEnd(ms), MatchesEnd(ms) + ACTION_SIZE)
    ensures IsEntry(b2, Entry(xid, table, ms, action, []), NONE, true)
  {
    LayoutGrows(Layout(ms), ms, |ms|, |ms|);
    hide Layout, IsLayout, FitMatches, MatchAt, ActionAt;
    PreambleGrows(b0, b1, b2, MatchesEnd(ms), MatchesEnd(ms) + ACTION_SIZE, xid, table, |ms|, 0);
    MatchesKept(b0, b2, ms, 0, true, |ms|);
  }

  /** A parameter more; its 8-bit count does not wrap either. */
  lemma EntryGrows(b0: seq<byte>, b1: seq<byte>, b2: seq<byte>, e: Entry, p: Param)
    requires FitsEntry(e) && FitsParam(p) && IsEntry(b0, e, NONE, true)
    requires Grown(b0, b1, EntryLength(e), EntryLength(e) + PARAM_SIZE, MatchesEnd(e.matches) + 129, 1)
    requires EntryLength(e) + PARAM_SIZE < 0x1_0000
    requires ParamAt(b2, EntryLength(e), p, false)
    requires Untouched(b1, b2, EntryLength(e), EntryLength(e) + PARAM_SIZE)
    ensures IsEntry(b2, e.(params := e.params + [p]), NONE, true)
  {
    var ms, ps, end := e.matches, e.params, MatchesEnd(e.matches);
    LayoutGrows(Layout(ms), ms, |ms|, |ms|);
    hide Layout, IsLayout, FitMatches, FitParams, MatchesHold, ParamsHold;
    EntryHeadGrows(b0, b1, b2, e);
    hide ParamAt;
    assert Agree(b0, b2, ENTRY_SIZE, end) && Agree(b0, b2, ParamOffset(ms, 0), EntryLength(e));
    hide Grown, Untouched, Agree, PreambleHolds, ActionAt;
    MatchesKept(b0, b2, ms, 0, true, |ms|);
    ParamsGrow(b0, b2, ms, ps, p);
    assert EntryLength(e) + 260 == EntryLength(e.(params := ps + [p]));
  }

  lemma EntryHeadGrows(b0: seq<byte>, b1: seq<byte>, b2: seq<byte>, e: Entry)
    requires IsEntry(b0, e, NONE, true) && ENTRY_SIZE <= MatchesEnd(e.matches)
    requires Grown(b0, b1, EntryLength(e), EntryLength(e) + PARAM_SIZE, MatchesEnd(e.matches) + 129, 1)
    requires Agree(b1, b2, 0, EntryLength(e)) && EntryLength(e) + PARAM_SIZE < 0x1_0000
    ensures PreambleHolds(b2, EntryLength(e) + PARAM_SIZE, e.xid, e.table, |e.matches|, false)
    ensures ActionAt(b2, MatchesEnd(e.matches), e.action, |e.params| + 1)
  {
    var end := MatchesEnd(e.matches);
    hide Layout, IsLayout, MatchesHold, ParamsHold;
    AgreeingSlices(b1, b2, 0, end, 2, 4);
    assert Agree(b0, b2, 4, end + 129);
    AgreeingSlices(b0, b2, 4, end + 129, 4, 8);
    AgreeingSlices(b0, b2, 4, end + 129, 8, 136);
    AgreeingSlices(b0, b2, 4, end + 129, end + 1, end + 129);
  }

  lemma ParamsGrow(b0: seq<byte>, b2: seq<byte>, ms: seq<Match>, ps: seq<Param>, p: Param)
    requires ParamsHold(b0, ms, ps, 0, true) && FitParams(ps)
    requires Agree(b0, b2, ParamOffset(ms, 0), ParamOffset(ms, |ps|))
    requires ParamAt(b2, ParamOffset(ms, |ps|), p, false)
    ensures ParamsHold(b2, ms, ps + [p], 0, true)
  {
    hide ParamAt, Layout, IsLayout, FitParams;
    ParamsKept(b0, b2, ms, ps, 0, true, |ps|);
    forall j | 0 <= j < |ps + [p]| ensures ParamAt(b2, ParamOffset(ms, j), (ps + [p])[j], false) {
      if j < |ps| {
        assert ParamAt(b2, ParamOffset(ms, j), ps[j], (j < 0) == true);
      }
    }
  }

  // ----- netconv -----

  /** htons or ntohs of the two bytes at off. */
  function Swapped16(bs: seq<byte>, off: nat): (r: seq<byte>)
    requires off + 2 <= |bs|
    ensures Untouched(bs, r, off, off + 2)
    ensures forall v, net :: U16At(bs, off, v, net) ==> U16At(r, off, v, !net)
  {
    bs[off := bs[off + 1]][off + 1 := bs[off]]
  }

  /** htonl or ntohl of the four bytes at off. */
  function Swapped32(bs: seq<byte>, off: nat): (r: seq<byte>)
    requires off + 4 <= |bs|
    ensures Untouched(bs, r, off, off + 4)
    ensures forall v, net :: U32At(bs, off, v, net) ==> U32At(r, off, v, !net)
  {
    var w := bs[off..off + 4];
    var r := bs[off := w[3]][off + 1 := w[2]][off + 2 := w[1]][off + 3 := w[0]];
    assert r[off..off + 4] == [w[3], w[2], w[1], w[0]];
    r
  }

  function SwappedHeader(bs: seq<byte>): seq<byte>
    requires HEADER_SIZE <= |bs|
  {
    Swapped32(Swapped16(bs, 2), 4)
  }

  /** sizeof of the struct that a type byte announces, zero for an unknown one. */
  function SizeOfType(t: byte): nat {
    if t == 0 || t == 2 then 388 else if t == 4 then 390 else if t == 1 || t == 3 then 646 else 0
  }

  /** netconv_p4_field_match_complex: an unknown type is left as it is. */
  function SwappedMatch(bs: seq<byte>, off: nat): (r: seq<byte>)
    requires off + 132 <= |bs|
    ensures |r| == |bs|
  {
    if SizeOfType(bs[off + 128]) == 0 then bs else Swapped16(bs, off + 130)
  }

  /** netconv_p4_action_parameter. */
  function SwappedParam(bs: seq<byte>, off: nat): (r: seq<byte>)
    requires off + 132 <= |bs|
    ensures |r| == |bs|
  {
    Swapped32(bs, off + 128)
  }

  method NetconvHeader(buf: array<byte>)
    requires HEADER_SIZE <= buf.Length
    modifies buf
    ensures buf[..] == SwappedHeader(old(buf[..]))
  {
    buf[2], buf[3] := buf[3], buf[2];
    buf[4], buf[5], buf[6], buf[7] := buf[7], buf[6], buf[5], buf[4];
  }

  method NetconvMatch(buf: array<byte>, off: nat) returns (size: nat)
    requires off + 132 <= buf.Length
    modifies buf
    ensures buf[..] == SwappedMatch(old(buf[..]), off) && size == SizeOfType(old(buf[off + 128]))
  {
    size := match buf[off + 128]
      case 0 => 388
      case 1 => 646
      case 2 => 388
      case 3 => 646
      case 4 => 390
      case _ => 0;
    if buf[off + 128] <= 4 {
      buf[off + 130], buf[off + 131] := buf[off + 131], buf[off + 130];
    }
  }

  method NetconvParam(buf: array<byte>, off: nat)
    requires off + 132 <= buf.Length
    modifies buf
    ensures buf[..] == SwappedParam(old(buf[..]), off)
  {
    buf[off + 128], buf[off + 129], buf[off + 130], buf[off + 131] :=
      buf[off + 131], buf[off + 130], buf[off + 129], buf[off + 128];
  }

  /** Converting one part of an entry converts that part and keeps the rest. */
  lemma HeaderConverted(bs: seq<byte>, e: Entry, net: bool)
    requires FitsEntry(e) && IsEntry(bs, e, NONE, net)
    ensures IsEntry(SwappedHeader(bs), e, Converted(true, 0, 0), net)
  {
    var bs', n, end := SwappedHeader(bs), |e.params|, MatchesEnd(e.matches);
    LayoutGrows(Layout(e.matches), e.matches, |e.matches|, |e.matches|);
    hide Layout, IsLayout, FitMatches, FitParams, MatchesHold, ParamsHold, ActionAt;
    PreambleConverted(bs, EntryLength(e), e.xid, e.table, |e.matches|, net);
    assert Untouched(bs, bs', 2, 8);
    hide PreambleHolds, SwappedHeader, Untouched, Agree;
    AgreeOutside(bs, bs', 2, 8, ENTRY_SIZE, end);
    AgreeOutside(bs, bs', 2, 8, end, end + ACTION_SIZE);
    AgreeOutside(bs, bs', 2, 8, ParamOffset(e.matches, 0), EntryLength(e));
    MatchesKept(bs, bs', e.matches, 0, net, |e.matches|);
    ActionKept(bs, bs', end, e.action, n);
    ParamsKept(bs, bs', e.matches, e.params, 0, net, n);
  }

  lemma PreambleConverted(bs: seq<byte>, length: nat, xid: nat, table: seq<byte>, count: nat, net: bool)
    requires PreambleHolds(bs, length, xid, table, count, !net)
    ensures PreambleHolds(SwappedHeader(bs), length, xid, table, count, net)
  {
    var bs1 := Swapped16(bs, 2);
    var bs' := Swapped32(bs1, 4);
    AgreeingSlices(bs, bs1, 4, 8, 4, 8);
    AgreeingSlices(bs1, bs', 2, 4, 2, 4);
    AgreeingSlices(bs, bs', 8, 136, 8, 136);
  }

  /** Changing bytes among the matches keeps header, action and parameters. */
  lemma RestKept(bs: seq<byte>, bs': seq<byte>, e: Entry, c: Converted, lo: nat, hi: nat, net: bool)
    requires FitsEntry(e) && IsEntry(bs, e, c, net) && Untouched(bs, bs', lo, hi)
    requires ENTRY_SIZE <= lo && hi <= MatchesEnd(e.matches)
    ensures EntryLength(e) <= |bs'|
    ensures PreambleHolds(bs', EntryLength(e), e.xid, e.table, |e.matches|, c.header == net)
    ensures ActionAt(bs', MatchesEnd(e.matches), e.action, |e.params|)
    ensures ParamsHold(bs', e.matches, e.params, c.params, net)
  {
    hide Layout, IsLayout, FitMatches, FitParams, MatchesHold, ParamsHold, ActionAt, Agree;
    var end := MatchesEnd(e.matches);
    assert ENTRY_SIZE <= |bs| == |bs'|;
    hide PreambleHolds, Untouched;
    AgreeOutside(bs, bs', lo, hi, 0, 137);
    AgreeOutside(bs, bs', lo, hi, end, end + ACTION_SIZE);
    AgreeOutside(bs, bs', lo, hi, ParamOffset(e.matches, 0), EntryLength(e));
    PreambleKept(bs, bs', EntryLength(e), e.xid, e.table, |e.matches|, c.header == net);
    ActionKept(bs, bs', end, e.action, |e.params|);
    ParamsKept(bs, bs', e.matches, e.params, c.params, net, |e.params|);
  }

  /** Where match k lies. */
  lemma MatchBounds(ms: seq<Match>, k: nat)
    requires k < |ms|
    ensures ENTRY_SIZE <= Layout(ms)[k] && Layout(ms)[k] + 388 <= Layout(ms)[k + 1] <= MatchesEnd(ms)
  {
    hide Layout, IsLayout;
    LayoutGrows(Layout(ms), ms, k, k + 1);
    LayoutGrows(Layout(ms), ms, k + 1, |ms|);
  }

  lemma MatchConverted(bs: seq<byte>, e: Entry, c: Converted, net: bool)
    requires FitsEntry(e) && IsEntry(bs, e, c, net) && c.matches < |e.matches|
    ensures var off := Layout(e.matches)[c.matches];
            && off + 132 <= |bs| && SizeOfType(bs[off + 128]) == MatchSize(e.matches[c.matches].kind)
            && IsEntry(SwappedMatch(bs, off), e, c.(matches := c.matches + 1), net)
  {
    hide Layout, IsLayout, FitParams, ParamsHold, ActionAt, PreambleHolds, MatchAt, Untouched, SwappedMatch, SizeOfType;
    hide Agree;
    var ms, k := e.matches, c.matches;
    var off := Layout(ms)[k];
    MatchBounds(ms, k);
    var bs' := SwappedMatch(bs, off);
    SwapsLength(bs, off, ms[k], net);
    RestKept(bs, bs', e, c, off + 130, off + 132, net);
    hide MatchesHold;
    AgreeOutside(bs, bs', off + 130, off + 132, ENTRY_SIZE, off);
    AgreeOutside(bs, bs', off + 130, off + 132, Layout(ms)[k + 1], MatchesEnd(ms));
    MatchesAdvance(bs, bs', ms, k, net);
  }

  lemma MatchesAdvance(bs: seq<byte>, bs': seq<byte>, ms: seq<Match>, k: nat, net: bool)
    requires MatchesHold(bs, ms, k, net) && k < |ms| && MatchAt(bs', Layout(ms)[k], ms[k], net)
    requires Agree(bs, bs', ENTRY_SIZE, Layout(ms)[k]) && Agree(bs, bs', Layout(ms)[k + 1], MatchesEnd(ms))
    requires FitMatches(ms)
    ensures MatchesHold(bs', ms, k + 1, net)
  {
    hide MatchAt, Layout, IsLayout, FitsMatch;
    MatchesKept(bs, bs', ms, k, net, k);
  }

  lemma SwapsLength(bs: seq<byte>, off: nat, m: Match, net: bool)
    requires FitsMatch(m) && MatchAt(bs, off, m, !net)
    ensures SizeOfType(bs[off + 128]) == MatchSize(m.kind)
    ensures Untouched(bs, SwappedMatch(bs, off), off + 130, off + 132)
    ensures MatchAt(SwappedMatch(bs, off), off, m, net)
  {
    var bs' := SwappedMatch(bs, off);
    AgreeingSlices(bs, bs', off, off + NAME_LEN, off, off + NAME_LEN);
    var hi := off + MatchSize(m.kind);
    AgreeingSlices(bs, bs', off + 132, hi, off + BitmapOffset(m.kind), off + BitmapOffset(m.kind) + |m.bitmap|);
    if MatchSize(m.kind) == 646 {
      AgreeingSlices(bs, bs', off + 132, hi, off + 389, off + 389 + |m.second|);
    }
  }

  /** Changing bytes among the parameters keeps header, matches and action. */
  lemma FrontKept(bs: seq<byte>, bs': seq<byte>, e: Entry, c: Converted, lo: nat, hi: nat, net: bool)
    requires FitsEntry(e) && IsEntry(bs, e, c, net) && Untouched(bs, bs', lo, hi) && ParamOffset(e.matches, 0) <= lo
    ensures PreambleHolds(bs', EntryLength(e), e.xid, e.table, |e.matches|, c.header == net)
    ensures MatchesHold(bs', e.matches, c.matches, net)
    ensures ActionAt(bs', MatchesEnd(e.matches), e.action, |e.params|)
  {
    hide Layout, IsLayout, FitMatches, FitParams, MatchesHold, ParamsHold, ActionAt, Agree;
    var ms, end := e.matches, MatchesEnd(e.matches);
    assert ENTRY_SIZE <= |bs| == |bs'|;
    hide PreambleHolds, Untouched;
    LayoutGrows(Layout(ms), ms, |ms|, |ms|);
    AgreeOutside(bs, bs', lo, hi, 0, 137);
    AgreeOutside(bs, bs', lo, hi, ENTRY_SIZE, end);
    AgreeOutside(bs, bs', lo, hi, end, end + ACTION_SIZE);
    PreambleKept(bs, bs', EntryLength(e), e.xid, e.table, |ms|, c.header == net);
    MatchesKept(bs, bs', ms, c.matches, net, |ms|);
    ActionKept(bs, bs', end, e.action, |e.params|);
  }

  lemma ParamConverted(bs: seq<byte>, e: Entry, c: Converted, off: nat, net: bool)
    requires FitsEntry(e) && IsEntry(bs, e, c, net) && c.params < |e.params|
    requires off == ParamOffset(e.matches, c.params)
    ensures off + 132 <= |bs| && IsEntry(SwappedParam(bs, off), e, c.(params := c.params + 1), net)
  {
    hide Layout, IsLayout, FitMatches, ParamAt, MatchesHold, ActionAt, PreambleHolds, Untouched, Agree, SwappedParam;
    var ms, ps, k, lo, hi := e.matches, e.params, c.params, off + 128, off + 132;
    assert ParamOffset(ms, 0) <= off < ParamOffset(ms, k + 1) == off + 260 <= EntryLength(e);
    var bs' := SwappedParam(bs, off);
    SwapsParamLength(bs, off, ps[k], net);
    FrontKept(bs, bs', e, c, lo, hi, net);
    hide ParamsHold, MatchesEnd, ParamOffset, FitParams;
    AgreeOutside(bs, bs', lo, hi, ParamOffset(ms, 0), off);
    AgreeOutside(bs, bs', lo, hi, ParamOffset(ms, k + 1), EntryLength(e));
    ParamsAdvance(bs, bs', ms, ps, k, net);
  }

  lemma ParamsAdvance(bs: seq<byte>, bs': seq<byte>, ms: seq<Match>, ps: seq<Param>, k: nat, net: bool)
    requires ParamsHold(bs, ms, ps, k, net) && k < |ps| && ParamAt(bs', ParamOffset(ms, k), ps[k], net)
    requires Agree(bs, bs', ParamOffset(ms, 0), ParamOffset(ms, k))
    requires Agree(bs, bs', ParamOffset(ms, k + 1), ParamOffset(ms, |ps|))
    requires FitParams(ps)
    ensures ParamsHold(bs', ms, ps, k + 1, net)
  {
    hide ParamAt, Layout, IsLayout, FitParams;
    ParamsKept(bs, bs', ms, ps, k, net, k);
  }

  lemma SwapsParamLength(bs: seq<byte>, off: nat, p: Param, net: bool)
    requires FitsParam(p) && ParamAt(bs, off, p, !net)
    ensures Untouched(bs, SwappedParam(bs, off), off + 128, off + 132)
    ensures ParamAt(SwappedParam(bs, off), off, p, net)
  {
    var bs' := SwappedParam(bs, off);
    AgreeingSlices(bs, bs', off, off + NAME_LEN, off, off + NAME_LEN);
    AgreeingSlices(bs, bs', off + 132, off + PARAM_SIZE, off + 132, off + 132 + |p.bitmap|);
  }

  // ----- building a message -----

  lemma {:induction false} LayoutPrefix(ms: seq<Match>, i: nat)
    requires i <= |ms|
    ensures Layout(ms)[..i + 1] == Layout(ms[..i])
    ensures MatchesEnd(ms[..i]) == Layout(ms)[i]
    decreases |ms|
  {
    if i < |ms| {
      assert ms[..|ms| - 1][..i] == ms[..i];
      LayoutPrefix(ms[..|ms| - 1], i);
    } else {
      assert ms[..i] == ms;
    }
  }

  /** A longer list of matches needs more room. */
  lemma PrefixIsShorter(ms: seq<Match>, i: nat)
    requires i <= |ms|
    ensures ENTRY_SIZE <= MatchesEnd(ms[..i]) <= MatchesEnd(ms)
  {
    LayoutPrefix(ms, i);
    LayoutGrows(Layout(ms), ms, i, |ms|);
  }

  /** The length field of a draft. */
  lemma DraftLength(bs: seq<byte>, xid: nat, table: seq<byte>, ms: seq<Match>)
    requires IsDraft(bs, xid, table, ms)
    ensures ENTRY_SIZE <= MatchesEnd(ms) <= |bs| && forall n: nat :: U16At(bs, 2, n, false) ==> n == MatchesEnd(ms)
  {
    LayoutGrows(Layout(ms), ms, |ms|, |ms|);
    hide Layout, IsLayout, MatchesHold;
  }

  method AddMatch(buf: array<byte>, maxlength: nat, ghost xid: nat, ghost table: seq<byte>, ghost ms: seq<Match>,
          m: Match)
    returns (ok: bool)
    requires maxlength < 0x1_0000 && maxlength <= buf.Length && FitMatches(ms) && FitsMatch(m)
    requires IsDraft(buf[..], xid, table, ms)
    modifies buf
    ensures ok == (MatchesEnd(ms + [m]) <= maxlength)
    ensures ok ==> IsDraft(buf[..], xid, table, ms + [m])
  {
    LayoutAppend(ms, m);
    assert MatchesEnd(ms + [m]) == MatchesEnd(ms) + MatchSize(m.kind);
    hide Layout, IsLayout, FitMatches, FitsMatch, MatchesEnd, IsDraft, MatchAt, U16At, Grown;
    ghost var b0 := buf[..];
    DraftLength(b0, xid, table, ms);
    var off;
    ok, off := AddFieldMatch(buf, maxlength, m.kind);
    if ok {
      ghost var b1 := buf[..];
      SameSize(b0, b1, off, off + MatchSize(m.kind), 136, 1);
      FillMatch(buf, off, m);
      DraftGrows(b0, b1, buf[..], xid, table, ms, m);
    }
  }

  lemma SameSize(b0: seq<byte>, b1: seq<byte>, off: nat, length: nat, at: nat, more: byte)
    requires Grown(b0, b1, off, length, at, more)
    ensures |b0| == |b1|
  {
  }

  method AddEntryAction(buf: array<byte>, maxlength: nat, ghost xid: nat, ghost table: seq<byte>,
          ghost ms: seq<Match>, action: seq<byte>)
    returns (ok: bool, at: nat)
    requires maxlength < 0x1_0000 && maxlength <= buf.Length && FitMatches(ms)
    requires |action| < NAME_LEN && 0 !in action && IsDraft(buf[..], xid, table, ms)
    modifies buf
    ensures at == MatchesEnd(ms) && ok == (at + ACTION_SIZE <= maxlength)
    ensures ok ==> IsEntry(buf[..], Entry(xid, table, ms, action, []), NONE, true)
  {
    hide Layout, IsLayout, FitMatches, MatchesEnd, IsDraft, U16At, IsEntry, NameAt, Grown;
    ghost var b0 := buf[..];
    DraftLength(b0, xid, table, ms);
    ok, at := AddAction(buf, maxlength);
    if ok {
      ghost var b1 := buf[..];
      StrCpy(buf, at + 1, action);
      ActionNamed(b1, buf[..], at, action);
      DraftBecomesEntry(b0, b1, buf[..], xid, table, ms, action);
    }
  }

  lemma ActionNamed(b1: seq<byte>, b2: seq<byte>, at: nat, action: seq<byte>)
    requires ActionAt(b1, at, [], 0) && NameAt(b2, at + 1, action) && Untouched(b1, b2, at + 1, at + 1 + NAME_LEN)
    ensures ActionAt(b2, at, action, 0) && Untouched(b1, b2, at, at + ACTION_SIZE)
  {
  }

  method AddParam(buf: array<byte>, maxlength: nat, at: nat, ghost e: Entry, p: Param) returns (ok: bool)
    requires maxlength < 0x1_0000 && maxlength <= buf.Length && FitsEntry(e) && FitsParam(p)
    requires IsEntry(buf[..], e, NONE, true) && at == MatchesEnd(e.matches)
    modifies buf
    ensures ok == (EntryLength(e) + PARAM_SIZE <= maxlength)
    ensures ok ==> IsEntry(buf[..], e.(params := e.params + [p]), NONE, true)
  {
    hide Layout, IsLayout, FitMatches, FitParams, FitsParam, MatchesHold, ParamsHold, ActionAt, ParamAt;
    ghost var b0 := buf[..];
    var off;
    ok, off := AddActionParameter(buf, maxlength, at);
    if ok {
      ghost var b1 := buf[..];
      hide Grown, IsEntry;
      FillParam(buf, off, p);
      EntryGrows(b0, b1, buf[..], e, p);
    }
  }

  method AddMatches(buf: array<byte>, maxlength: nat, ghost xid: nat, ghost table: seq<byte>, ms: seq<Match>)
    returns (ok: bool)
    requires maxlength < 0x1_0000 && maxlength <= buf.Length && FitMatches(ms)
    requires IsDraft(buf[..], xid, table, []) && ENTRY_SIZE <= maxlength
    modifies buf
    ensures ok == (MatchesEnd(ms) <= maxlength)
    ensures ok ==> IsDraft(buf[..], xid, table, ms)
  {
    PrefixIsShorter(ms, 0);
    assert MatchesEnd([]) == ENTRY_SIZE;
    hide IsDraft, FitsMatch, Layout, IsLayout, MatchesEnd;
    ok := true;
    for i := 0 to |ms|
      invariant IsDraft(buf[..], xid, table, ms[..i]) && MatchesEnd(ms[..i]) <= maxlength
    {
      PrefixIsShorter(ms, i + 1);
      assert ms[..i] + [ms[i]] == ms[..i + 1];
      ok := AddMatch(buf, maxlength, xid, table, ms[..i], ms[i]);
      if !ok {
        return;
      }
    }
    assert ms[..|ms|] == ms;
  }

  method AddParams(buf: array<byte>, maxlength: nat, at: nat, ghost e: Entry, ps: seq<Param>) returns (ok: bool)
    requires maxlength < 0x1_0000 && maxlength <= buf.Length && FitsEntry(e) && FitParams(ps)
    requires IsEntry(buf[..], e, NONE, true) && at == MatchesEnd(e.matches) && e.params == []
    requires EntryLength(e) <= maxlength
    modifies buf
    ensures ok == (EntryLength(e.(params := ps)) <= maxlength)
    ensures ok ==> IsEntry(buf[..], e.(params := ps), NONE, true)
  {
    hide IsEntry, FitsParam, FitMatches, Layout, IsLayout, MatchesEnd;
    ok := true;
    assert e.(params := ps[..0]) == e;
    for j := 0 to |ps|
      invariant IsEntry(buf[..], e.(params := ps[..j]), NONE, true) && EntryLength(e.(params := ps[..j])) <= maxlength
    {
      assert ps[..j] + [ps[j]] == ps[..j + 1];
      ok := AddParam(buf, maxlength, at, e.(params := ps[..j]), ps[j]);
      if !ok {
        return;
      }
    }
    assert ps[..|ps|] == ps;
  }

  /** Everything the controller does to make the message e; false when it does not fit. */
  method BuildEntry(buf: array<byte>, maxlength: nat, e: Entry) returns (ok: bool)
    requires maxlength < 0x1_0000 && maxlength <= buf.Length && FitsEntry(e)
    modifies buf
    ensures ok == (EntryLength(e) <= maxlength)
    ensures ok ==> IsEntry(buf[..], e, All(e), true)
  {
    var ms, ps := e.matches, e.params;
    PrefixIsShorter(ms, 0);
    assert ms[..|ms|] == ms;
    PrefixIsShorter(ms, |ms|);
    hide IsDraft, IsEntry, FitMatches, FitParams, Layout, IsLayout, MatchesEnd;
    ok := StartEntry(buf, maxlength, e.xid, e.table);
    if ok {
      ok := AddMatches(buf, maxlength, e.xid, e.table, ms);
    }
    var at;
    if ok {
      ok, at := AddEntryAction(buf, maxlength, e.xid, e.table, ms, e.action);
    }
    if ok {
      ok := AddParams(buf, maxlength, at, e.(params := []), ps);
      assert e.(params := []).(params := ps) == e;
    }
    if ok {
      NetconvEntry(buf, e);
    }
  }

  /** netconv of the header, of every match and of every parameter. */
  method NetconvEntry(buf: array<byte>, e: Entry)
    requires FitsEntry(e) && IsEntry(buf[..], e, NONE, true)
    modifies buf
    ensures IsEntry(buf[..], e, All(e), true)
  {
    assert HEADER_SIZE <= buf.Length;
    hide IsEntry, FitsEntry, Layout, IsLayout, SwappedHeader;
    HeaderConverted(buf[..], e, true);
    NetconvHeader(buf);
    var off := NetconvMatches(buf, e);
    NetconvParams(buf, e, off + ACTION_SIZE);
  }

  method NetconvMatches(buf: array<byte>, e: Entry) returns (off: nat)
    requires FitsEntry(e) && IsEntry(buf[..], e, Converted(true, 0, 0), true)
    modifies buf
    ensures off == MatchesEnd(e.matches) && IsEntry(buf[..], e, Converted(true, |e.matches|, 0), true)
  {
    hide IsEntry, FitsEntry, Layout, SwappedMatch, SizeOfType, MatchSize;
    off := ENTRY_SIZE;
    for i := 0 to |e.matches|
      invariant off == Layout(e.matches)[i]
      invariant IsEntry(buf[..], e, Converted(true, i, 0), true)
    {
      MatchConverted(buf[..], e, Converted(true, i, 0), true);
      var size := NetconvMatch(buf, off);
      off := off + size;
    }
  }

  method NetconvParams(buf: array<byte>, e: Entry, start: nat)
    requires FitsEntry(e) && IsEntry(buf[..], e, Converted(true, |e.matches|, 0), true)
    requires start == ParamOffset(e.matches, 0)
    modifies buf
    ensures IsEntry(buf[..], e, All(e), true)
  {
    hide IsEntry, FitsEntry, Layout, IsLayout, SwappedParam, MatchesEnd;
    var off := start;
    for j := 0 to |e.params|
      invariant off == ParamOffset(e.matches, j)
      invariant IsEntry(buf[..], e, Converted(true, |e.matches|, j), true)
    {
      ParamConverted(buf[..], e, Converted(true, |e.matches|, j), off, true);
      NetconvParam(buf, off);
      off := off + PARAM_SIZE;
    }
  }
}

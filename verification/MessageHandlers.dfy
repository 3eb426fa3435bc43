/** handle_p4_msg: the message is converted to host order in place and described by addresses
    in the buffer. */
module MessageHandlers {
  import opened Basics
  import opened Messages
  import opened MessageBuilder

  const MAX_PARTS: nat := 10
  const DEFAULT_SIZE: nat := 268

  /** struct p4_ctrl_msg; pointers are offsets in the buffer. */
  datatype CtrlMsg = CtrlMsg(kind: byte, xid: nat, tableName: nat, matches: seq<nat>, actionType: byte,
    actionName: nat, params: seq<nat>)

  /** Overrun: the counts in the message lead the decoder behind the end of the buffer. */
  datatype Outcome = Rejected(code: int) | Delivered(msg: CtrlMsg) | Overrun

  datatype Walk = Walk(bytes: seq<byte>, addresses: seq<nat>, next: nat) | Outside

  /** The loop over n matches from off on. */
  function WalkMatches(bs: seq<byte>, off: nat, n: nat): (w: Walk)
    ensures w.Walk? ==> |w.bytes| == |bs| && |w.addresses| == n
  {
    if n == 0 then Walk(bs, [], off) else
      var w := WalkMatches(bs, off, n - 1);
      if w.Outside? || w.next + 132 > |bs| then Outside
      else Walk(SwappedMatch(w.bytes, w.next), w.addresses + [w.next], w.next + SizeOfType(w.bytes[w.next + 128]))
  }

  /** The loop over n action parameters. */
  function WalkParams(bs: seq<byte>, off: nat, n: nat): (w: Walk)
    ensures w.Walk? ==> |w.bytes| == |bs| && |w.addresses| == n
  {
    if n == 0 then Walk(bs, [], off) else
      var w := WalkParams(bs, off, n - 1);
      if w.Outside? || w.next + 132 > |bs| then Outside
      else Walk(SwappedParam(w.bytes, w.next), w.addresses + [w.next], w.next + PARAM_SIZE)
  }

  /** handle_p4_set_default_action, on a message whose header is in host order. */
  function SetDefaultAction(bs: seq<byte>): (seq<byte>, Outcome)
    requires |bs| >= HEADER_SIZE
  {
    if DEFAULT_SIZE > |bs| then (bs, Overrun)
    else if bs[265] as nat > MAX_PARTS then (bs, Rejected(-1))
    else
      var w := WalkParams(bs, DEFAULT_SIZE, bs[265] as nat);
      if w.Outside? then (bs, Overrun)
      else (w.bytes, Delivered(CtrlMsg(bs[1], U32(bs[4..8], false), 8, [], bs[136], 137, w.addresses)))
  }

  /** handle_p4_add_table_entry, on a message whose header is in host order. */
  function AddTableEntry(bs: seq<byte>): (seq<byte>, Outcome)
    requires |bs| >= HEADER_SIZE
  {
    if ENTRY_SIZE > |bs| then (bs, Overrun)
    else if bs[136] as nat > MAX_PARTS then (bs, Rejected(-1))
    else
      var w := WalkMatches(bs, ENTRY_SIZE, bs[136] as nat);
      if w.Outside? || w.next + ACTION_SIZE > |bs| then (bs, Overrun)
      else if w.bytes[w.next + 129] as nat > MAX_PARTS then (w.bytes, Rejected(-2))
      else
        var v := WalkParams(w.bytes, w.next + ACTION_SIZE, w.bytes[w.next + 129] as nat);
        if v.Outside? then (bs, Overrun)
        else
          var msg := CtrlMsg(bs[1], U32(bs[4..8], false), 8, w.addresses, w.bytes[w.next], w.next + 1, v.addresses);
          (v.bytes, Delivered(msg))
  }

  /** handle_p4_msg on a buffer of which `length` bytes are valid: the buffer afterwards, and what
      the callback and the caller see. */
  function HandleP4Msg(bs: seq<byte>, length: nat): (seq<byte>, Outcome)
    requires length <= |bs|
  {
    if length < HEADER_SIZE then (bs, Rejected(-1))
    else
      var h := SwappedHeader(bs);
      if U16(h[2..4], false) > length then (h, Rejected(-1))
      else if h[1] == SET_DEFAULT_ACTION then SetDefaultAction(h)
      else if h[1] == ADD_TABLE_ENTRY then AddTableEntry(h)
      else (h, Rejected(-100))
  }

  // ----- the decoder in place -----

  /** Both loops write into the buffer and stay inside it as far as the walk does. */
  method ReadMatches(buf: array<byte>, off: nat, n: nat) returns (addresses: seq<nat>, next: nat)
    requires WalkMatches(buf[..], off, n).Walk?
    modifies buf
    ensures Walk(buf[..], addresses, next) == WalkMatches(old(buf[..]), off, n)
  {
    hide SwappedMatch, SizeOfType;
    ghost var bs := buf[..];
    addresses, next := [], off;
    for i := 0 to n
      invariant Walk(buf[..], addresses, next) == WalkMatches(bs, off, i)
    {
      WalkMatchesInside(bs, off, i + 1, n);
      var size := NetconvMatch(buf, next);
      addresses, next := addresses + [next], next + size;
    }
  }

  lemma {:induction false} WalkMatchesInside(bs: seq<byte>, off: nat, i: nat, n: nat)
    requires i <= n && WalkMatches(bs, off, n).Walk?
    ensures WalkMatches(bs, off, i).Walk?
  {
    if i < n {
      WalkMatchesInside(bs, off, i, n - 1);
    }
  }

  method ReadParams(buf: array<byte>, off: nat, n: nat) returns (addresses: seq<nat>, next: nat)
    requires WalkParams(buf[..], off, n).Walk?
    modifies buf
    ensures Walk(buf[..], addresses, next) == WalkParams(old(buf[..]), off, n)
  {
    hide SwappedParam;
    ghost var bs := buf[..];
    addresses, next := [], off;
    for i := 0 to n
      invariant Walk(buf[..], addresses, next) == WalkParams(bs, off, i)
    {
      WalkParamsInside(bs, off, i + 1, n);
      NetconvParam(buf, next);
      addresses, next := addresses + [next], next + PARAM_SIZE;
    }
  }

  lemma {:induction false} WalkParamsInside(bs: seq<byte>, off: nat, i: nat, n: nat)
    requires i <= n && WalkParams(bs, off, n).Walk?
    ensures WalkParams(bs, off, i).Walk?
  {
    if i < n {
      WalkParamsInside(bs, off, i, n - 1);
    }
  }

  method ReadU32(buf: array<byte>, off: nat) returns (v: nat)
    requires off + 4 <= buf.Length
    ensures v == U32(buf[off..off + 4], false)
  {
    v := buf[off] as nat + 256 * (buf[off + 1] as nat) + 65536 * (buf[off + 2] as nat + 256 * (buf[off + 3] as nat));
  }

  method HandleSetDefaultAction(buf: array<byte>) returns (r: Outcome)
    requires buf.Length >= HEADER_SIZE && !SetDefaultAction(buf[..]).1.Overrun?
    modifies buf
    ensures (buf[..], r) == SetDefaultAction(old(buf[..]))
  {
    hide WalkParams;
    var n := buf[265] as nat;
    if n > MAX_PARTS {
      return Rejected(-1);
    }
    var kind, actionType := buf[1], buf[136];
    var xid := ReadU32(buf, 4);
    var params, _ := ReadParams(buf, DEFAULT_SIZE, n);
    r := Delivered(CtrlMsg(kind, xid, 8, [], actionType, 137, params));
  }

  method HandleAddTableEntry(buf: array<byte>) returns (r: Outcome)
    requires buf.Length >= HEADER_SIZE && !AddTableEntry(buf[..]).1.Overrun?
    modifies buf
    ensures (buf[..], r) == AddTableEntry(old(buf[..]))
  {
    hide WalkParams, WalkMatches;
    var n := buf[136] as nat;
    if n > MAX_PARTS {
      return Rejected(-1);
    }
    var kind := buf[1];
    var xid := ReadU32(buf, 4);
    var matches, action := ReadMatches(buf, ENTRY_SIZE, n);
    var actionType, m := buf[action], buf[action + 129] as nat;
    if m > MAX_PARTS {
      return Rejected(-2);
    }
    var params, _ := ReadParams(buf, action + ACTION_SIZE, m);
    r := Delivered(CtrlMsg(kind, xid, 8, matches, actionType, action + 1, params));
  }

  method Handle(buf: array<byte>, length: nat) returns (r: Outcome)
    requires length <= buf.Length && !HandleP4Msg(buf[..], length).1.Overrun?
    modifies buf
    ensures (buf[..], r) == HandleP4Msg(old(buf[..]), length)
  {
    if length < HEADER_SIZE {
      return Rejected(-1);
    }
    hide SwappedHeader, AddTableEntry, SetDefaultAction;
    NetconvHeader(buf);
    var n := buf[2] as nat + 256 * (buf[3] as nat);
    assert U16(buf[2..4], false) == n;
    if n > length {
      return Rejected(-1);
    }
    match buf[1] {
      case 103 => r := HandleSetDefaultAction(buf);
      case 104 => r := HandleAddTableEntry(buf);
      case _ => r := Rejected(-100);
    }
  }

  // ----- the decoder on a built message -----

  /** The addresses in a delivered message point at the parts of e, all in host order. */
  ghost predicate Describes(bs: seq<byte>, msg: CtrlMsg, e: Entry) {
    && msg.kind == ADD_TABLE_ENTRY && msg.xid == e.xid && msg.actionType == 0
    && NameAt(bs, msg.tableName, e.table) && NameAt(bs, msg.actionName, e.action)
    && |msg.matches| == |e.matches| && |msg.params| == |e.params|
    && (forall i :: 0 <= i < |e.matches| ==> MatchAt(bs, msg.matches[i], e.matches[i], false))
    && (forall j :: 0 <= j < |e.params| ==> ParamAt(bs, msg.params[j], e.params[j], false))
  }

  lemma {:induction false} WalksMatches(bs: seq<byte>, e: Entry, n: nat)
    requires FitsEntry(e) && IsEntry(bs, e, Converted(true, 0, 0), false) && n <= |e.matches|
    ensures var w := WalkMatches(bs, ENTRY_SIZE, n);
            && w.Walk? && w.addresses == Layout(e.matches)[..n] && w.next == Layout(e.matches)[n]
            && IsEntry(w.bytes, e, Converted(true, n, 0), false)
  {
    hide IsEntry, FitsEntry, Layout, SwappedMatch, SizeOfType, MatchSize;
    if n > 0 {
      WalksMatches(bs, e, n - 1);
      var w := WalkMatches(bs, ENTRY_SIZE, n - 1);
      MatchConverted(w.bytes, e, Converted(true, n - 1, 0), false);
    }
  }

  lemma {:induction false} WalksParams(bs: seq<byte>, e: Entry, start: nat, n: nat)
    requires start == ParamOffset(e.matches, 0)
    requires FitsEntry(e) && IsEntry(bs, e, Converted(true, |e.matches|, 0), false) && n <= |e.params|
    ensures var w := WalkParams(bs, start, n);
            && w.Walk? && w.next == ParamOffset(e.matches, n)
            && (forall j :: 0 <= j < n ==> w.addresses[j] == ParamOffset(e.matches, j))
            && IsEntry(w.bytes, e, Converted(true, |e.matches|, n), false)
  {
    hide IsEntry, FitsEntry, Layout, IsLayout, SwappedParam, MatchesEnd;
    if n > 0 {
      WalksParams(bs, e, start, n - 1);
      var w := WalkParams(bs, start, n - 1);
      ParamConverted(w.bytes, e, Converted(true, |e.matches|, n - 1), w.next, false);
    }
  }

  /** A built entry with at most ten matches and ten parameters is delivered and described exactly;
      with more it is rejected. It never leads outside the buffer. */
  lemma RoundTrip(bs: seq<byte>, length: nat, e: Entry)
    requires FitsEntry(e) && IsEntry(bs, e, All(e), true) && EntryLength(e) <= length <= |bs|
    ensures var r := HandleP4Msg(bs, length);
            if |e.matches| > MAX_PARTS then r.1 == Rejected(-1)
            else if |e.params| > MAX_PARTS then r.1 == Rejected(-2)
            else r.1.Delivered? && Describes(r.0, r.1.msg, e) && IsEntry(r.0, e, All(e), false)
  {
    ConvertedBack(bs, e, true);
    HeaderConverted(bs, e, false);
    var h := SwappedHeader(bs);
    assert HandleP4Msg(bs, length) == AddTableEntry(h);
    DecodesEntry(h, e);
  }

  lemma DecodesEntry(h: seq<byte>, e: Entry)
    requires FitsEntry(e) && IsEntry(h, e, Converted(true, 0, 0), false)
    ensures var r := AddTableEntry(h);
            if |e.matches| > MAX_PARTS then r.1 == Rejected(-1)
            else if |e.params| > MAX_PARTS then r.1 == Rejected(-2)
            else r.1.Delivered? && Describes(r.0, r.1.msg, e) && IsEntry(r.0, e, All(e), false)
  {
    hide Layout, IsLayout, FitsEntry, WalkMatches, WalkParams, IsEntry, AddTableEntry, Describes;
    EntryFields(h, e, Converted(true, 0, 0));
    WalksMatches(h, e, |e.matches|);
    var w := WalkMatches(h, ENTRY_SIZE, |e.matches|);
    EntryFields(w.bytes, e, Converted(true, |e.matches|, 0));
    WalksParams(w.bytes, e, w.next + ACTION_SIZE, |e.params|);
    var v := WalkParams(w.bytes, w.next + ACTION_SIZE, |e.params|);
    FollowsWalks(h, e.xid, |e.matches|, |e.params|, w, v);
    if |e.matches| <= MAX_PARTS && |e.params| <= MAX_PARTS {
      PartsDescribed(v.bytes, AddTableEntry(h).1.msg, e);
    }
  }

  lemma EntryFields(bs: seq<byte>, e: Entry, c: Converted)
    requires IsEntry(bs, e, c, false) && c.header
    ensures ENTRY_SIZE <= |bs| && MatchesEnd(e.matches) + ACTION_SIZE <= |bs|
    ensures bs[1] == ADD_TABLE_ENTRY && bs[136] as nat == |e.matches| && U32(bs[4..8], false) == e.xid
    ensures bs[MatchesEnd(e.matches)] == 0 && bs[MatchesEnd(e.matches) + 129] as nat == |e.params|
  {
    hide Layout, IsLayout, MatchesHold, ParamsHold;
  }

  lemma FollowsWalks(h: seq<byte>, xid: nat, n: nat, m: nat, w: Walk, v: Walk)
    requires ENTRY_SIZE <= |h| && h[1] == ADD_TABLE_ENTRY && h[136] as nat == n && U32(h[4..8], false) == xid
    requires w == WalkMatches(h, ENTRY_SIZE, n) && w.Walk? && w.next + ACTION_SIZE <= |h|
    requires w.bytes[w.next] == 0 && w.bytes[w.next + 129] as nat == m
    requires v == WalkParams(w.bytes, w.next + ACTION_SIZE, m) && v.Walk?
    ensures var msg := CtrlMsg(ADD_TABLE_ENTRY, xid, 8, w.addresses, 0, w.next + 1, v.addresses);
            AddTableEntry(h) == if n > MAX_PARTS then (h, Rejected(-1))
                                else if m > MAX_PARTS then (w.bytes, Rejected(-2))
                                else (v.bytes, Delivered(msg))
  {
    hide WalkMatches, WalkParams, U32;
  }

  lemma PartsDescribed(bs: seq<byte>, msg: CtrlMsg, e: Entry)
    requires IsEntry(bs, e, All(e), false)
    requires msg.kind == ADD_TABLE_ENTRY && msg.xid == e.xid && msg.actionType == 0
    requires msg.tableName == 8 && msg.actionName == MatchesEnd(e.matches) + 1
    requires msg.matches == Layout(e.matches)[..|e.matches|] && |msg.params| == |e.params|
    requires forall j :: 0 <= j < |e.params| ==> msg.params[j] == ParamOffset(e.matches, j)
    ensures Describes(bs, msg, e)
  {
    hide Layout, IsLayout, MatchAt, ParamAt, NameAt, ParamOffset;
  }

  // ----- names -----

  /** The string a reader finds at an address. */
  function NameFrom(bs: seq<byte>, off: nat): seq<byte> {
    if off + NAME_LEN <= |bs| then CString(bs[off..off + NAME_LEN]) else []
  }

  lemma NameReadsBack(bs: seq<byte>, off: nat, name: seq<byte>)
    requires NameAt(bs, off, name)
    ensures NameFrom(bs, off) == name
  {
    NameIsCString(bs[off..off + NAME_LEN], name);
  }

  /** strcmp on the delivered addresses sees the names of the entry, whole. */
  lemma NamesReadBack(bs: seq<byte>, msg: CtrlMsg, e: Entry)
    requires Describes(bs, msg, e)
    ensures NameFrom(bs, msg.tableName) == e.table && NameFrom(bs, msg.actionName) == e.action
    ensures forall i :: 0 <= i < |e.matches| ==> NameFrom(bs, msg.matches[i]) == e.matches[i].name
    ensures forall j :: 0 <= j < |e.params| ==> NameFrom(bs, msg.params[j]) == e.params[j].name
  {
    hide NameAt, NameFrom;
    NameReadsBack(bs, msg.tableName, e.table);
    NameReadsBack(bs, msg.actionName, e.action);
    forall i | 0 <= i < |e.matches| ensures NameFrom(bs, msg.matches[i]) == e.matches[i].name {
      assert MatchAt(bs, msg.matches[i], e.matches[i], false);
      NameReadsBack(bs, msg.matches[i], e.matches[i].name);
    }
    forall j | 0 <= j < |e.params| ensures NameFrom(bs, msg.params[j]) == e.params[j].name {
      assert ParamAt(bs, msg.params[j], e.params[j], false);
      NameReadsBack(bs, msg.params[j], e.params[j].name);
    }
  }

  // ----- when a message leads out of the buffer -----

  /** Where n matches from off on end, by their type codes alone; nothing when one of them has no
      room for its fixed part. */
  function SkipMatches(bs: seq<byte>, off: nat, n: nat): Option<nat> {
    if n == 0 then Some(off) else
      match SkipMatches(bs, off, n - 1)
      case None => None
      case Some(at) => if at + 132 > |bs| then None else Some(at + SizeOfType(bs[at + 128]))
  }

  /** n parameters from off on have room for their fixed parts. */
  predicate ParamsFit(bs: seq<byte>, off: nat, n: nat) {
    n > 0 ==> off + PARAM_SIZE * (n - 1) + 132 <= |bs|
  }

  /** The counts and type codes of an add-entry message reach behind the buffer. */
  predicate EntryReachesOut(bs: seq<byte>) {
    ENTRY_SIZE > |bs| ||
    (bs[136] as nat <= MAX_PARTS &&
     match SkipMatches(bs, ENTRY_SIZE, bs[136] as nat)
     case None => true
     case Some(action) =>
       action + ACTION_SIZE > |bs| ||
       (bs[action + 129] as nat <= MAX_PARTS && !ParamsFit(bs, action + ACTION_SIZE, bs[action + 129] as nat)))
  }

  predicate DefaultReachesOut(bs: seq<byte>) {
    DEFAULT_SIZE > |bs| || (bs[265] as nat <= MAX_PARTS && !ParamsFit(bs, DEFAULT_SIZE, bs[265] as nat))
  }

  lemma {:induction false} WalkParamsOutside(bs: seq<byte>, off: nat, n: nat)
    ensures WalkParams(bs, off, n).Outside? <==> !ParamsFit(bs, off, n)
    ensures WalkParams(bs, off, n).Walk? ==> WalkParams(bs, off, n).next == off + PARAM_SIZE * n
  {
    hide SwappedParam;
    if n > 0 {
      WalkParamsOutside(bs, off, n - 1);
    }
  }

  /** Swapping lengths on the way does not change where the matches lie, nor anything behind them. */
  lemma {:induction false} WalkMatchesSkips(bs: seq<byte>, off: nat, n: nat)
    ensures WalkMatches(bs, off, n).Outside? <==> SkipMatches(bs, off, n) == None
    ensures var w := WalkMatches(bs, off, n);
            w.Walk? ==>
              SkipMatches(bs, off, n) == Some(w.next) && forall i :: w.next <= i < |bs| ==> w.bytes[i] == bs[i]
  {
    hide SwappedMatch, SizeOfType;
    if n > 0 {
      WalkMatchesSkips(bs, off, n - 1);
      var w := WalkMatches(bs, off, n - 1);
      if w.Walk? && w.next + 132 <= |bs| {
        SwapStaysInMatch(w.bytes, w.next);
      }
    }
  }

  lemma SwapStaysInMatch(bs: seq<byte>, off: nat)
    requires off + 132 <= |bs|
    ensures forall i :: off + SizeOfType(bs[off + 128]) <= i < |bs| ==> SwappedMatch(bs, off)[i] == bs[i]
  {
  }

  lemma EntryOverrunsIff(h: seq<byte>)
    requires |h| >= HEADER_SIZE
    ensures AddTableEntry(h).1.Overrun? <==> EntryReachesOut(h)
  {
    if ENTRY_SIZE <= |h| {
      hide WalkMatches, WalkParams, SkipMatches, ParamsFit, U32;
      WalkMatchesSkips(h, ENTRY_SIZE, h[136] as nat);
      var w := WalkMatches(h, ENTRY_SIZE, h[136] as nat);
      if w.Walk? && w.next + ACTION_SIZE <= |h| {
        WalkParamsOutside(w.bytes, w.next + ACTION_SIZE, w.bytes[w.next + 129] as nat);
        ParamsFitBySize(w.bytes, h, w.next + ACTION_SIZE, w.bytes[w.next + 129] as nat);
      }
    }
  }

  lemma ParamsFitBySize(bs: seq<byte>, bs': seq<byte>, off: nat, n: nat)
    requires |bs| == |bs'|
    ensures ParamsFit(bs, off, n) == ParamsFit(bs', off, n)
  {
  }

  lemma DefaultOverrunsIff(h: seq<byte>)
    requires |h| >= HEADER_SIZE
    ensures SetDefaultAction(h).1.Overrun? <==> DefaultReachesOut(h)
  {
    if DEFAULT_SIZE <= |h| {
      hide WalkParams, ParamsFit, U32;
      WalkParamsOutside(h, DEFAULT_SIZE, h[265] as nat);
    }
  }

  lemma {:induction false} SkipsAlike(bs: seq<byte>, bs': seq<byte>, off: nat, n: nat)
    requires |bs| == |bs'| && forall i :: off <= i < |bs| ==> bs'[i] == bs[i]
    ensures SkipMatches(bs', off, n) == SkipMatches(bs, off, n)
    ensures SkipMatches(bs, off, n).Some? ==> SkipMatches(bs, off, n).value >= off
  {
    if n > 0 {
      SkipsAlike(bs, bs', off, n - 1);
    }
  }

  /** The header's bytes play no part in it. */
  lemma BodiesReachAlike(bs: seq<byte>, bs': seq<byte>)
    requires |bs| == |bs'| && forall i :: HEADER_SIZE <= i < |bs| ==> bs'[i] == bs[i]
    ensures EntryReachesOut(bs') == EntryReachesOut(bs) && DefaultReachesOut(bs') == DefaultReachesOut(bs)
  {
    if ENTRY_SIZE <= |bs| {
      SkipsAlike(bs, bs', ENTRY_SIZE, bs[136] as nat);
    }
  }

  /** The decoder leaves the buffer exactly when the header's length is accepted and the counts and
      type codes of its message reach behind the end. */
  lemma HandleOverrunsIff(bs: seq<byte>, length: nat)
    requires length <= |bs|
    ensures HandleP4Msg(bs, length).1.Overrun? <==>
      && HEADER_SIZE <= length && U16(bs[2..4], true) <= length
      && ((bs[1] == SET_DEFAULT_ACTION && DefaultReachesOut(bs)) || (bs[1] == ADD_TABLE_ENTRY && EntryReachesOut(bs)))
  {
    if HEADER_SIZE <= length {
      var h := SwappedHeader(bs);
      assert U16(h[2..4], false) == U16(bs[2..4], true);
      assert h[1] == bs[1] && forall i :: HEADER_SIZE <= i < |bs| ==> h[i] == bs[i];
      BodiesReachAlike(bs, h);
      hide SwappedHeader, AddTableEntry, SetDefaultAction, EntryReachesOut, DefaultReachesOut, U16;
      EntryOverrunsIff(h);
      DefaultOverrunsIff(h);
    }
  }

  /** The header announces no more than the valid bytes. */
  predicate HeaderAccepted(bs: seq<byte>, length: nat)
    requires length <= |bs|
  {
    HEADER_SIZE <= length && U16(bs[2..4], true) <= length
  }

  /** The error code, or zero for a message that is delivered, of one that stays inside the buffer, by
      its length, type and counts alone. */
  function CodeOf(bs: seq<byte>, length: nat): int
    requires length <= |bs|
  {
    if !HeaderAccepted(bs, length) then -1
    else if bs[1] == SET_DEFAULT_ACTION then
      if DEFAULT_SIZE <= |bs| && bs[265] as nat > MAX_PARTS then -1 else 0
    else if bs[1] == ADD_TABLE_ENTRY then
      if ENTRY_SIZE > |bs| then 0
      else if bs[136] as nat > MAX_PARTS then -1
      else
        match SkipMatches(bs, ENTRY_SIZE, bs[136] as nat)
        case None => 0
        case Some(action) =>
          if action + ACTION_SIZE <= |bs| && bs[action + 129] as nat > MAX_PARTS then -2 else 0
    else -100
  }

  lemma EntryOutcome(h: seq<byte>)
    requires ENTRY_SIZE <= |h| && !EntryReachesOut(h)
    ensures var r, n := AddTableEntry(h).1, h[136] as nat;
            if n > MAX_PARTS then r == Rejected(-1)
            else if h[SkipMatches(h, ENTRY_SIZE, n).value + 129] as nat > MAX_PARTS then r == Rejected(-2)
            else r.Delivered?
  {
    hide WalkMatches, WalkParams, SkipMatches, ParamsFit, U32;
    WalkMatchesSkips(h, ENTRY_SIZE, h[136] as nat);
    EntryOverrunsIff(h);
  }

  lemma SameCode(bs: seq<byte>, h: seq<byte>, length: nat)
    requires HEADER_SIZE <= length <= |bs| && h == SwappedHeader(bs)
    ensures |h| == |bs| && h[1] == bs[1] && U16(h[2..4], false) == U16(bs[2..4], true)
    ensures forall i :: HEADER_SIZE <= i < |bs| ==> h[i] == bs[i]
    ensures ENTRY_SIZE <= |bs| ==>
      SkipMatches(h, ENTRY_SIZE, bs[136] as nat) == SkipMatches(bs, ENTRY_SIZE, bs[136] as nat)
    ensures EntryReachesOut(h) == EntryReachesOut(bs) && DefaultReachesOut(h) == DefaultReachesOut(bs)
  {
    BodiesReachAlike(bs, h);
    if ENTRY_SIZE <= |bs| {
      SkipsAlike(bs, h, ENTRY_SIZE, bs[136] as nat);
    }
  }

  /** Every message that stays inside the buffer is delivered or rejected with its code. */
  lemma HandleOutcome(bs: seq<byte>, length: nat)
    requires length <= |bs|
    ensures var r := HandleP4Msg(bs, length).1;
            r.Overrun? || (if CodeOf(bs, length) == 0 then r.Delivered? else r == Rejected(CodeOf(bs, length)))
  {
    HandleOverrunsIff(bs, length);
    if HeaderAccepted(bs, length) {
      var h := SwappedHeader(bs);
      SameCode(bs, h, length);
      hide SwappedHeader, SkipMatches, EntryReachesOut, DefaultReachesOut, AddTableEntry, U16;
      if bs[1] == ADD_TABLE_ENTRY && !EntryReachesOut(bs) {
        EntryHasRoom(h);
        EntryOutcome(h);
      }
    }
  }

  lemma EntryHasRoom(h: seq<byte>)
    requires !EntryReachesOut(h)
    ensures ENTRY_SIZE <= |h|
    ensures h[136] as nat <= MAX_PARTS ==>
      && SkipMatches(h, ENTRY_SIZE, h[136] as nat).Some?
      && SkipMatches(h, ENTRY_SIZE, h[136] as nat).value + ACTION_SIZE <= |h|
  {
  }
}

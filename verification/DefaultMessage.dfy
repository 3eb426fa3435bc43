/** The message that sets the default action of a table: how the controller builds it and what the
    switch's decoder makes of it. */
module DefaultMessages {
  import opened Basics
  import opened Messages
  import opened MessageBuilder
  import opened MessageHandlers

  /** What a SET_DEFAULT_ACTION message says. */
  datatype Default = Default(xid: nat, table: seq<byte>, action: seq<byte>, params: seq<Param>)

  ghost predicate FitsDefault(d: Default) {
    && d.xid < 0x1_0000_0000
    && |d.table| < NAME_LEN && 0 !in d.table && |d.action| < NAME_LEN && 0 !in d.action && FitParams(d.params)
  }

  /** Address of parameter j, behind the structure with its padding. */
  function DefaultParam(j: nat): nat {
    DEFAULT_SIZE + PARAM_SIZE * j
  }

  /** The buffer holds d: the header in network order when `header` holds, of the parameters the first
      k in order net and the others in the other. */
  ghost predicate IsDefault(bs: seq<byte>, d: Default, header: bool, k: nat, net: bool) {
    && DefaultParam(|d.params|) <= |bs|
    && HeaderAt(bs, SET_DEFAULT_ACTION, DefaultParam(|d.params|), d.xid, header)
    && NameAt(bs, 8, d.table) && ActionAt(bs, 136, d.action, |d.params|)
    && forall j :: 0 <= j < |d.params| ==> ParamAt(bs, DefaultParam(j), d.params[j], (j < k) == net)
  }

  // ----- building it -----

  method CreateSetDefaultAction(buf: array<byte>, maxlength: nat) returns (ok: bool)
    requires maxlength <= buf.Length
    modifies buf
    ensures ok == (DEFAULT_SIZE < maxlength)
    ensures !ok ==> buf[..] == old(buf[..])
    ensures ok ==> forall length, xid :: HeaderAt(old(buf[..]), 0, length, xid, false) ==>
                     HeaderAt(buf[..], SET_DEFAULT_ACTION, DEFAULT_SIZE, xid, false)
    ensures ok ==> NameAt(buf[..], 8, []) && ActionAt(buf[..], 136, [], 0)
  {
    ok := DEFAULT_SIZE < maxlength;
    if ok {
      ghost var b0 := buf[..];
      PutU16(buf, 2, DEFAULT_SIZE);
      ghost var b1 := buf[..];
      buf[1] := SET_DEFAULT_ACTION;
      buf[8], buf[136], buf[137], buf[265] := 0, 0, 0, 0;
      AgreeingSlices(b1, buf[..], 2, 8, 2, 4);
      AgreeingSlices(b0, buf[..], 4, 8, 4, 8);
    }
  }

  /** The header, the structure and the two names. */
  method StartDefault(buf: array<byte>, maxlength: nat, table: seq<byte>, action: seq<byte>) returns (ok: bool)
    requires maxlength <= buf.Length && FitsDefault(Default(0, table, action, []))
    modifies buf
    ensures ok == (DEFAULT_SIZE < maxlength)
    ensures ok ==> IsDefault(buf[..], Default(0, table, action, []), false, 0, true)
  {
    ok := CreateP4Header(buf, maxlength);
    if ok {
      ok := CreateSetDefaultAction(buf, maxlength);
    }
    if ok {
      ghost var b0 := buf[..];
      StrCpy(buf, 8, table);
      ghost var b1 := buf[..];
      StrCpy(buf, 137, action);
      NamesAreIn(b0, b1, buf[..], table, action);
    }
  }

  method AddDefaultParam(buf: array<byte>, maxlength: nat, ghost d: Default, p: Param) returns (ok: bool)
    requires maxlength < 0x1_0000 && maxlength <= buf.Length && FitParams(d.params) && FitsParam(p)
    requires IsDefault(buf[..], d, false, 0, true)
    modifies buf
    ensures ok == (DefaultParam(|d.params| + 1) <= maxlength)
    ensures ok ==> IsDefault(buf[..], d.(params := d.params + [p]), false, 0, true)
  {
    hide FitParams, FitsParam, ActionAt, NameAt, ParamAt;
    ghost var b0 := buf[..];
    var off;
    ok, off := AddActionParameter(buf, maxlength, 136);
    if ok {
      ghost var b1 := buf[..];
      hide Grown, IsDefault;
      FillParam(buf, off, p);
      DefaultGrows(b0, b1, buf[..], d, p);
    }
  }

  method AddDefaultParams(buf: array<byte>, maxlength: nat, ghost d: Default, ps: seq<Param>) returns (ok: bool)
    requires maxlength < 0x1_0000 && maxlength <= buf.Length && FitParams(ps)
    requires IsDefault(buf[..], d.(params := []), false, 0, true) && DEFAULT_SIZE <= maxlength
    modifies buf
    ensures ok == (DefaultParam(|ps|) <= maxlength)
    ensures ok ==> IsDefault(buf[..], d.(params := ps), false, 0, true)
  {
    hide IsDefault, FitsParam;
    ok := true;
    for j := 0 to |ps|
      invariant IsDefault(buf[..], d.(params := ps[..j]), false, 0, true) && DefaultParam(j) <= maxlength
    {
      assert ps[..j] + [ps[j]] == ps[..j + 1];
      ok := AddDefaultParam(buf, maxlength, d.(params := ps[..j]), ps[j]);
      if !ok {
        return;
      }
    }
    assert ps[..|ps|] == ps;
  }

  /** Everything a controller does to make the message d, whose xid stays as create_p4_header sets it;
      false when it does not fit. */
  method BuildDefault(buf: array<byte>, maxlength: nat, d: Default) returns (ok: bool)
    requires maxlength < 0x1_0000 && maxlength <= buf.Length && FitsDefault(d) && d.xid == 0
    modifies buf
    ensures ok == (DEFAULT_SIZE < maxlength && DefaultParam(|d.params|) <= maxlength)
    ensures ok ==> IsDefault(buf[..], d, true, |d.params|, true)
  {
    hide IsDefault;
    ok := StartDefault(buf, maxlength, d.table, d.action);
    if ok {
      assert Default(0, d.table, d.action, []) == d.(params := []);
      ok := AddDefaultParams(buf, maxlength, d, d.params);
    }
    if ok {
      NetconvDefault(buf, d);
    }
  }

  /** netconv of the header and of every parameter. */
  method NetconvDefault(buf: array<byte>, d: Default)
    requires FitParams(d.params) && IsDefault(buf[..], d, false, 0, true)
    modifies buf
    ensures IsDefault(buf[..], d, true, |d.params|, true)
  {
    assert HEADER_SIZE <= buf.Length;
    hide IsDefault, FitParams, SwappedHeader, SwappedParam;
    HeaderSwapped(buf[..], d, false, 0, true);
    NetconvHeader(buf);
    for j := 0 to |d.params|
      invariant IsDefault(buf[..], d, true, j, true)
    {
      ParamSwapped(buf[..], d, true, j, true);
      NetconvParam(buf, DefaultParam(j));
    }
  }

  /** A parameter more; its 8-bit count does not wrap below a 16-bit length. */
  lemma DefaultGrows(b0: seq<byte>, b1: seq<byte>, b2: seq<byte>, d: Default, p: Param)
    requires FitParams(d.params) && IsDefault(b0, d, false, 0, true) && DefaultParam(|d.params| + 1) < 0x1_0000
    requires Grown(b0, b1, DefaultParam(|d.params|), DefaultParam(|d.params| + 1), 265, 1)
    requires ParamAt(b2, DefaultParam(|d.params|), p, false)
    requires Untouched(b1, b2, DefaultParam(|d.params|), DefaultParam(|d.params| + 1))
    ensures IsDefault(b2, d.(params := d.params + [p]), false, 0, true)
  {
    var n := |d.params|;
    DefaultHeadGrows(b0, b1, b2, d);
    assert Agree(b0, b2, DEFAULT_SIZE, DefaultParam(n));
    hide Grown, Untouched, HeaderAt, NameAt, ActionAt, ParamAt, FitsParam;
    forall j | 0 <= j < n ensures ParamAt(b2, DefaultParam(j), d.params[j], false) {
      AgreeWithin(b0, b2, DEFAULT_SIZE, DefaultParam(n), DefaultParam(j), DefaultParam(j) + PARAM_SIZE);
      ParamKept(b0, b2, DefaultParam(j), d.params[j], false);
    }
  }

  lemma DefaultHeadGrows(b0: seq<byte>, b1: seq<byte>, b2: seq<byte>, d: Default)
    requires IsDefault(b0, d, false, 0, true) && DefaultParam(|d.params| + 1) < 0x1_0000
    requires Grown(b0, b1, DefaultParam(|d.params|), DefaultParam(|d.params| + 1), 265, 1)
    requires Untouched(b1, b2, DefaultParam(|d.params|), DefaultParam(|d.params| + 1))
    ensures HeaderAt(b2, SET_DEFAULT_ACTION, DefaultParam(|d.params| + 1), d.xid, false)
    ensures NameAt(b2, 8, d.table) && ActionAt(b2, 136, d.action, |d.params| + 1)
  {
    hide ParamAt;
    AgreeingSlices(b1, b2, 0, DEFAULT_SIZE, 2, 4);
    assert Agree(b0, b2, 4, 265);
    AgreeingSlices(b0, b2, 4, 265, 4, 8);
    AgreeingSlices(b0, b2, 4, 265, 8, 136);
    AgreeingSlices(b0, b2, 4, 265, 137, 265);
  }

  lemma NamesAreIn(b0: seq<byte>, b1: seq<byte>, b2: seq<byte>, table: seq<byte>, action: seq<byte>)
    requires DEFAULT_SIZE <= |b0| && HeaderAt(b0, SET_DEFAULT_ACTION, DEFAULT_SIZE, 0, false)
      && ActionAt(b0, 136, [], 0)
    requires NameAt(b1, 8, table) && Untouched(b0, b1, 8, 136)
    requires NameAt(b2, 137, action) && Untouched(b1, b2, 137, 265)
    ensures IsDefault(b2, Default(0, table, action, []), false, 0, true)
  {
    AgreeingSlices(b0, b2, 0, 8, 2, 4);
    AgreeingSlices(b0, b2, 0, 8, 4, 8);
    AgreeingSlices(b1, b2, 8, 136, 8, 136);
  }

  // ----- decoding it -----

  lemma PreambleSwapped(bs: seq<byte>, length: nat, xid: nat, table: seq<byte>, header: bool)
    requires DEFAULT_SIZE <= |bs| && HeaderAt(bs, SET_DEFAULT_ACTION, length, xid, header) && NameAt(bs, 8, table)
    ensures HeaderAt(SwappedHeader(bs), SET_DEFAULT_ACTION, length, xid, !header) && NameAt(SwappedHeader(bs), 8, table)
    ensures |SwappedHeader(bs)| == |bs| && Agree(bs, SwappedHeader(bs), 136, |bs|)
  {
    var b1 := Swapped16(bs, 2);
    var b2 := Swapped32(b1, 4);
    hide U16, U32, HoldsName;
    AgreeingSlices(bs, b1, 4, 8, 4, 8);
    AgreeingSlices(b1, b2, 2, 4, 2, 4);
    AgreeingSlices(bs, b2, 8, 136, 8, 136);
  }

  /** Converting the header keeps the rest of the message. */
  lemma HeaderSwapped(bs: seq<byte>, d: Default, header: bool, k: nat, net: bool)
    requires FitParams(d.params) && IsDefault(bs, d, header, k, net)
    ensures IsDefault(SwappedHeader(bs), d, !header, k, net)
  {
    hide Agree, HeaderAt, NameAt, ParamAt, SwappedHeader, FitsParam;
    var b2 := SwappedHeader(bs);
    assert DEFAULT_SIZE <= |bs|;
    PreambleSwapped(bs, DefaultParam(|d.params|), d.xid, d.table, header);
    AgreeWithin(bs, b2, 136, |bs|, 136, 136 + ACTION_SIZE);
    ActionKept(bs, b2, 136, d.action, |d.params|);
    hide ActionAt;
    forall j | 0 <= j < |d.params| ensures ParamAt(b2, DefaultParam(j), d.params[j], (j < k) == net) {
      AgreeWithin(bs, b2, 136, |bs|, DefaultParam(j), DefaultParam(j) + PARAM_SIZE);
      ParamKept(bs, b2, DefaultParam(j), d.params[j], (j < k) == net);
    }
  }

  /** Converting one parameter more. */
  lemma ParamSwapped(bs: seq<byte>, d: Default, header: bool, k: nat, net: bool)
    requires FitParams(d.params) && IsDefault(bs, d, header, k, net) && k < |d.params|
    ensures DefaultParam(k) + 132 <= |bs|
    ensures IsDefault(SwappedParam(bs, DefaultParam(k)), d, header, k + 1, net)
  {
    var off := DefaultParam(k);
    var bs' := SwappedParam(bs, off);
    SwapsParamLength(bs, off, d.params[k], net);
    hide Agree, Untouched, HeaderAt, NameAt, ParamAt, ActionAt, HoldsName, SwappedParam, FitsParam;
    AgreeOutside(bs, bs', off + 128, off + 132, 0, DEFAULT_SIZE);
    FrontStays(bs, bs', d, header);
    forall j | 0 <= j < |d.params| ensures ParamAt(bs', DefaultParam(j), d.params[j], (j < k + 1) == net) {
      if j != k {
        AgreeOutside(bs, bs', off + 128, off + 132, DefaultParam(j), DefaultParam(j) + PARAM_SIZE);
        ParamKept(bs, bs', DefaultParam(j), d.params[j], (j < k) == net);
      }
    }
  }

  lemma FrontStays(bs: seq<byte>, bs': seq<byte>, d: Default, header: bool)
    requires Agree(bs, bs', 0, DEFAULT_SIZE)
    requires HeaderAt(bs, SET_DEFAULT_ACTION, DefaultParam(|d.params|), d.xid, header)
    requires NameAt(bs, 8, d.table) && ActionAt(bs, 136, d.action, |d.params|)
    ensures HeaderAt(bs', SET_DEFAULT_ACTION, DefaultParam(|d.params|), d.xid, header)
    ensures NameAt(bs', 8, d.table) && ActionAt(bs', 136, d.action, |d.params|)
  {
    AgreeWithin(bs, bs', 0, DEFAULT_SIZE, 0, 8);
    AgreeWithin(bs, bs', 0, DEFAULT_SIZE, 136, 266);
    HeaderKept(bs, bs', SET_DEFAULT_ACTION, DefaultParam(|d.params|), d.xid, header);
    ActionKept(bs, bs', 136, d.action, |d.params|);
    AgreeingSlices(bs, bs', 0, DEFAULT_SIZE, 8, 136);
  }

  lemma {:induction false} WalksDefault(bs: seq<byte>, d: Default, n: nat)
    requires FitParams(d.params) && IsDefault(bs, d, false, 0, false) && n <= |d.params|
    ensures var w := WalkParams(bs, DEFAULT_SIZE, n);
            && w.Walk? && w.next == DefaultParam(n)
            && (forall j :: 0 <= j < n ==> w.addresses[j] == DefaultParam(j))
            && IsDefault(w.bytes, d, false, n, false)
  {
    hide IsDefault, FitParams, SwappedParam;
    if n > 0 {
      WalksDefault(bs, d, n - 1);
      ParamSwapped(WalkParams(bs, DEFAULT_SIZE, n - 1).bytes, d, false, n - 1, false);
    }
  }

  /** The addresses in a delivered message point at the parts of d, all in host order. */
  ghost predicate DescribesDefault(bs: seq<byte>, msg: CtrlMsg, d: Default) {
    && msg.kind == SET_DEFAULT_ACTION && msg.xid == d.xid && msg.actionType == 0 && msg.matches == []
    && NameAt(bs, msg.tableName, d.table) && NameAt(bs, msg.actionName, d.action)
    && |msg.params| == |d.params|
    && forall j :: 0 <= j < |d.params| ==> ParamAt(bs, msg.params[j], d.params[j], false)
  }

  /** A message with at most ten parameters is delivered and described exactly; with more it is
      rejected. It never leads outside the buffer. */
  lemma DefaultRoundTrip(bs: seq<byte>, length: nat, d: Default)
    requires FitsDefault(d) && IsDefault(bs, d, true, |d.params|, true) && DefaultParam(|d.params|) <= length <= |bs|
    ensures var r := HandleP4Msg(bs, length);
            if |d.params| > MAX_PARTS then r.1 == Rejected(-1)
            else r.1.Delivered? && DescribesDefault(r.0, r.1.msg, d)
  {
    ConvertedOther(bs, d);
    HeaderSwapped(bs, d, true, 0, false);
    var h := SwappedHeader(bs);
    hide FitParams, FitsParam, ParamAt, SwappedHeader, WalkParams;
    assert HandleP4Msg(bs, length) == SetDefaultAction(h);
    WalksDefault(h, d, |d.params|);
    DecodesDefault(h, d, WalkParams(h, DEFAULT_SIZE, |d.params|));
  }

  lemma ConvertedOther(bs: seq<byte>, d: Default)
    requires IsDefault(bs, d, true, |d.params|, true)
    ensures IsDefault(bs, d, true, 0, false)
  {
    hide HeaderAt, NameAt, ActionAt, ParamAt;
  }

  lemma DecodesDefault(h: seq<byte>, d: Default, w: Walk)
    requires IsDefault(h, d, false, 0, false) && w == WalkParams(h, DEFAULT_SIZE, |d.params|) && w.Walk?
    requires forall j :: 0 <= j < |d.params| ==> w.addresses[j] == DefaultParam(j)
    requires IsDefault(w.bytes, d, false, |d.params|, false)
    ensures var r := SetDefaultAction(h);
            if |d.params| > MAX_PARTS then r.1 == Rejected(-1)
            else r.1.Delivered? && DescribesDefault(r.0, r.1.msg, d)
  {
    hide WalkParams, NameAt, ParamAt;
    assert h[265] as nat == |d.params| && h[136] == 0;
  }

  /** strcmp on the delivered addresses sees the names of table, action and parameters. */
  lemma DefaultNamesReadBack(bs: seq<byte>, msg: CtrlMsg, d: Default)
    requires DescribesDefault(bs, msg, d)
    ensures NameFrom(bs, msg.tableName) == d.table && NameFrom(bs, msg.actionName) == d.action
    ensures forall j :: 0 <= j < |d.params| ==> NameFrom(bs, msg.params[j]) == d.params[j].name
  {
    hide NameAt, NameFrom;
    NameReadsBack(bs, msg.tableName, d.table);
    NameReadsBack(bs, msg.actionName, d.action);
    forall j | 0 <= j < |d.params| ensures NameFrom(bs, msg.params[j]) == d.params[j].name {
      assert ParamAt(bs, msg.params[j], d.params[j], false);
      NameReadsBack(bs, msg.params[j], d.params[j].name);
    }
  }
}

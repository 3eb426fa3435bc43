/** When the stored key and the lookup key are the same bytes. */
module KeyAgreement {
  import opened Words
  import opened FieldMacros
  import opened HeaderRecord
  import opened TableKeys

  const ONE_BYTE: Byte := [true, false, false, false, false, false, false, false]

  /** Byte-aligned fields of whole bytes. */
  ghost predicate ByteFields(parts: seq<Part>) {
    forall k :: 0 <= k < |parts| ==>
      parts[k].d.bitOffset == 0 && parts[k].d.bitWidth % 8 == 0 && parts[k].d.bitWidth > 0
  }

  /** The bytes the controller sends for a packet's fields, in sorted order. */
  function Fields(mem: Memory, parts: seq<Part>): (r: seq<Memory>)
    requires AllReadable(mem, parts)
    ensures |r| == |parts|
  {
    if parts == [] then [] else Fields(mem, parts[..|parts| - 1]) + [FieldBytes(mem, parts[|parts| - 1].d)]
  }

  function ControlForward(mem: Memory, parts: seq<Part>): Memory
    requires AllReadable(mem, parts)
  {
    Concat(Fields(mem, parts))
  }

  lemma ControlForwardStep(mem: Memory, parts: seq<Part>)
    requires AllReadable(mem, parts) && parts != []
    ensures var n := |parts| - 1;
            ControlForward(mem, parts) == ControlForward(mem, parts[..n]) + FieldBytes(mem, parts[n].d)
  {
    var n := |parts| - 1;
    assert Fields(mem, parts)[..n] == Fields(mem, parts[..n]);
  }

  // ----- one field -----

  lemma ExtractedByte(mem: Memory, d: FieldDesc, b: nat, t: nat)
    requires Readable(mem, d) && d.bitOffset == 0 && d.bitWidth % 8 == 0 && 0 < d.bitWidth <= 32 && b < 4 && t < 8
    ensures ReadField(HostBits, mem, d)[8 * b + t] == (b < d.bitWidth / 8 && mem[d.byteAddr + b][t])
  {
    var k := 8 * b + t;
    hide ReadField, Place;
    ReadFieldAt(HostBits, mem, d, k);
    if k < d.bitWidth {
      AlignedPlace(d, k);
      assert Flip(k) == 8 * b + 7 - t;
      assert (8 * d.byteAddr + Flip(k)) / 8 == d.byteAddr + b && (8 * d.byteAddr + Flip(k)) % 8 == 7 - t;
    }
  }

  lemma AlignedPlace(d: FieldDesc, k: nat)
    requires d.Narrow() && d.bitOffset == 0 && d.bitWidth % 8 == 0 && k < d.bitWidth
    ensures Place(HostBits, d, k) == k
  {
  }

  /** A field of up to 32 bits takes four bytes, its own and zeros; a longer one just its own. */
  lemma ExtractedIs(mem: Memory, d: FieldDesc)
    requires Readable(mem, d) && d.bitOffset == 0 && d.bitWidth % 8 == 0 && 0 < d.bitWidth
    ensures Extracted(mem, d)
            == FieldBytes(mem, d) + if d.bitWidth < 32 then seq(4 - d.bitWidth / 8, _ => ZERO_BYTE) else []
  {
    hide ReadField, WordBytes;
    if d.bitWidth <= 32 {
      StoredByte(mem, d, 0);
      StoredByte(mem, d, 1);
      StoredByte(mem, d, 2);
      StoredByte(mem, d, 3);
      var bytes := WordBytes(ReadField(HostBits, mem, d));
      ByteByByte(bytes, FieldBytes(mem, d), d.bitWidth / 8);
    }
  }

  lemma ByteByByte(bytes: Memory, f: Memory, n: nat)
    requires |bytes| == 4 && |f| == n <= 4
    requires forall b :: 0 <= b < 4 ==> bytes[b] == if b < n then f[b] else ZERO_BYTE
    ensures bytes == f + seq(4 - n, _ => ZERO_BYTE)
  {
  }

  lemma StoredByte(mem: Memory, d: FieldDesc, b: nat)
    requires Readable(mem, d) && d.bitOffset == 0 && d.bitWidth % 8 == 0 && 0 < d.bitWidth <= 32 && b < 4
    ensures WordBytes(ReadField(HostBits, mem, d))[b] == if b < d.bitWidth / 8 then mem[d.byteAddr + b] else ZERO_BYTE
  {
    hide ReadField;
    var w := ReadField(HostBits, mem, d);
    var expected := if b < d.bitWidth / 8 then mem[d.byteAddr + b] else ZERO_BYTE;
    forall k: nat | 8 * b <= k < 8 * b + 8 ensures w[k] == expected[k - 8 * b] {
      ExtractedByte(mem, d, b, k - 8 * b);
    }
    assert w[8 * b..8 * b + 8] == expected;
  }

  // ----- all fields -----

  ghost predicate Wide(parts: seq<Part>, n: nat) {
    forall k :: 0 <= k < n && k < |parts| ==> parts[k].d.bitWidth >= 32
  }

  lemma {:induction false} Lengths(mem: Memory, parts: seq<Part>)
    requires AllReadable(mem, parts) && ByteFields(parts)
    ensures 8 * |ControlForward(mem, parts)| == Widths(parts)
      && |DataForward(mem, parts)| >= |ControlForward(mem, parts)| >= |parts|
  {
    if parts != [] {
      var n := |parts| - 1;
      Lengths(mem, parts[..n]);
      ControlForwardStep(mem, parts);
      ExtractedIs(mem, parts[n].d);
    }
  }

  lemma {:induction false} WideForward(mem: Memory, parts: seq<Part>)
    requires AllReadable(mem, parts) && ByteFields(parts) && Wide(parts, |parts|)
    ensures DataForward(mem, parts) == ControlForward(mem, parts)
  {
    if parts != [] {
      var n := |parts| - 1;
      WideForward(mem, parts[..n]);
      ControlForwardStep(mem, parts);
      ExtractedIs(mem, parts[n].d);
    }
  }

  lemma {:induction false} Prefixes(mem: Memory, parts: seq<Part>, k: nat)
    requires AllReadable(mem, parts) && k <= |parts|
    ensures DataForward(mem, parts[..k]) <= DataForward(mem, parts)
    ensures ControlForward(mem, parts[..k]) <= ControlForward(mem, parts)
    decreases |parts|
  {
    if k < |parts| {
      assert parts[..|parts| - 1][..k] == parts[..k];
      Prefixes(mem, parts[..|parts| - 1], k);
      ControlForwardStep(mem, parts);
    } else {
      assert parts[..k] == parts;
    }
  }

  /** The last field's part of each key, the earlier fields' part before it. */
  lemma LastStep(mem: Memory, parts: seq<Part>, k: nat)
    requires AllReadable(mem, parts) && ByteFields(parts) && k < |parts|
    ensures ControlForward(mem, parts[..k + 1]) == ControlForward(mem, parts[..k]) + FieldBytes(mem, parts[k].d)
    ensures DataForward(mem, parts[..k + 1])
            == DataForward(mem, parts[..k])
               + (FieldBytes(mem, parts[k].d)
                  + if parts[k].d.bitWidth < 32 then seq(4 - parts[k].d.bitWidth / 8, _ => ZERO_BYTE) else [])
  {
    hide Extracted, FieldBytes, ControlForward;
    assert parts[..k + 1][..k] == parts[..k];
    ControlForwardStep(mem, parts[..k + 1]);
    ExtractedIs(mem, parts[k].d);
  }

  /** The first `bytes` bytes of both keys, which the tables compare. */
  ghost predicate SameKey(mem: Memory, parts: seq<Part>, lpm: bool, bytes: nat, before: Memory, before': Memory)
    requires AllReadable(mem, parts)
  {
    && bytes == |ControlForward(mem, parts)| <= |DataForward(mem, parts)| <= |before| && bytes <= |before'|
    && Finished(DataForward(mem, parts), before, lpm, bytes)[..bytes]
      == Finished(ControlForward(mem, parts), before', lpm, bytes)[..bytes]
  }

  function KeyPrefix(forward: Memory, lpm: bool, n: nat): Memory
    requires n <= |forward|
  {
    if lpm then (forward[..|forward| - n] + Reversed(forward[|forward| - n..]))[..n] else forward[..n]
  }

  lemma SameKeyIs(mem: Memory, parts: seq<Part>, lpm: bool, bytes: nat, before: Memory, before': Memory)
    requires AllReadable(mem, parts) && ByteFields(parts) && 8 * bytes == Widths(parts)
    requires |DataForward(mem, parts)| <= |before| && bytes <= |before'|
    ensures var d, c := DataForward(mem, parts), ControlForward(mem, parts);
            && bytes == |c| <= |d|
            && (SameKey(mem, parts, lpm, bytes, before, before') <==>
              KeyPrefix(d, lpm, bytes) == if lpm then Reversed(c) else c)
  {
    Lengths(mem, parts);
    hide DataForward, ControlForward, Reversed, Widths, Finished, AllReadable, ByteFields, KeyPrefix;
    FinishedPrefix(DataForward(mem, parts), before, lpm, bytes);
    FinishedWhole(ControlForward(mem, parts), before', lpm, bytes);
  }

  lemma FinishedPrefix(d: Memory, before: Memory, lpm: bool, n: nat)
    requires n <= |d| <= |before|
    ensures Finished(d, before, lpm, n)[..n] == KeyPrefix(d, lpm, n)
  {
    hide Reversed;
  }

  lemma FinishedWhole(c: Memory, before: Memory, lpm: bool, n: nat)
    requires n == |c| <= |before|
    ensures Finished(c, before, lpm, n)[..n] == if lpm then Reversed(c) else c
  {
    hide Reversed;
    assert c[|c| - n..] == c;
  }

  // ----- exact tables -----

  /** All fields but the last at least 32 bits wide: then the keys agree. */
  lemma ExactKeysAgree(mem: Memory, parts: seq<Part>)
    requires AllReadable(mem, parts) && ByteFields(parts) && parts != [] && Wide(parts, |parts| - 1)
    ensures ControlForward(mem, parts) <= DataForward(mem, parts)
  {
    var n := |parts| - 1;
    WideForward(mem, parts[..n]);
    ControlForwardStep(mem, parts);
    ExtractedIs(mem, parts[n].d);
  }

  /** The first narrow field before another one leaves a zero where the next field belongs. */
  lemma ExactKeysDiffer(mem: Memory, parts: seq<Part>, i: nat)
    requires AllReadable(mem, parts) && ByteFields(parts) && i + 1 < |parts| && Wide(parts, i)
      && parts[i].d.bitWidth < 32
    requires mem[parts[i + 1].d.byteAddr] == ONE_BYTE
    ensures var d, c := DataForward(mem, parts), ControlForward(mem, parts); |c| <= |d| && d[..|c|] != c
  {
    hide DataForward, ControlForward, ByteFields, Wide;
    Prefixes(mem, parts, i + 1);
    Prefixes(mem, parts, i + 2);
    Lengths(mem, parts);
    var p := GapAfter(mem, parts, i);
    hide AllReadable;
    DifferInside(DataForward(mem, parts), ControlForward(mem, parts), DataForward(mem, parts[..i + 1]),
      ControlForward(mem, parts[..i + 2]), p);
  }

  lemma DifferInside(d: Memory, c: Memory, d0: Memory, c0: Memory, p: nat)
    requires |c| <= |d| && d0 <= d && c0 <= c && p < |d0| && p < |c0| && d0[p] != c0[p]
    ensures d[..|c|] != c
  {
    assert d[p] == d0[p] && c[p] == c0[p] && d[..|c|][p] == d[p];
  }

  lemma GapAfter(mem: Memory, parts: seq<Part>, i: nat) returns (p: nat)
    requires AllReadable(mem, parts) && ByteFields(parts) && i + 1 < |parts| && Wide(parts, i)
      && parts[i].d.bitWidth < 32
    requires mem[parts[i + 1].d.byteAddr] == ONE_BYTE
    ensures p < |ControlForward(mem, parts[..i + 2])| && ControlForward(mem, parts[..i + 2])[p] == ONE_BYTE
    ensures p < |DataForward(mem, parts[..i + 1])| && DataForward(mem, parts[..i + 1])[p] == ZERO_BYTE
  {
    hide ControlForward, DataForward, FieldBytes;
    WideForward(mem, parts[..i]);
    LastStep(mem, parts, i);
    LastStep(mem, parts, i + 1);
    EndsOf(mem, parts[i + 1].d);
    p := |ControlForward(mem, parts[..i + 1])|;
  }

  // ----- LPM tables -----

  /** With a narrow field the key pointer goes back too little: the first byte is not the reversed one. */
  lemma LpmKeysDiffer(mem: Memory, parts: seq<Part>)
    requires AllReadable(mem, parts) && ByteFields(parts) && parts != [] && !Wide(parts, |parts|)
    requires FirstByte(mem, parts) != LastByte(mem, parts)
    ensures var d, c := DataForward(mem, parts), ControlForward(mem, parts);
            var s := |d| - |c|;
            s > 0 && |c| > 0 && (d[..s] + Reversed(d[s..]))[0] != Reversed(c)[0]
  {
    NarrowGrows(mem, parts);
    Ends(mem, parts);
    Lengths(mem, parts);
  }

  function FirstByte(mem: Memory, parts: seq<Part>): Byte
    requires AllReadable(mem, parts) && ByteFields(parts) && parts != []
  {
    mem[parts[0].d.byteAddr]
  }

  function LastByte(mem: Memory, parts: seq<Part>): Byte
    requires AllReadable(mem, parts) && ByteFields(parts) && parts != []
  {
    var d := parts[|parts| - 1].d;
    mem[d.byteAddr + d.bitWidth / 8 - 1]
  }

  lemma {:induction false} NarrowGrows(mem: Memory, parts: seq<Part>)
    requires AllReadable(mem, parts) && ByteFields(parts)
    ensures !Wide(parts, |parts|) ==> |DataForward(mem, parts)| > |ControlForward(mem, parts)|
  {
    if parts != [] {
      var n := |parts| - 1;
      NarrowGrows(mem, parts[..n]);
      Lengths(mem, parts[..n]);
      assert parts[..n + 1] == parts;
      hide ControlForward, DataForward, FieldBytes;
      LastStep(mem, parts, n);
      assert Wide(parts, |parts|) <==> Wide(parts[..n], n) && parts[n].d.bitWidth >= 32;
    }
  }

  lemma Ends(mem: Memory, parts: seq<Part>)
    requires AllReadable(mem, parts) && ByteFields(parts) && parts != []
    ensures var d, c := DataForward(mem, parts), ControlForward(mem, parts);
            |d| > 0 && |c| > 0 && d[0] == FirstByte(mem, parts) && c[|c| - 1] == LastByte(mem, parts)
  {
    hide ControlForward, DataForward, FieldBytes;
    FirstOfData(mem, parts);
    LastOfControl(mem, parts, |parts| - 1);
  }

  lemma LastOfControl(mem: Memory, parts: seq<Part>, n: nat)
    requires AllReadable(mem, parts) && ByteFields(parts) && n + 1 == |parts|
    ensures var c, d := ControlForward(mem, parts), parts[n].d;
            |c| > 0 && c[|c| - 1] == mem[d.byteAddr + d.bitWidth / 8 - 1]
  {
    hide ControlForward, FieldBytes;
    ControlForwardStep(mem, parts);
    EndsOf(mem, parts[n].d);
    LastOfConcat(ControlForward(mem, parts[..n]), FieldBytes(mem, parts[n].d));
  }

  lemma LastOfConcat(s: Memory, f: Memory)
    requires |f| > 0
    ensures (s + f)[|s + f| - 1] == f[|f| - 1]
  {
  }

  lemma FirstOfData(mem: Memory, parts: seq<Part>)
    requires AllReadable(mem, parts) && ByteFields(parts) && parts != []
    ensures |DataForward(mem, parts)| > 0 && DataForward(mem, parts)[0] == mem[parts[0].d.byteAddr]
  {
    assert parts[..0] == [] && DataForward(mem, parts[..0]) == [];
    hide ControlForward, DataForward, FieldBytes;
    LastStep(mem, parts, 0);
    Prefixes(mem, parts, 1);
    EndsOf(mem, parts[0].d);
    var f := FieldBytes(mem, parts[0].d);
    assert DataForward(mem, parts[..1])[0] == f[0];
  }

  lemma EndsOf(mem: Memory, d: FieldDesc)
    requires d.byteAddr + (d.bitWidth + 7) / 8 <= |mem| && d.bitWidth > 0 && d.bitWidth % 8 == 0
    ensures var f := FieldBytes(mem, d);
            |f| > 0 && f[0] == mem[d.byteAddr] && f[|f| - 1] == mem[d.byteAddr + d.bitWidth / 8 - 1]
  {
  }

  // ----- exactly when the keys agree -----

  /** Fields do not overlap in the packet. */
  ghost predicate Separate(parts: seq<Part>) {
    forall i, j :: 0 <= i < j < |parts| ==>
      var d, e := parts[i].d, parts[j].d;
      d.byteAddr + d.bitWidth / 8 <= e.byteAddr || e.byteAddr + e.bitWidth / 8 <= d.byteAddr
  }

  ghost predicate AlwaysSameKey(parts: seq<Part>, lpm: bool, bytes: nat) {
    forall mem, before, before' | AllReadable(mem, parts) && |DataForward(mem, parts)| <= |before|
      && bytes <= |before'| ::
      SameKey(mem, parts, lpm, bytes, before, before')
  }

  /** The fields before the last must fill whole words of the data plane's key; in an LPM table
      the last one too, unless the whole key is a single byte. */
  ghost predicate KeysFit(parts: seq<Part>, lpm: bool)
    requires parts != []
  {
    if lpm then Wide(parts, |parts|) || Widths(parts) == 8 else Wide(parts, |parts| - 1)
  }

  /** Memory of the given size with one special byte among others. */
  function Pattern(size: nat, at: nat, there: Byte, elsewhere: Byte): (mem: Memory)
    ensures |mem| == size
  {
    seq(size, i => if i == at then there else elsewhere)
  }

  function Reach(parts: seq<Part>): nat {
    if parts == [] then 0 else
      var d := parts[|parts| - 1].d;
      Reach(parts[..|parts| - 1]) + d.byteAddr + d.bitWidth + 4
  }

  lemma {:induction false} ReachIsEnough(mem: Memory, parts: seq<Part>)
    requires ByteFields(parts) && |mem| >= Reach(parts)
    ensures AllReadable(mem, parts)
  {
    if parts != [] {
      ReachIsEnough(mem, parts[..|parts| - 1]);
    }
  }

  /** For byte-aligned fields of whole bytes the stored key and the lookup key agree for every
      packet exactly when KeysFit holds. */
  lemma KeysAgreeIff(parts: seq<Part>, lpm: bool, bytes: nat)
    requires ByteFields(parts) && Separate(parts) && parts != [] && 8 * bytes == Widths(parts)
    ensures AlwaysSameKey(parts, lpm, bytes) <==> KeysFit(parts, lpm)
  {
    if KeysFit(parts, lpm) {
      forall mem, before, before' | AllReadable(mem, parts) && |DataForward(mem, parts)| <= |before|
        && bytes <= |before'|
        ensures SameKey(mem, parts, lpm, bytes, before, before')
      {
        FittingKeysAgree(mem, parts, lpm, bytes, before, before');
      }
    } else if lpm {
      LpmCounterexample(parts, bytes);
    } else {
      ExactCounterexample(parts, bytes);
    }
  }

  lemma FittingKeysAgree(mem: Memory, parts: seq<Part>, lpm: bool, bytes: nat, before: Memory, before': Memory)
    requires ByteFields(parts) && parts != [] && 8 * bytes == Widths(parts) && KeysFit(parts, lpm)
    requires AllReadable(mem, parts) && |DataForward(mem, parts)| <= |before| && bytes <= |before'|
    ensures SameKey(mem, parts, lpm, bytes, before, before')
  {
    SameKeyIs(mem, parts, lpm, bytes, before, before');
    hide SameKey;
    if !lpm {
      ExactKeysAgree(mem, parts);
    } else if Wide(parts, |parts|) {
      WideForward(mem, parts);
      var c := ControlForward(mem, parts);
      assert c[..0] + Reversed(c[0..]) == Reversed(c) by { assert c[0..] == c; }
    } else {
      SingleByte(mem, parts);
    }
  }

  /** A key of one byte is its own reverse, wherever the pointer stands. */
  lemma SingleByte(mem: Memory, parts: seq<Part>)
    requires AllReadable(mem, parts) && ByteFields(parts) && parts != [] && Widths(parts) == 8
    ensures var d, c := DataForward(mem, parts), ControlForward(mem, parts);
            |c| == 1 < |d| && KeyPrefix(d, true, 1) == Reversed(c)
  {
    Lengths(mem, parts);
    assert |parts| == 1;
    OneWidth(parts[0]);
    assert parts == [parts[0]];
    hide DataForward, ControlForward;
    NarrowGrows(mem, parts);
    Ends(mem, parts);
    FirstByteStays(DataForward(mem, parts), ControlForward(mem, parts));
  }

  lemma FirstByteStays(d: Memory, c: Memory)
    requires |c| == 1 < |d| && d[0] == c[0]
    ensures KeyPrefix(d, true, 1) == Reversed(c)
  {
  }

  lemma LpmCounterexample(parts: seq<Part>, bytes: nat)
    requires ByteFields(parts) && Separate(parts) && parts != [] && 8 * bytes == Widths(parts) && !KeysFit(parts, true)
    ensures !AlwaysSameKey(parts, true, bytes)
  {
    var first, last := parts[0].d, parts[|parts| - 1].d;
    var mem := Pattern(Reach(parts), first.byteAddr, ONE_BYTE, ZERO_BYTE);
    ReachIsEnough(mem, parts);
    EndsApart(parts);
    LpmKeysDiffer(mem, parts);
    hide DataForward, ControlForward, AllReadable, ByteFields, Separate, AlwaysSameKey, Wide, Widths, Reach, Pattern;
    Differ(mem, parts, true, bytes);
  }

  /** In a key of several bytes the first and the last byte are different bytes of the packet. */
  lemma EndsApart(parts: seq<Part>)
    requires ByteFields(parts) && Separate(parts) && parts != [] && Widths(parts) != 8
    ensures parts[0].d.byteAddr != parts[|parts| - 1].d.byteAddr + parts[|parts| - 1].d.bitWidth / 8 - 1
  {
    if |parts| == 1 {
      assert parts[..0] == [] && Widths(parts) == Widths([]) + parts[0].d.bitWidth;
    }
  }

  lemma ExactCounterexample(parts: seq<Part>, bytes: nat)
    requires ByteFields(parts) && parts != [] && 8 * bytes == Widths(parts) && !Wide(parts, |parts| - 1)
    ensures !AlwaysSameKey(parts, false, bytes)
  {
    var mem := Pattern(Reach(parts), 0, ONE_BYTE, ONE_BYTE);
    ReachIsEnough(mem, parts);
    var i := FirstNarrow(parts, |parts| - 1);
    ExactKeysDiffer(mem, parts, i);
    Differ(mem, parts, false, bytes);
  }

  lemma {:induction false} FirstNarrow(parts: seq<Part>, n: nat) returns (i: nat)
    requires n <= |parts| && !Wide(parts, n)
    ensures i < n && Wide(parts, i) && parts[i].d.bitWidth < 32
  {
    if Wide(parts, n - 1) {
      i := n - 1;
    } else {
      i := FirstNarrow(parts, n - 1);
    }
  }

  lemma Differ(mem: Memory, parts: seq<Part>, lpm: bool, bytes: nat)
    requires AllReadable(mem, parts) && ByteFields(parts) && 8 * bytes == Widths(parts)
    requires var d, c := DataForward(mem, parts), ControlForward(mem, parts);
             |c| <= |d| && if lpm then |c| > 0 && |d| > |c|
               && (d[..|d| - |c|] + Reversed(d[|d| - |c|..]))[0] != Reversed(c)[0]
                           else d[..|c|] != c
    ensures !AlwaysSameKey(parts, lpm, bytes)
  {
    var d, c := DataForward(mem, parts), ControlForward(mem, parts);
    Lengths(mem, parts);
    SameKeyIs(mem, parts, lpm, bytes, d, d);
    hide SameKey, DataForward, ControlForward;
    if lpm {
      var x := d[..|d| - |c|] + Reversed(d[|d| - |c|..]);
      assert x[..|c|][0] == x[0];
    }
    assert !SameKey(mem, parts, lpm, bytes, d, d);
  }

  // ----- the tables of a program -----

  lemma {:induction false} WidthsConcat(a: seq<Part>, b: seq<Part>)
    ensures Widths(a + b) == Widths(a) + Widths(b)
  {
    if b == [] {
      assert a + b == a;
    } else {
      assert (a + b)[..|a + b| - 1] == a + b[..|b| - 1];
      WidthsConcat(a, b[..|b| - 1]);
    }
  }

  /** Sorting does not change the key's length. */
  lemma {:induction false} SortedWidths(parts: seq<Part>)
    ensures Widths(Sorted(parts)) == Widths(parts)
    ensures Widths(Sorted(parts))
            == Widths(OfType(parts, Exact)) + Widths(OfType(parts, Lpm)) + Widths(OfType(parts, Ternary))
  {
    WidthsConcat(OfType(parts, Exact), OfType(parts, Lpm));
    WidthsConcat(OfType(parts, Exact) + OfType(parts, Lpm), OfType(parts, Ternary));
    if parts != [] {
      var p, rest := parts[0], parts[1..];
      SortedWidths(rest);
      assert parts == [p] + rest;
      WidthsConcat([p], rest);
      OfTypeWidths(parts, Exact);
      OfTypeWidths(parts, Lpm);
      OfTypeWidths(parts, Ternary);
      OneWidth(p);
    }
  }

  lemma OneWidth(p: Part)
    ensures Widths([p]) == p.d.bitWidth
  {
    assert [p][..0] == [];
  }

  lemma OfTypeWidths(parts: seq<Part>, m: MatchType)
    requires parts != []
    ensures Widths(OfType(parts, m))
            == (if parts[0].match_ == m then parts[0].d.bitWidth else 0) + Widths(OfType(parts[1..], m))
  {
    var rest := OfType(parts[1..], m);
    OneWidth(parts[0]);
    WidthsConcat([parts[0]], rest);
    assert [] + rest == rest;
  }

  /** The key of a table as getTypeAndLength sizes it: the bytes both sides compare, without the
      prefix length of an LPM key, agree for every packet exactly when KeysFit holds. */
  lemma TableKeysAgreeIff(parts: seq<Part>)
    requires TypeOf(parts) != LookupTernary && Sorted(parts) != [] && ByteFields(Sorted(parts))
      && Separate(Sorted(parts))
    ensures var lpm := TypeOf(parts) == LookupLpm;
            var bytes := if lpm then KeyLength(parts) - 1 else KeyLength(parts);
            8 * bytes == Widths(Sorted(parts)) && (AlwaysSameKey(Sorted(parts), lpm, bytes) <==>
              KeysFit(Sorted(parts), lpm))
  {
    SortedWidths(parts);
    var sorted := Sorted(parts);
    WholeBytes(sorted);
    var lpm := TypeOf(parts) == LookupLpm;
    hide Sorted, TypeOf, Widths, AlwaysSameKey, KeysFit, ByteFields, Separate;
    KeysAgreeIff(sorted, lpm, if lpm then KeyLength(parts) - 1 else KeyLength(parts));
  }

  lemma {:induction false} WholeBytes(parts: seq<Part>)
    requires ByteFields(parts)
    ensures Widths(parts) % 8 == 0
  {
    if parts != [] {
      WholeBytes(parts[..|parts| - 1]);
    }
  }
}

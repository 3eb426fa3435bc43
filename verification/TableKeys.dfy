/** The key the data plane builds for a lookup and the key the control plane stores. */
module TableKeys {
  import opened Words
  import opened FieldMacros
  import opened HeaderRecord

  datatype MatchType = Exact | Lpm | Ternary

  /** A match field of a table and where the packet holds it. */
  datatype Part = Part(match_: MatchType, d: FieldDesc)

  // ----- getTypeAndLength -----

  datatype TableType = LookupExact | LookupLpm | LookupTernary

  function Widths(parts: seq<Part>): nat {
    if parts == [] then 0 else Widths(parts[..|parts| - 1]) + parts[|parts| - 1].d.bitWidth
  }

  function LpmCount(parts: seq<Part>): nat {
    if parts == [] then 0 else LpmCount(parts[..|parts| - 1]) + if parts[|parts| - 1].match_ == Lpm then 1 else 0
  }

  function TypeOf(parts: seq<Part>): TableType {
    if (exists p :: p in parts && p.match_ == Ternary) || LpmCount(parts) > 1 then LookupTernary
    else if LpmCount(parts) == 1 then LookupLpm else LookupExact
  }

  predicate AnyOf(parts: seq<Part>, m: MatchType) {
    exists i :: 0 <= i < |parts| && parts[i].match_ == m
  }

  predicate TwoOf(parts: seq<Part>, m: MatchType) {
    exists i, j :: 0 <= i < j < |parts| && parts[i].match_ == m && parts[j].match_ == m
  }

  lemma {:induction false} LpmCountIs(parts: seq<Part>)
    ensures LpmCount(parts) > 0 <==> AnyOf(parts, Lpm)
    ensures LpmCount(parts) > 1 <==> TwoOf(parts, Lpm)
  {
    if parts != [] {
      var n := |parts| - 1;
      var front := parts[..n];
      LpmCountIs(front);
      if AnyOf(front, Lpm) {
        var i :| 0 <= i < n && front[i].match_ == Lpm;
        assert parts[i].match_ == Lpm;
        assert parts[n].match_ == Lpm ==> TwoOf(parts, Lpm);
      }
      if TwoOf(front, Lpm) {
        var i, j :| 0 <= i < j < n && front[i].match_ == Lpm && front[j].match_ == Lpm;
        assert parts[i].match_ == Lpm && parts[j].match_ == Lpm;
      }
      if AnyOf(parts, Lpm) && parts[n].match_ != Lpm {
        var i :| 0 <= i < n && parts[i].match_ == Lpm;
        assert front[i].match_ == Lpm;
      }
      if TwoOf(parts, Lpm) {
        var i, j :| 0 <= i < j <= n && parts[i].match_ == Lpm && parts[j].match_ == Lpm;
        assert front[i].match_ == Lpm;
        assert j < n ==> front[j].match_ == Lpm;
      }
    }
  }

  /** A ternary field or a second LPM field makes a ternary table, one LPM field alone an LPM table,
      and exact fields only an exact one. */
  lemma TypeIs(parts: seq<Part>)
    ensures TypeOf(parts) == LookupTernary <==> AnyOf(parts, Ternary) || TwoOf(parts, Lpm)
    ensures TypeOf(parts) == LookupLpm <==> AnyOf(parts, Lpm) && !TwoOf(parts, Lpm) && !AnyOf(parts, Ternary)
    ensures TypeOf(parts) == LookupExact <==> forall i :: 0 <= i < |parts| ==> parts[i].match_ == Exact
  {
    LpmCountIs(parts);
    hide LpmCount;
    if AnyOf(parts, Ternary) {
      var i :| 0 <= i < |parts| && parts[i].match_ == Ternary;
      assert parts[i] in parts;
    }
    if p :| p in parts && p.match_ == Ternary {
      var i :| 0 <= i < |parts| && parts[i] == p;
    }
    assert !AnyOf(parts, Lpm) && !AnyOf(parts, Ternary) ==>
      forall i :: 0 <= i < |parts| ==> parts[i].match_ == Exact;
  }

  /** Key bytes; an LPM key has one bit more, for the prefix length. */
  function KeyLength(parts: seq<Part>): (n: nat)
    ensures var bits := Widths(parts) + if TypeOf(parts) == LookupLpm then 1 else 0; 8 * n - 8 < bits <= 8 * n
  {
    ((if TypeOf(parts) == LookupLpm then Widths(parts) + 1 else Widths(parts)) + 7) / 8
  }

  method GetTypeAndLength(parts: seq<Part>) returns (tableType: TableType, length: nat)
    ensures tableType == TypeOf(parts) && length == KeyLength(parts)
  {
    var key_length, lpm, ternary := 0, 0, false;
    for k := 0 to |parts|
      invariant key_length == Widths(parts[..k]) && lpm == LpmCount(parts[..k])
      invariant ternary <==> exists p :: p in parts[..k] && p.match_ == Ternary
    {
      assert parts[..k + 1][..k] == parts[..k] && parts[..k + 1] == parts[..k] + [parts[k]];
      if parts[k].match_ == Ternary {
        ternary := true;
      } else if parts[k].match_ == Lpm {
        lpm := lpm + 1;
      }
      key_length := key_length + parts[k].d.bitWidth;
    }
    assert parts[..|parts|] == parts;
    if ternary || lpm > 1 {
      tableType := LookupTernary;
    } else if lpm > 0 {
      tableType := LookupLpm;
      key_length := key_length + 1;
    } else {
      tableType := LookupExact;
    }
    length := (key_length + 7) / 8;
  }

  /** sorted by match_type_order, a stable sort on both sides. */
  function OfType(parts: seq<Part>, m: MatchType): seq<Part> {
    if parts == [] then [] else (if parts[0].match_ == m then [parts[0]] else []) + OfType(parts[1..], m)
  }

  function Sorted(parts: seq<Part>): seq<Part> {
    OfType(parts, Exact) + OfType(parts, Lpm) + OfType(parts, Ternary)
  }

  /** match_type_order. */
  function Rank(m: MatchType): nat {
    match m
    case Exact => 0
    case Lpm => 1
    case Ternary => 2
  }

  /** fs are the fields of type m at the places `at`, in order. */
  ghost predicate PlacesOf(parts: seq<Part>, m: MatchType, at: seq<nat>, fs: seq<Part>) {
    && |at| == |fs|
    && (forall k :: 0 <= k < |at| ==> at[k] < |parts| && fs[k] == parts[at[k]] && fs[k].match_ == m)
    && (forall i, j :: 0 <= i < j < |at| ==> at[i] < at[j])
  }

  function Later(at: seq<nat>): (r: seq<nat>)
    ensures |r| == |at| && forall k :: 0 <= k < |at| ==> r[k] == at[k] + 1
  {
    seq(|at|, k requires 0 <= k < |at| => at[k] + 1)
  }

  lemma OnePlaceMore(parts: seq<Part>, m: MatchType, at: seq<nat>, fs: seq<Part>)
    requires parts != [] && PlacesOf(parts[1..], m, at, fs)
    ensures PlacesOf(parts, m, Later(at), fs)
    ensures parts[0].match_ == m ==> PlacesOf(parts, m, [0] + Later(at), [parts[0]] + fs)
  {
    hide Later;
    var at' := Later(at);
    forall k | 0 <= k < |at'| ensures at'[k] < |parts| && fs[k] == parts[at'[k]] {
      assert parts[1..][at[k]] == parts[at[k] + 1];
    }
  }

  lemma {:induction false} OfTypePlaces(parts: seq<Part>, m: MatchType) returns (at: seq<nat>)
    ensures PlacesOf(parts, m, at, OfType(parts, m))
  {
    if parts == [] {
      at := [];
    } else {
      var rest := OfTypePlaces(parts[1..], m);
      OnePlaceMore(parts, m, rest, OfType(parts[1..], m));
      hide PlacesOf, Later;
      at := if parts[0].match_ == m then [0] + Later(rest) else Later(rest);
      assert parts[0].match_ != m ==> OfType(parts, m) == OfType(parts[1..], m);
    }
  }

  lemma {:induction false} EveryTypeOnce(parts: seq<Part>)
    ensures |OfType(parts, Exact)| + |OfType(parts, Lpm)| + |OfType(parts, Ternary)| == |parts|
  {
    if parts != [] {
      EveryTypeOnce(parts[1..]);
    }
  }

  /** The field at place i comes before the one at place j. */
  predicate Before(parts: seq<Part>, i: nat, j: nat)
    requires i < |parts| && j < |parts|
  {
    Rank(parts[i].match_) < Rank(parts[j].match_) || (parts[i].match_ == parts[j].match_ && i < j)
  }

  /** The sorted fields are the fields, each at one place, by type and then in their own order. */
  lemma SortedPlaces(parts: seq<Part>) returns (at: seq<nat>)
    ensures |at| == |parts| == |Sorted(parts)|
    ensures forall k :: 0 <= k < |at| ==> at[k] < |parts| && Sorted(parts)[k] == parts[at[k]]
    ensures forall i, j :: 0 <= i < j < |at| ==> Before(parts, at[i], at[j])
  {
    var exact := OfTypePlaces(parts, Exact);
    var lpm := OfTypePlaces(parts, Lpm);
    var ternary := OfTypePlaces(parts, Ternary);
    EveryTypeOnce(parts);
    hide OfType;
    at := exact + lpm + ternary;
  }

  // ----- the two keys -----

  predicate Readable(mem: Memory, d: FieldDesc) {
    if d.bitWidth <= 32 then d.Narrow() && d.InBounds(mem) else d.byteAddr + (d.bitWidth + 7) / 8 <= |mem|
  }

  predicate AllReadable(mem: Memory, parts: seq<Part>) {
    forall k :: 0 <= k < |parts| ==> Readable(mem, parts[k].d)
  }

  /** The four bytes of a stored word. */
  function WordBytes(x: Word): (r: Memory)
    ensures |r| == 4
  {
    [x[0..8], x[8..16], x[16..24], x[24..32]]
  }

  /** What the data plane appends for a field. */
  function Extracted(mem: Memory, d: FieldDesc): Memory
    requires Readable(mem, d)
  {
    if d.bitWidth <= 32 then WordBytes(ReadField(HostBits, mem, d))
    else if d.bitWidth % 8 == 0 then mem[d.byteAddr..d.byteAddr + d.bitWidth / 8]
    else []
  }

  function DataForward(mem: Memory, parts: seq<Part>): Memory
    requires AllReadable(mem, parts)
  {
    if parts == [] then [] else
      DataForward(mem, parts[..|parts| - 1]) + Extracted(mem, parts[|parts| - 1].d)
  }

  /** The bytes of a field, which the controller sends for it. */
  function FieldBytes(mem: Memory, d: FieldDesc): (r: Memory)
    requires d.byteAddr + (d.bitWidth + 7) / 8 <= |mem|
    ensures |r| == (d.bitWidth + 7) / 8
  {
    mem[d.byteAddr..d.byteAddr + (d.bitWidth + 7) / 8]
  }

  function Concat(fields: seq<Memory>): Memory {
    if fields == [] then [] else Concat(fields[..|fields| - 1]) + fields[|fields| - 1]
  }

  function Reversed(s: Memory): (r: Memory)
    ensures |r| == |s|
  {
    seq(|s|, i requires 0 <= i < |s| => s[|s| - 1 - i])
  }

  /** The key buffer after its fields are in place: an LPM key has its last n bytes reversed. */
  function Finished(forward: Memory, before: Memory, lpm: bool, n: nat): Memory
    requires |forward| <= |before| && (lpm ==> n <= |forward|)
  {
    (if lpm then forward[..|forward| - n] + Reversed(forward[|forward| - n..]) else forward) + before[|forward|..]
  }

  // ----- building them in place -----

  /** Both reversal loops: through reverse_buffer and back. */
  method ReverseInPlace(key: array<Byte>, off: nat, n: nat)
    requires off + n <= key.Length
    modifies key
    ensures key[..] == old(key[..off]) + Reversed(old(key[off..off + n])) + old(key[off + n..])
  {
    var reverse_buffer := new Byte[n];
    ghost var before := key[..];
    var c, d := n - 1, 0;
    while c >= 0
      invariant -1 <= c <= n - 1 && d == n - 1 - c && key[..] == before
      invariant forall i :: 0 <= i < d ==> reverse_buffer[i] == before[off + n - 1 - i]
    {
      reverse_buffer[d] := key[off + c];
      c, d := c - 1, d + 1;
    }
    assert reverse_buffer[..] == Reversed(before[off..off + n]);
    CopyBytes(key, off, reverse_buffer[..]);
  }

  method CopyBytes(key: array<Byte>, off: nat, data: Memory)
    requires off + |data| <= key.Length
    modifies key
    ensures key[..] == old(key[..])[..off] + data + old(key[..])[off + |data|..]
  {
    for i := 0 to |data|
      invariant forall j :: 0 <= j < key.Length ==> key[j] == if off <= j < off + i then data[j - off] else old(key[j])
    {
      key[off + i] := data[i];
    }
    assert key[..] == old(key[..])[..off] + data + old(key[..])[off + |data|..];
  }

  /** table_<name>_key on the sorted match fields. */
  method TableKey(mem: Memory, parts: seq<Part>, lpm: bool, keyLength: nat, key: array<Byte>)
    requires AllReadable(mem, parts) && |DataForward(mem, parts)| <= key.Length
    requires lpm ==> 0 < keyLength <= |DataForward(mem, parts)| + 1
    modifies key
    ensures key[..] == Finished(DataForward(mem, parts), old(key[..]), lpm, if lpm then keyLength - 1 else 0)
  {
    hide DataForward;
    var off := ForwardKey(mem, parts, key);
    if lpm {
      ReverseInPlace(key, off - (keyLength - 1), keyLength - 1);
    }
  }

  method ForwardKey(mem: Memory, parts: seq<Part>, key: array<Byte>) returns (off: nat)
    requires AllReadable(mem, parts) && |DataForward(mem, parts)| <= key.Length
    modifies key
    ensures off == |DataForward(mem, parts)| && key[..] == DataForward(mem, parts) + old(key[off..])
  {
    ghost var before := key[..];
    off := 0;
    assert DataForward(mem, parts[..0]) == [];
    hide Extracted, DataForward, Begins;
    NothingDone(before);
    for k := 0 to |parts|
      invariant off == |DataForward(mem, parts[..k])| && Begins(key[..], DataForward(mem, parts[..k]), before)
    {
      PrefixFits(mem, parts, k + 1);
      ForwardMore(mem, parts, k);
      var bytes := Extract(mem, parts[k].d);
      AppendBytes(key, off, bytes, DataForward(mem, parts[..k]), before);
      off := off + |bytes|;
    }
    assert parts[..|parts|] == parts;
    BeginsMeans(key[..], DataForward(mem, parts), before);
  }

  lemma ForwardMore(mem: Memory, parts: seq<Part>, k: nat)
    requires k < |parts| && AllReadable(mem, parts)
    ensures AllReadable(mem, parts[..k]) && AllReadable(mem, parts[..k + 1])
    ensures DataForward(mem, parts[..k + 1]) == DataForward(mem, parts[..k]) + Extracted(mem, parts[k].d)
  {
    assert parts[..k + 1][..k] == parts[..k];
  }

  /** The key pointer goes on by a word for every narrow field, by its own bytes for a longer one. */
  lemma ExtractedLength(mem: Memory, d: FieldDesc)
    requires Readable(mem, d)
    ensures |Extracted(mem, d)|
            == if d.bitWidth <= 32 then 4 else if d.bitWidth % 8 == 0 then d.bitWidth / 8 else 0
    ensures d.bitWidth > 32 && d.bitWidth % 8 == 0 ==> Extracted(mem, d) == FieldBytes(mem, d)
  {
    hide ReadField;
  }

  /** EXTRACT_INT32_BITS into *(uint32_t*)key, or EXTRACT_BYTEBUF; other widths are ignored. */
  method Extract(mem: Memory, d: FieldDesc) returns (bytes: Memory)
    requires Readable(mem, d)
    ensures bytes == Extracted(mem, d)
  {
    if d.bitWidth <= 32 {
      var word := ReadField(HostBits, mem, d);
      bytes := [word[0..8], word[8..16], word[16..24], word[24..32]];
    } else if d.bitWidth > 32 && d.bitWidth % 8 == 0 {
      bytes := mem[d.byteAddr..d.byteAddr + d.bitWidth / 8];
    } else {
      bytes := [];
    }
  }

  lemma {:induction false} PrefixFits(mem: Memory, parts: seq<Part>, k: nat)
    requires AllReadable(mem, parts) && k <= |parts|
    ensures |DataForward(mem, parts[..k])| <= |DataForward(mem, parts)|
    decreases |parts|
  {
    if k < |parts| {
      assert parts[..|parts| - 1][..k] == parts[..k];
      PrefixFits(mem, parts[..|parts| - 1], k);
    } else {
      assert parts[..k] == parts;
    }
  }

  /** <name>_add: the fields' bytes in sorted order, reversed for an LPM table. */
  method ControlKey(fields: seq<Memory>, lpm: bool, key: array<Byte>)
    requires |Concat(fields)| <= key.Length
    modifies key
    ensures key[..] == Finished(Concat(fields), old(key[..]), lpm, |Concat(fields)|)
  {
    hide Concat;
    var k := CopyFields(fields, key);
    if lpm {
      ReverseInPlace(key, 0, k);
    }
  }

  method CopyFields(fields: seq<Memory>, key: array<Byte>) returns (k: nat)
    requires |Concat(fields)| <= key.Length
    modifies key
    ensures k == |Concat(fields)| && key[..] == Concat(fields) + old(key[k..])
  {
    ghost var before := key[..];
    k := 0;
    assert Concat(fields[..0]) == [];
    hide Concat, Begins;
    NothingDone(before);
    for i := 0 to |fields|
      invariant k == |Concat(fields[..i])| && Begins(key[..], Concat(fields[..i]), before)
    {
      ConcatMore(fields, i);
      ConcatFits(fields, i + 1);
      AppendBytes(key, k, fields[i], Concat(fields[..i]), before);
      k := k + |fields[i]|;
    }
    assert fields[..|fields|] == fields;
    BeginsMeans(key[..], Concat(fields), before);
  }

  /** The key begins with what is done and goes on as before. */
  ghost predicate Begins(key: Memory, done: Memory, before: Memory) {
    |done| <= |key| == |before| && key == done + before[|done|..]
  }

  lemma NothingDone(before: Memory)
    ensures Begins(before, [], before)
  {
  }

  lemma BeginsMeans(key: Memory, done: Memory, before: Memory)
    requires Begins(key, done, before)
    ensures |done| <= |key| == |before| && key == done + before[|done|..]
  {
  }

  /** A copy behind what is done already. */
  method AppendBytes(key: array<Byte>, off: nat, data: Memory, ghost done: Memory, ghost before: Memory)
    requires off == |done| && off + |data| <= key.Length && Begins(key[..], done, before)
    modifies key
    ensures Begins(key[..], done + data, before)
  {
    Replaced(key[..], before, done, data);
    CopyBytes(key, off, data);
  }

  lemma Replaced(whole: Memory, before: Memory, done: Memory, data: Memory)
    requires |done| + |data| <= |before| && whole == done + before[|done|..]
    ensures whole[..|done|] + data + whole[|done| + |data|..] == done + data + before[|done| + |data|..]
  {
  }

  lemma ConcatMore(fields: seq<Memory>, i: nat)
    requires i < |fields|
    ensures Concat(fields[..i + 1]) == Concat(fields[..i]) + fields[i]
  {
    assert fields[..i + 1][..i] == fields[..i];
  }

  lemma {:induction false} ConcatFits(fields: seq<Memory>, k: nat)
    requires k <= |fields|
    ensures |Concat(fields[..k])| <= |Concat(fields)|
    decreases |fields|
  {
    if k < |fields| {
      assert fields[..|fields| - 1][..k] == fields[..k];
      ConcatFits(fields[..|fields| - 1], k);
    } else {
      assert fields[..k] == fields;
    }
  }
}

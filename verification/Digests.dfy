/** Digest messages: what the data plane writes, what the learning controller reads, and which port
    it learns. */
module Digests {
  import Words
  import FieldMacros
  import HeaderRecord
  import opened Basics
  import opened Messages
  import opened MessageBuilder

  const DIGEST: byte := 110
  const DIGEST_SIZE: nat := 140
  const MAX_VALUE: nat := 32

  /** A digest field: its length in bits and its bytes. */
  datatype DigestField = DigestField(length: nat, value: seq<byte>)

  /** The bytes of a field of `length` bits. */
  function ByteLength(length: nat): (n: nat)
    requires length > 0
    ensures 8 * n - 8 < length <= 8 * n
  {
    (length - 1) / 8 + 1
  }

  predicate FitsField(f: DigestField) {
    0 < f.length < 0x1_0000_0000 && |f.value| == ByteLength(f.length) <= MAX_VALUE
  }

  /** A cell has room for eleven fields, so their 8-bit count does not wrap. */
  function FieldOffset(k: nat): nat {
    140 + 164 * k
  }

  ghost predicate FieldAt(bs: seq<byte>, off: nat, f: DigestField) {
    off + 164 <= |bs| && U32At(bs, off + 128, f.length, true) && BytesAt(bs, off + 132, f.value)
      && |f.value| <= MAX_VALUE
  }

  ghost predicate FieldsHold(bs: seq<byte>, fs: seq<DigestField>) {
    forall k :: 0 <= k < |fs| ==> FieldAt(bs, FieldOffset(k), fs[k])
  }

  /** The buffer holds a digest of these fields, its header in network order when net holds. */
  ghost predicate IsDigest(bs: seq<byte>, name: seq<byte>, fs: seq<DigestField>, net: bool) {
    && FieldOffset(|fs|) <= |bs| && HeaderAt(bs, DIGEST, FieldOffset(|fs|), 0, net)
    && NameAt(bs, 8, name) && bs[136] as nat == |fs| && FieldsHold(bs, fs)
  }

  // ----- create_digest, add_digest_field, send_digest -----

  /** create_digest on its cell; the name must fit its array. */
  method CreateDigest(buf: array<byte>, name: seq<byte>) returns (ok: bool)
    requires DIGEST_SIZE < buf.Length <= CELL_SIZE && 0 !in name
    modifies buf
    ensures ok == (|name| < NAME_LEN)
    ensures ok ==> IsDigest(buf[..], name, [], false)
  {
    var _ := CreateP4Header(buf, buf.Length);
    ghost var b0 := buf[..];
    PutU16(buf, 2, DIGEST_SIZE);
    ghost var b1 := buf[..];
    buf[1], buf[8], buf[136] := DIGEST, 0, 0;
    ghost var b2 := buf[..];
    ok := |name| < NAME_LEN;
    if ok {
      StrCpy(buf, 8, name);
      AgreeingSlices(b1, buf[..], 2, 4, 2, 4);
      AgreeingSlices(b0, buf[..], 4, 8, 4, 8);
    }
  }

  /** add_p4_digest_field, for a digest in host order. */
  method ReserveField(buf: array<byte>) returns (ok: bool, off: nat)
    requires DIGEST_SIZE <= buf.Length <= CELL_SIZE
    requires forall n: nat :: U16At(buf[..], 2, n, false) ==> n >= DIGEST_SIZE
    modifies buf
    ensures U16At(old(buf[..]), 2, off, false) && ok == (off + 164 <= buf.Length)
    ensures ok ==> Grown(old(buf[..]), buf[..], off, off + 164, 136, 1)
    ensures !ok ==> buf[..] == old(buf[..])
  {
    off := HeaderLength(buf);
    ok := off + 164 <= buf.Length;
    if ok {
      PutU16(buf, 2, off + 164);
      ghost var b1 := buf[..];
      buf[136] := Plus(buf[136], 1);
      buf[off] := 0;
      ghost var b2 := buf[..];
      PutU32(buf, off + 128, 0);
      AgreeingSlices(b1, buf[..], 2, 4, 2, 4);
    }
  }

  /** A value that is too long gives a null digest, which the next call dereferences; a field without
      room is a null field and dereferenced at once. */
  datatype Addition = Added | NullDigest | NullField

  /** add_digest_field: reserves the field, tests the length, copies the value and stores its length
      in network order. */
  method AddDigestField(buf: array<byte>, ghost name: seq<byte>, ghost fs: seq<DigestField>, f: DigestField)
    returns (r: Addition)
    requires buf.Length <= CELL_SIZE && IsDigest(buf[..], name, fs, false)
    requires 0 < f.length < 0x1_0000_0000 && |f.value| == ByteLength(f.length)
    modifies buf
    ensures r == NullDigest <==> ByteLength(f.length) > MAX_VALUE
    ensures r == NullField <==> ByteLength(f.length) <= MAX_VALUE && FieldOffset(|fs| + 1) > buf.Length
    ensures r == Added ==> IsDigest(buf[..], name, fs + [f], false)
    ensures r == NullField ==> buf[..] == old(buf[..])
  {
    ghost var b0 := buf[..];
    hide FieldsHold;
    var room, off := ReserveField(buf);
    if ByteLength(f.length) > MAX_VALUE {
      return NullDigest;
    }
    if !room {
      return NullField;
    }
    ghost var b1 := buf[..];
    hide Grown, IsDigest, HeaderAt, NameAt;
    PutField(buf, off, f);
    DigestGrows(b0, b1, buf[..], name, fs, f);
    r := Added;
  }

  method PutField(buf: array<byte>, off: nat, f: DigestField)
    requires off + 164 <= buf.Length && FitsField(f)
    modifies buf
    ensures FieldAt(buf[..], off, f) && Untouched(old(buf[..]), buf[..], off, off + 164)
  {
    ghost var b0 := buf[..];
    PutBytes(buf, off + 132, f.value);
    ghost var b1 := buf[..];
    PutU32(buf, off + 128, f.length);
    ghost var b2 := buf[..];
    hide U32At, BytesAt;
    NetconvParam(buf, off);
    FieldIsPut(b0, b1, b2, off, f);
  }

  lemma FieldIsPut(b0: seq<byte>, b1: seq<byte>, b2: seq<byte>, off: nat, f: DigestField)
    requires off + 164 <= |b0| && |f.value| <= MAX_VALUE && |b1| == |b0|
    requires BytesAt(b1, off + 132, f.value) && Untouched(b0, b1, off + 132, off + 132 + |f.value|)
    requires U32At(b2, off + 128, f.length, false) && Untouched(b1, b2, off + 128, off + 132)
    ensures FieldAt(SwappedParam(b2, off), off, f) && Untouched(b0, SwappedParam(b2, off), off, off + 164)
  {
    hide U32At;
    var b3 := SwappedParam(b2, off);
    assert U32At(b3, off + 128, f.length, true);
    AgreeingSlices(b1, b3, off + 132, off + 164, off + 132, off + 132 + |f.value|);
  }

  lemma DigestGrows(b0: seq<byte>, b1: seq<byte>, b2: seq<byte>, name: seq<byte>, fs: seq<DigestField>, f: DigestField)
    requires IsDigest(b0, name, fs, false) && FitsField(f)
    requires Grown(b0, b1, FieldOffset(|fs|), FieldOffset(|fs| + 1), 136, 1) && FieldOffset(|fs| + 1) <= CELL_SIZE
    requires FieldAt(b2, FieldOffset(|fs|), f) && Untouched(b1, b2, FieldOffset(|fs|), FieldOffset(|fs| + 1))
    ensures IsDigest(b2, name, fs + [f], false)
  {
    assert FieldOffset(|fs| + 1) <= |b2|;
    hide FieldAt;
    HeadGrows(b0, b1, b2, name, fs);
    assert Agree(b0, b2, 140, FieldOffset(|fs|));
    hide Grown, Untouched, Agree, HeaderAt, NameAt;
    forall k | 0 <= k < |fs + [f]| ensures FieldAt(b2, FieldOffset(k), (fs + [f])[k]) {
      if k < |fs| {
        FieldKept(b0, b2, FieldOffset(k), fs[k], FieldOffset(|fs|));
      }
    }
  }

  lemma HeadGrows(b0: seq<byte>, b1: seq<byte>, b2: seq<byte>, name: seq<byte>, fs: seq<DigestField>)
    requires IsDigest(b0, name, fs, false) && Agree(b1, b2, 0, FieldOffset(|fs|)) && FieldOffset(|fs| + 1) <= CELL_SIZE
    requires Grown(b0, b1, FieldOffset(|fs|), FieldOffset(|fs| + 1), 136, 1)
    ensures HeaderAt(b2, DIGEST, FieldOffset(|fs| + 1), 0, false) && NameAt(b2, 8, name) && b2[136] as nat == |fs| + 1
  {
    hide FieldsHold;
    AgreeingSlices(b1, b2, 0, FieldOffset(|fs|), 2, 4);
    AgreeingSlices(b0, b2, 4, 136, 4, 8);
    AgreeingSlices(b0, b2, 4, 136, 8, 136);
  }

  lemma FieldKept(bs: seq<byte>, bs': seq<byte>, off: nat, f: DigestField, hi: nat)
    requires FieldAt(bs, off, f) && Agree(bs, bs', 140, hi) && 140 <= off && off + 164 <= hi
    ensures FieldAt(bs', off, f)
  {
    AgreeingSlices(bs, bs', 140, hi, off + 128, off + 132);
    AgreeingSlices(bs, bs', 140, hi, off + 132, off + 132 + |f.value|);
  }

  /** send_digest: the header goes to network order. */
  method SendDigest(buf: array<byte>, ghost name: seq<byte>, ghost fs: seq<DigestField>)
    requires IsDigest(buf[..], name, fs, false)
    modifies buf
    ensures IsDigest(buf[..], name, fs, true)
  {
    ghost var b0 := buf[..];
    NetconvHeader(buf);
    HeaderSent(b0, name, fs);
  }

  lemma HeaderSent(bs: seq<byte>, name: seq<byte>, fs: seq<DigestField>)
    requires IsDigest(bs, name, fs, false)
    ensures IsDigest(SwappedHeader(bs), name, fs, true)
  {
    var b1 := Swapped16(bs, 2);
    var b2 := Swapped32(b1, 4);
    AgreeingSlices(bs, b1, 4, 8, 4, 8);
    AgreeingSlices(b1, b2, 2, 4, 2, 4);
    AgreeingSlices(bs, b2, 8, 136, 8, 136);
    assert Agree(bs, b2, 140, FieldOffset(|fs|));
    hide Agree, Untouched, FieldAt, HeaderAt, NameAt, Swapped16, Swapped32;
    forall k | 0 <= k < |fs| ensures FieldAt(b2, FieldOffset(k), fs[k]) {
      FieldKept(bs, b2, FieldOffset(k), fs[k], FieldOffset(|fs|));
    }
  }

  // ----- mac_learn_digest -----

  /** The controller's reading of a learning digest: six bytes of address and the first of the two
      bytes of the port. */
  method MacLearnDigest(buf: array<byte>) returns (mac: seq<byte>, port: byte)
    requires buf.Length >= FieldOffset(2)
    modifies buf
    ensures mac == old(buf[272..278]) && port == old(buf[436])
  {
    var offset := DIGEST_SIZE;
    NetconvParam(buf, offset);
    mac := buf[offset + 132..offset + 138];
    offset := offset + 164;
    NetconvParam(buf, offset);
    port := buf[offset + 132];
  }

  /** It reads back what the switch wrote, from any cell that got the bytes of the message. */
  lemma LearnsWhatWasSent(bs: seq<byte>, cell: seq<byte>, name: seq<byte>, mac: DigestField, port: DigestField)
    requires IsDigest(bs, name, [mac, port], true) && bs[..FieldOffset(2)] <= cell
    requires |mac.value| == 6 && |port.value| >= 1
    ensures cell[272..278] == mac.value && cell[436] == port.value[0]
  {
    assert FieldAt(bs, FieldOffset(0), mac) && FieldAt(bs, FieldOffset(1), port);
    assert bs[FieldOffset(0) + 132..FieldOffset(0) + 138] == mac.value;
    assert bs[FieldOffset(1) + 132..FieldOffset(1) + 132 + |port.value|][0] == port.value[0];
  }

  // ----- the port that is learned -----

  /** init_metadata stores the input port in host order at the start of a byte of the metadata; the
      digest carries the bytes from there and the controller takes the first. It learns the port
      modulo 256, so it learns the right port exactly for ports below 256. */
  lemma LearnedPort(mem: FieldMacros.Memory, d: FieldMacros.FieldDesc, port: nat)
    requires d.Narrow() && d.InBounds(mem) && d.bitOffset == 0 && 8 <= d.bitWidth && port < 0x1_0000_0000
    ensures var mem' := HeaderRecord.WriteField(FieldMacros.HostBits, mem, d, Words.ToWord(port));
            var learned := Words.Nat(mem'[d.byteAddr]);
            learned == port % 256 && (learned == port <==> port < 256)
  {
    var v := Words.ToWord(port);
    hide Words.Nat, Words.Pow2;
    StoredByte(mem, d, v);
    Words.NatOfPrefix(v, 8);
    Words.NatOfBits(port, 32);
    hide HeaderRecord.WriteField;
    Words.PowersOfTwo();
    Words.ModUnique(port, 0x1_0000_0000, 0, port);
  }

  lemma StoredByte(mem: FieldMacros.Memory, d: FieldMacros.FieldDesc, v: Words.Word)
    requires d.Narrow() && d.InBounds(mem) && d.bitOffset == 0 && 8 <= d.bitWidth
    ensures HeaderRecord.WriteField(FieldMacros.HostBits, mem, d, v)[d.byteAddr] == v[..8]
  {
    hide HeaderRecord.WriteField;
    var stored := HeaderRecord.WriteField(FieldMacros.HostBits, mem, d, v)[d.byteAddr];
    forall b: nat | b < 8 ensures stored[b] == v[b] {
      StoredBit(mem, d, v, b);
    }
  }

  lemma StoredBit(mem: FieldMacros.Memory, d: FieldMacros.FieldDesc, v: Words.Word, b: nat)
    requires d.Narrow() && d.InBounds(mem) && d.bitOffset == 0 && 8 <= d.bitWidth && b < 8
    ensures HeaderRecord.WriteField(FieldMacros.HostBits, mem, d, v)[d.byteAddr][b] == v[b]
  {
    hide HeaderRecord.WriteField, HeaderRecord.BitAt;
    var p := 8 * d.byteAddr + (7 - b);
    HeaderRecord.WriteFieldAt(FieldMacros.HostBits, mem, d, v, p);
    FirstBits(d, b, p);
    assert p / 8 == d.byteAddr && p % 8 == 7 - b;
  }

  lemma FirstBits(d: FieldMacros.FieldDesc, b: nat, p: nat)
    requires d.Narrow() && d.bitOffset == 0 && 8 <= d.bitWidth && b < 8 && p == 8 * d.byteAddr + (7 - b)
    ensures d.Covers(p) && HeaderRecord.BitAt(FieldMacros.HostBits, d, p) == b
  {
    assert Words.Flip(7 - b) == b;
  }
}

/** Framing of the control messages on a stream socket whose reads and writes may be partial. */
module SockHelpers {
  import opened Basics
  import opened Messages
  import opened MessageBuilder
  import opened MessageHandlers

  /** The length field of a message in network order. */
  function HeaderLen(bs: seq<byte>): nat
    requires HEADER_SIZE <= |bs|
  {
    U16(bs[2..4], true)
  }

  // ----- the bytes of a run of messages -----

  /** write_p4_msg sends a message whose length field fits the cell it lies in. */
  predicate Sendable(m: seq<byte>) {
    HEADER_SIZE <= |m| && HeaderLen(m) <= |m|
  }

  /** The bytes it sends. */
  function Frame(m: seq<byte>): seq<byte>
    requires Sendable(m)
  {
    m[..HeaderLen(m)]
  }

  function Frames(ms: seq<seq<byte>>): (r: seq<seq<byte>>)
    requires forall m :: m in ms ==> Sendable(m)
    ensures |r| == |ms|
  {
    if ms == [] then [] else [Frame(ms[0])] + Frames(ms[1..])
  }

  function Stream(fs: seq<seq<byte>>): seq<byte> {
    if fs == [] then [] else fs[0] + Stream(fs[1..])
  }

  /** What a reader with cells of `room` bytes makes of a stream that ends with the connection:
      a length field of at most the header's size reads as the end, one larger than the cell drops
      only the header. */
  function Deliveries(stream: seq<byte>, room: nat): seq<seq<byte>> {
    if |stream| < HEADER_SIZE then [] else
      var n := HeaderLen(stream);
      if n > room then Deliveries(stream[HEADER_SIZE..], room)
      else if n <= HEADER_SIZE || |stream| < n then []
      else [stream[..n]] + Deliveries(stream[n..], room)
  }

  lemma DeliveriesIs(stream: seq<byte>, room: nat)
    ensures |stream| < HEADER_SIZE ==> Deliveries(stream, room) == []
    ensures |stream| >= HEADER_SIZE ==>
      var n := HeaderLen(stream);
      && (n > room ==> Deliveries(stream, room) == Deliveries(stream[HEADER_SIZE..], room))
      && (n <= room && (n <= HEADER_SIZE || |stream| < n) ==> Deliveries(stream, room) == [])
      && (HEADER_SIZE < n <= room && n <= |stream| ==>
            Deliveries(stream, room) == [stream[..n]] + Deliveries(stream[n..], room))
  {
  }

  ghost predicate Suffix(stream: seq<byte>, rest: seq<byte>) {
    |rest| <= |stream| && rest == stream[|stream| - |rest|..]
  }

  lemma SuffixOfSuffix(a: seq<byte>, b: seq<byte>, c: seq<byte>)
    requires Suffix(a, b) && Suffix(b, c)
    ensures Suffix(a, c) && Suffix(c, c)
  {
  }

  /** A connected socket. `incoming` are the bytes the peer delivers before it closes, `outgoing`
      those it has been given; a write accepts nothing at most `stalls` times, and a read fails at
      most `faults` times. */
  class Socket {
    var incoming: seq<byte>
    var outgoing: seq<byte>
    var stalls: nat
    var faults: nat

    constructor (incoming: seq<byte>, stalls: nat, faults: nat)
      ensures this.incoming == incoming && outgoing == [] && this.stalls == stalls && this.faults == faults
    {
      this.incoming, outgoing, this.stalls, this.faults := incoming, [], stalls, faults;
    }

    /** read: an error, the end of the stream, or some of the bytes asked for. */
    method Read(buf: array<byte>, off: nat, n: nat) returns (rval: int)
      requires 0 < n && off + n <= buf.Length
      modifies this`incoming, this`faults, buf
      ensures -1 <= rval <= n && (rval == 0 ==> incoming == [])
      ensures faults == old(faults) - if rval < 0 then 1 else 0
      ensures rval <= 0 ==> incoming == old(incoming) && buf[..] == old(buf[..])
      ensures rval > 0 ==> rval <= |old(incoming)| && incoming == old(incoming)[rval..]
      ensures rval > 0 ==>
        BytesAt(buf[..], off, old(incoming)[..rval]) && Untouched(old(buf[..]), buf[..], off, off + rval)
    {
      var fails: bool := *;
      if fails && faults > 0 {
        faults := faults - 1;
        return -1;
      }
      if incoming == [] {
        return 0;
      }
      var k: int := *;
      k := if k < 1 then 1 else if k > n then n else k;
      k := if k > |incoming| then |incoming| else k;
      PutBytes(buf, off, incoming[..k]);
      incoming := incoming[k..];
      rval := k;
    }

    /** write: an error, or how many of the bytes were accepted. */
    method Write(buf: array<byte>, off: nat, n: nat) returns (wval: int)
      requires off + n <= buf.Length && 0 < n
      modifies this`outgoing, this`stalls
      ensures -1 <= wval <= n
      ensures outgoing == old(outgoing) + if wval > 0 then buf[off..off + wval] else []
      ensures stalls <= old(stalls) && (wval == 0 ==> stalls < old(stalls))
    {
      var fails: bool := *;
      if fails {
        return -1;
      }
      var k: int := *;
      k := if k < 0 then 0 else if k > n then n else k;
      if k == 0 {
        if stalls > 0 {
          stalls := stalls - 1;
        } else {
          k := 1;
        }
      }
      outgoing := outgoing + buf[off..off + k];
      wval := k;
    }

    /** read_fix. */
    method ReadFix(buf: array<byte>, off: nat, nbytes: int) returns (rv: int)
      requires off + nbytes <= buf.Length
      modifies this`incoming, this`faults, buf
      ensures Suffix(old(incoming), incoming) && faults == old(faults) - if rv < 0 then 1 else 0
      ensures rv == -1 || rv == if 0 < nbytes <= |old(incoming)| then nbytes else 0
      ensures rv > 0 ==>
        BytesAt(buf[..], off, old(incoming)[..nbytes]) && Untouched(old(buf[..]), buf[..], off, off + nbytes)
      ensures rv > 0 ==> incoming == old(incoming)[nbytes..]
      ensures nbytes <= 0 ==> incoming == old(incoming) && buf[..] == old(buf[..]) && rv == 0
    {
      if nbytes <= 0 {
        return 0;
      }
      var rbytes: nat := 0;
      while rbytes < nbytes
        invariant rbytes <= nbytes && rbytes <= |old(incoming)|
        invariant BytesAt(buf[..], off, old(incoming)[..rbytes]) && Untouched(old(buf[..]), buf[..], off, off + nbytes)
        invariant incoming == old(incoming)[rbytes..] && faults == old(faults)
      {
        ghost var before := buf[..];
        var rval := Read(buf, off + rbytes, nbytes - rbytes);
        if rval <= 0 {
          return rval;
        }
        Joined(before, buf[..], off, old(incoming), rbytes, rval);
        rbytes := rbytes + rval;
      }
      rv := rbytes;
    }

    /** write_fix. */
    method WriteFix(buf: array<byte>, nbytes: nat) returns (rv: int)
      requires nbytes <= buf.Length
      modifies this`outgoing, this`stalls
      ensures rv == -1 || rv == nbytes
      ensures rv >= 0 ==> outgoing == old(outgoing) + buf[..nbytes]
      ensures old(outgoing) <= outgoing <= old(outgoing) + buf[..nbytes]
    {
      var wbytes: nat := 0;
      while wbytes < nbytes
        invariant 0 <= wbytes <= nbytes && outgoing == old(outgoing) + buf[..wbytes]
        decreases nbytes - wbytes, stalls
      {
        var wval := Write(buf, wbytes, nbytes - wbytes);
        if wval < 0 {
          return wval;
        }
        wbytes := wbytes + wval;
      }
      rv := wbytes;
    }

    /** read_p4_msg into a cell: what it returns is what the first step of Deliveries does. */
    method ReadP4Msg(buf: array<byte>) returns (rv: int)
      requires HEADER_SIZE <= buf.Length
      modifies this`incoming, this`faults, buf
      ensures rv == -1 || rv == -100 || 0 <= rv
      ensures Suffix(old(incoming), incoming) && faults == old(faults) - if rv == -1 then 1 else 0
      ensures rv == 0 ==> Deliveries(old(incoming), buf.Length) == []
      ensures rv == -100 ==> Deliveries(old(incoming), buf.Length) == Deliveries(incoming, buf.Length)
      ensures rv > 0 ==>
        rv <= buf.Length && Deliveries(old(incoming), buf.Length) == [buf[..rv]] + Deliveries(incoming, buf.Length)
      ensures if rv == -100 || rv > 0 then |incoming| < |old(incoming)| else |incoming| <= |old(incoming)|
    {
      DeliveriesIs(incoming, buf.Length);
      hide Deliveries;
      rv := ReadFix(buf, 0, HEADER_SIZE);
      if rv <= 0 {
        return;
      }
      ghost var header := buf[..];
      var msglen := 256 * (buf[2] as nat) + buf[3] as nat;
      assert header[0..0 + HEADER_SIZE][2] == header[2] && header[0..0 + HEADER_SIZE][3] == header[3];
      assert msglen == HeaderLen(old(incoming));
      if msglen > buf.Length {
        return -100;
      }
      rv := ReadFix(buf, HEADER_SIZE, msglen - HEADER_SIZE);
      if rv <= 0 {
        return;
      }
      Joined(header, buf[..], 0, old(incoming), HEADER_SIZE, msglen - HEADER_SIZE);
      assert buf[..msglen] == buf[..][0..0 + msglen] == old(incoming)[..msglen];
      assert incoming == old(incoming)[msglen..];
      rv := msglen;
    }

    /** write_p4_msg. */
    method WriteP4Msg(buf: array<byte>) returns (rv: int)
      modifies this`outgoing, this`stalls
      ensures !Sendable(buf[..]) ==> rv == -1 && outgoing == old(outgoing)
      ensures rv >= 0 ==> Sendable(buf[..]) && outgoing == old(outgoing) + Frame(buf[..])
    {
      if buf.Length < HEADER_SIZE {
        return -1;
      }
      var msglen := 256 * (buf[2] as nat) + buf[3] as nat;
      assert buf[..][2..4] == [buf[2], buf[3]];
      if msglen > buf.Length {
        return -1;
      }
      assert buf[..][..msglen] == buf[..msglen];
      rv := WriteFix(buf, msglen);
    }
  }

  /** Bytes read behind bytes read. */
  lemma Joined(b0: seq<byte>, b1: seq<byte>, off: nat, data: seq<byte>, i: nat, n: nat)
    requires i + n <= |data| && BytesAt(b0, off, data[..i]) && BytesAt(b1, off + i, data[i..][..n])
    requires Untouched(b0, b1, off + i, off + i + n)
    ensures BytesAt(b1, off, data[..i + n])
  {
    assert b1[off..off + i + n] == b1[off..off + i] + b1[off + i..off + i + n];
    assert b1[off..off + i] == b0[off..off + i];
    assert data[..i + n] == data[..i] + data[i..][..n];
  }

  /** A stretch of the stream between two failed reads: where it starts and what was delivered. */
  datatype Stretch = Stretch(from: seq<byte>, messages: seq<seq<byte>>)

  function Delivered(stretches: seq<Stretch>): seq<seq<byte>> {
    if stretches == [] then [] else
      Delivered(stretches[..|stretches| - 1]) + stretches[|stretches| - 1].messages
  }

  /** Each stretch starts behind the one before and delivers the next messages found from there,
      the last one all of them. */
  ghost predicate Resumes(stream: seq<byte>, room: nat, stretches: seq<Stretch>) {
    && stretches != [] && stretches[0].from == stream
    && (forall i :: 0 <= i < |stretches| ==> stretches[i].messages <= Deliveries(stretches[i].from, room))
    && (forall i :: 0 < i < |stretches| ==> Suffix(stretches[i - 1].from, stretches[i].from))
    && stretches[|stretches| - 1].messages == Deliveries(stretches[|stretches| - 1].from, room)
  }

  /** The stretches so far, the last one with `rest` of the stream still to read. */
  ghost predicate Reading(stream: seq<byte>, room: nat, done: seq<Stretch>, now: Stretch, rest: seq<byte>) {
    && (if done == [] then now.from == stream
        else done[0].from == stream && Suffix(done[|done| - 1].from, now.from))
    && (forall i :: 0 <= i < |done| ==> done[i].messages <= Deliveries(done[i].from, room))
    && (forall i :: 0 < i < |done| ==> Suffix(done[i - 1].from, done[i].from))
    && Suffix(now.from, rest) && Deliveries(now.from, room) == now.messages + Deliveries(rest, room)
  }

  /** Reading on: ms are the messages delivered on the way. */
  lemma ReadsOn(stream: seq<byte>, room: nat, done: seq<Stretch>, now: Stretch,
                rest: seq<byte>, rest': seq<byte>, ms: seq<seq<byte>>)
    requires Reading(stream, room, done, now, rest) && Suffix(rest, rest')
    requires Deliveries(rest, room) == ms + Deliveries(rest', room)
    ensures Reading(stream, room, done, now.(messages := now.messages + ms), rest')
  {
    hide Deliveries, Suffix;
    SuffixOfSuffix(now.from, rest, rest');
  }

  /** A failed read ends the stretch. */
  lemma Interrupted(stream: seq<byte>, room: nat, done: seq<Stretch>, now: Stretch, rest: seq<byte>, rest': seq<byte>)
    requires Reading(stream, room, done, now, rest) && Suffix(rest, rest')
    ensures Reading(stream, room, done + [now], Stretch(rest', []), rest')
  {
    hide Deliveries, Suffix;
    SuffixOfSuffix(now.from, rest, rest');
  }

  lemma Ended(stream: seq<byte>, room: nat, done: seq<Stretch>, now: Stretch, rest: seq<byte>)
    requires Reading(stream, room, done, now, rest) && Deliveries(rest, room) == []
    ensures Resumes(stream, room, done + [now])
  {
    hide Deliveries;
  }

  lemma StartsReading(stream: seq<byte>, room: nat)
    ensures Reading(stream, room, [], Stretch(stream, []), stream)
  {
  }

  /** One stretch is the whole stream. */
  lemma WithoutFaults(stream: seq<byte>, room: nat, stretches: seq<Stretch>)
    requires Resumes(stream, room, stretches)
    ensures |stretches| == 1 ==> Delivered(stretches) == Deliveries(stream, room)
  {
    hide Deliveries;
    if |stretches| == 1 {
      assert stretches[..0] == [];
    }
  }

  /** The reader's loop until the connection ends: every message read goes to its queue, and after
      a failed read it goes on with whatever byte comes next. */
  method ReadAll(s: Socket, room: nat) returns (delivered: seq<seq<byte>>, ghost stretches: seq<Stretch>)
    requires HEADER_SIZE <= room
    modifies s`incoming, s`faults
    ensures s.faults == old(s.faults) ==> delivered == Deliveries(old(s.incoming), room)
    ensures |stretches| == old(s.faults) - s.faults + 1 && Resumes(old(s.incoming), room, stretches)
    ensures delivered == Delivered(stretches)
  {
    hide Deliveries, Reading, Resumes, Suffix;
    delivered, stretches := [], [];
    ghost var stream, now := s.incoming, Stretch(s.incoming, []);
    StartsReading(stream, room);
    while true
      invariant s.faults <= old(s.faults) && |stretches| == old(s.faults) - s.faults
      invariant Reading(stream, room, stretches, now, s.incoming)
      invariant delivered == Delivered(stretches) + now.messages
      decreases |s.incoming|, s.faults
    {
      ghost var rest := s.incoming;
      var cell := new byte[room];
      var rv := s.ReadP4Msg(cell);
      if rv > 0 {
        ReadsOn(stream, room, stretches, now, rest, s.incoming, [cell[..rv]]);
        delivered := delivered + [cell[..rv]];
        now := now.(messages := now.messages + [cell[..rv]]);
      } else if rv == 0 {
        Ended(stream, room, stretches, now, rest);
        stretches := stretches + [now];
        WithoutFaults(stream, room, stretches);
        return;
      } else if rv == -1 {
        Interrupted(stream, room, stretches, now, rest, s.incoming);
        stretches, now := stretches + [now], Stretch(s.incoming, []);
      } else {
        ReadsOn(stream, room, stretches, now, rest, s.incoming, []);
        assert now.messages + [] == now.messages;
      }
    }
  }

  // ----- what arrives -----

  /** A message followed by anything: it is the first one delivered exactly when it is longer than
      a bare header and fits the reader's cell. */
  lemma DeliveredIff(m: seq<byte>, rest: seq<byte>, room: nat)
    requires Sendable(m)
    ensures (HEADER_SIZE < HeaderLen(m) <= room) <==>
      Deliveries(Frame(m) + rest, room) == [Frame(m)] + Deliveries(rest, room)
  {
    var s := Frame(m) + rest;
    if HEADER_SIZE < HeaderLen(m) {
      assert s[2..4] == m[2..4];
      assert s[..HeaderLen(m)] == Frame(m);
      assert s[HeaderLen(m)..] == rest;
    }
    DeliveryLengths(s, room);
    assert Deliveries(s, room) == [Frame(m)] + Deliveries(rest, room) ==> Deliveries(s, room)[0] == Frame(m);
  }

  lemma {:induction false} DeliveryLengths(stream: seq<byte>, room: nat)
    ensures forall d :: d in Deliveries(stream, room) ==> HEADER_SIZE < |d| <= room
    decreases |stream|
  {
    if |stream| >= HEADER_SIZE {
      var n := HeaderLen(stream);
      if n > room {
        DeliveryLengths(stream[HEADER_SIZE..], room);
      } else if HEADER_SIZE < n <= |stream| {
        DeliveryLengths(stream[n..], room);
      }
    }
  }

  /** A run of messages arrives as it was sent, message by message and in order, exactly when every
      one is longer than a bare header and fits the cells of the reader. */
  lemma {:induction false} AllDeliveredIff(ms: seq<seq<byte>>, room: nat)
    requires forall m :: m in ms ==> Sendable(m)
    ensures (forall m :: m in ms ==> HEADER_SIZE <= |m| && HEADER_SIZE < HeaderLen(m) <= room) <==>
      Deliveries(Stream(Frames(ms)), room) == Frames(ms)
  {
    if ms != [] {
      var m, fs := ms[0], Frames(ms);
      assert fs[0] == Frame(m) && fs[1..] == Frames(ms[1..]);
      DeliveredIff(m, Stream(fs[1..]), room);
      AllDeliveredIff(ms[1..], room);
      DeliveryLengths(Stream(fs), room);
      assert ms == [m] + ms[1..];
    }
  }

  /** The whole way of a control message: a built entry is sent whole whatever its buffer holds
      behind it, and whatever the reader's cell held before, the decoder finds the entry there. */
  lemma EntryArrives(bs: seq<byte>, e: Entry, rest: seq<byte>, cell: seq<byte>)
    requires FitsEntry(e) && IsEntry(bs, e, All(e), true) && EntryLength(e) <= |cell|
    ensures Sendable(bs)
    ensures var ds := Deliveries(Frame(bs) + rest, |cell|);
            && |ds| > 0
            && (ds[0] <= cell && |e.matches| <= MAX_PARTS && |e.params| <= MAX_PARTS ==>
                  var r := HandleP4Msg(cell, |cell|); r.1.Delivered? && Describes(r.0, r.1.msg, e))
  {
    EntryHeaderLen(bs, e);
    DeliveredIff(bs, rest, |cell|);
    hide IsEntry, FitsEntry, EntryLength, Deliveries, HandleP4Msg, Describes;
    if Frame(bs) <= cell {
      assert forall i :: 0 <= i < EntryLength(e) ==> Frame(bs)[i] == bs[i];
      EntryPrefix(bs, cell, e, All(e), true);
      RoundTrip(cell, |cell|, e);
    }
  }

  lemma EntryHeaderLen(bs: seq<byte>, e: Entry)
    requires IsEntry(bs, e, All(e), true)
    ensures |bs| >= HEADER_SIZE && HeaderLen(bs) == EntryLength(e) > HEADER_SIZE && Sendable(bs)
  {
    LayoutGrows(Layout(e.matches), e.matches, |e.matches|, |e.matches|);
  }
}

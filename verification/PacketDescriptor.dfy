/** The generated data plane code as it runs: a packet descriptor whose slots, flags and packet
    bytes change in place. Every method is tied to the functions of FieldCache. */
module PacketDescriptors {
  import Basics
  import opened Words
  import opened FieldMacros
  import opened HeaderRecord
  import opened FieldCache
  import opened CacheSequences

  class PacketDescriptor {
    const fieldDescs: seq<FieldDesc>
    const parsed: set<nat>
    var mem: array<Byte>
    var present: set<nat>
    var fields: map<nat, Word>
    var modified: set<nat>

    constructor (fieldDescs: seq<FieldDesc>, program: seq<Step>, mem: array<Byte>, fields: map<nat, Word>)
      requires fields.Keys == set f | 0 <= f < |fieldDescs| && ParsedField(fieldDescs, program, f)
      ensures this.fieldDescs == fieldDescs && this.mem == mem && this.fields == fields
      ensures present == {} && modified == {} && Valid()
      ensures Ctx() == ContextOf(fieldDescs, program, {}, mem.Length)
    {
      this.fieldDescs := fieldDescs;
      this.parsed := fields.Keys;
      this.mem := mem;
      this.fields := fields;
      this.present := {};
      this.modified := {};
    }

    ghost function Ctx(): Context
      reads this
    {
      Context(fieldDescs, present, parsed, mem.Length)
    }

    ghost function View(): State
      reads this, mem
    {
      State(mem[..], fields, modified)
    }

    ghost predicate Valid()
      reads this
    {
      Ctx().WellFormed() && fields.Keys == parsed
    }

    /** A packet arrives: header pointers are set, slots and flags stay as they were. */
    method Receive(packet: array<Byte>, present: set<nat>)
      modifies this
      ensures mem == packet && this.present == present
      ensures fields == old(fields) && modified == old(modified)
    {
      this.mem := packet;
      this.present := present;
    }

    /** memcpy(byte_addr, &res32, n). */
    method CopyWord(addr: nat, res: Word, n: nat)
      requires addr + n <= mem.Length && n <= 4
      modifies mem
      ensures mem[..] == Store(old(mem[..]), addr, res, n)
    {
      ghost var before := mem[..];
      for j := 0 to n
        invariant forall i :: addr <= i < addr + j ==> mem[i] == res[8 * (i - addr)..8 * (i - addr) + 8]
        invariant forall i :: 0 <= i < mem.Length && !(addr <= i < addr + j) ==> mem[i] == before[i]
      {
        mem[addr + j] := res[8 * j..8 * j + 8];
      }
      assert forall i :: 0 <= i < mem.Length ==> mem[i] == Store(before, addr, res, n)[i];
    }

    /** MODIFY_INT32_INT32_BITS or _HTON on the packet. */
    method ModifyMacro(enc: Encoding, f: nat, v: Word)
      requires Valid() && f in present
      modifies mem
      ensures mem[..] == WriteField(enc, old(mem[..]), fieldDescs[f], v)
    {
      var d := fieldDescs[f];
      var x := Load(mem[..], d.byteAddr, d.LoadSize());
      CopyWord(d.byteAddr, Modify(enc, d, x, v), d.ByteCount());
    }

    /** A slot is assigned whether or not the header is there; the macro needs its address. */
    method ModifyInt32(f: nat, value32: Word) returns (ok: bool)
      requires Valid() && f < |fieldDescs|
      modifies this, mem
      ensures Valid() && Ctx() == old(Ctx()) && mem == old(mem)
      ensures ok <==> f in parsed || f in present
      ensures ok ==> View() == Assign(Ctx(), old(View()), f, value32)
    {
      ok := f in parsed || f in present;
      if f in parsed {
        fields := fields[f := value32];
        modified := modified + {f};
      } else if f in present {
        ModifyMacro(AutoEncoding(fieldDescs[f]), f, value32);
      }
    }

    method ExtractInt32(f: nat) returns (ok: bool, v: Word)
      requires Valid() && f < |fieldDescs|
      modifies this
      ensures Valid() && Ctx() == old(Ctx()) && mem == old(mem)
      ensures ok <==> f in parsed || f in present
      ensures ok ==> (View(), v) == Fetch(Ctx(), old(View()), f)
    {
      ok, v := f in parsed || f in present, ZERO;
      if f in parsed {
        v := fields[f];
        modified := modified + {f};
      } else if f in present {
        v := ExtractAuto(f);
      }
    }

    /** The code emitted for one primitive call. It ends at a null pointer when memory of a header
        is needed that was not extracted. */
    method Execute(s: Step) returns (ok: bool, seen: seq<Word>)
      requires Valid() && Ctx().Names(s)
      modifies this, mem
      ensures Valid() && Ctx() == old(Ctx()) && mem == old(mem)
      ensures ok <==> Ctx().Reaches(s)
      ensures ok ==> (View(), seen) == GeneratedStep(Ctx(), old(View()), s)
    {
      hide Assign, Fetch, WriteField, ReadField, CopyBits;
      ok, seen := false, [];
      match s
      case ModifyConst(dst, c) =>
        ok := ModifyInt32(dst, c);
      case ModifyFrom(dst, src, mask) =>
        if fieldDescs[src].meta == fieldDescs[dst].meta {
          if src in present && dst in present {
            CopyField(dst, src, mask);
            ok := true;
          }
        } else {
          ok := CopyAcross(dst, src, mask);
        }
      case ModifyParam(dst, p) =>
        if dst in present {
          ModifyMacro(AutoEncoding(fieldDescs[dst]), dst, p);
          ok := true;
        }
      case AddConst(dst, c) =>
        var res32;
        ok, res32 := ExtractInt32(dst);
        if ok {
          ok := ModifyInt32(dst, AddWords(c, res32));
        }
      case AddFrom(dst, src) =>
        ok := AddField(dst, src);
      case Observe(src) =>
        if src in present {
          var v := GetInt32(src);
          ok, seen := true, [v];
        }
      case Digest(src) =>
        if src in present {
          var d := fieldDescs[src];
          ok, seen := true, [Load(mem[..], d.byteAddr, DigestLength(d))];
        }
    }

    /** modify_field between packet and metadata. */
    method CopyAcross(dst: nat, src: nat, mask: Basics.Option<Word>) returns (ok: bool)
      requires Valid() && dst < |fieldDescs| && src < |fieldDescs| && !Ctx().SameClass(dst, src)
      modifies this, mem
      ensures Valid() && Ctx() == old(Ctx()) && mem == old(mem)
      ensures ok <==> Ctx().Reaches(ModifyFrom(dst, src, mask))
      ensures ok ==> View() == GeneratedStep(Ctx(), old(View()), ModifyFrom(dst, src, mask)).0
    {
      hide Assign, Fetch;
      var value32;
      ok, value32 := ExtractInt32(src);
      if ok {
        ok := ModifyInt32(dst, And(value32, MaskBits(mask)));
      }
    }

    method AddField(dst: nat, src: nat) returns (ok: bool)
      requires Valid() && dst < |fieldDescs| && src < |fieldDescs|
      modifies this, mem
      ensures Valid() && Ctx() == old(Ctx()) && mem == old(mem)
      ensures ok <==> Ctx().Reaches(AddFrom(dst, src))
      ensures ok ==> View() == GeneratedStep(Ctx(), old(View()), AddFrom(dst, src)).0
    {
      hide Assign, Fetch;
      var value32, res32;
      ok, value32 := ExtractInt32(src);
      if ok {
        ok, res32 := ExtractInt32(dst);
        if ok {
          ok := ModifyInt32(dst, AddWords(value32, res32));
        }
      }
    }

    /** modify_field inside one class. */
    method CopyField(dst: nat, src: nat, mask: Basics.Option<Word>)
      requires Valid() && dst in present && src in present
      modifies mem
      ensures mem[..] == CopyBits(Ctx(), old(mem[..]), dst, src, mask)
    {
      var s, d := fieldDescs[src], fieldDescs[dst];
      var value32 := Extract(HostBits, s, Load(mem[..], s.byteAddr, s.LoadSize()));
      var res32 := ModifyMasked(d, Load(mem[..], d.byteAddr, d.LoadSize()), value32, mask);
      CopyWord(d.byteAddr, res32, d.ByteCount());
    }

    /** GET_INT32_AUTO and its kin read the packet, never the slots. */
    method GetInt32(f: nat) returns (v: Word)
      requires Valid() && f in present
      ensures v == Ctx().Read(mem[..], f)
    {
      var d := fieldDescs[f];
      var x := Load(mem[..], d.byteAddr, d.LoadSize());
      v := GetAuto(d, x);
      GetAutoReadsTheSame(d, x);
    }

    method RunActions(run: seq<Step>) returns (ok: bool, seen: seq<Word>)
      requires Valid() && Ctx().NamesAll(run)
      modifies this, mem
      ensures Valid() && Ctx() == old(Ctx()) && mem == old(mem)
      ensures ok <==> Ctx().ReachesAll(run)
      ensures ok ==> (View(), seen) == GeneratedRun(Ctx(), old(View()), run)
      decreases |run|
    {
      hide GeneratedStep, Context.Reaches;
      ok, seen := true, [];
      if run != [] {
        ok, seen := Execute(run[0]);
        if ok {
          var rest;
          ok, rest := RunActions(run[1..]);
          seen := seen + rest;
        }
        assert run == [run[0]] + run[1..];
      }
    }

    /** EXTRACT_INT32_AUTO. */
    method ExtractAuto(f: nat) returns (v: Word)
      requires Valid() && f in present
      ensures v == Ctx().Read(mem[..], f)
    {
      var d := fieldDescs[f];
      v := Extract(AutoEncoding(d), d, Load(mem[..], d.byteAddr, d.LoadSize()));
    }

    /** The parser's loads after each extract. */
    method LoadSlots()
      requires Valid()
      modifies this
      ensures Valid() && Ctx() == old(Ctx()) && mem == old(mem)
      ensures View() == Parse(Ctx(), old(View()))
    {
      hide Context.Read, SlotsLoaded, FlagsLeft, Parse;
      ghost var g := View();
      ghost var ctx := Ctx();
      LoadingEnds(ctx, g);
      for f := 0 to |fieldDescs|
        invariant Valid() && Ctx() == ctx && mem == old(mem) && mem[..] == g.mem
        invariant fields == SlotsLoaded(ctx, g, f) && modified == FlagsLeft(ctx, g, f)
      {
        LoadingOne(ctx, g, f);
        if f in parsed && f in present {
          var value32 := ExtractAuto(f);
          fields := fields[f := value32];
          modified := modified - {f};
        }
      }
    }

    /** update_packet's first part: write marked slots back, in field order. */
    method WriteBack()
      requires Valid() && modified * parsed <= present
      modifies mem
      ensures mem[..] == Flush(Ctx(), old(View()), |fieldDescs|)
    {
      hide WriteField, ReadField;
      ghost var g := View();
      ghost var ctx := Ctx();
      for f := 0 to |fieldDescs|
        invariant mem[..] == Flush(ctx, g, f)
      {
        if f in parsed && f in modified {
          ModifyMacro(AutoEncoding(fieldDescs[f]), f, fields[f]);
        }
      }
    }

    /** parse_packet, the actions, update_packet. A flag on a header that this packet lacks, left from
        an earlier packet or set by its own actions, would be written back through a null pointer. */
    method HandlePacket(run: seq<Step>) returns (ok: bool, seen: seq<Word>)
      requires Valid() && Ctx().NamesAll(run)
      modifies this, mem
      ensures Valid() && Ctx() == old(Ctx()) && mem == old(mem)
      ensures FieldCache.HandlePacket(Ctx(), old(View()), run)
              == if ok then Packet(mem[..], seen, fields, modified) else Fault
    {
      hide Parse, GeneratedRun, Flush;
      LoadSlots();
      ok, seen := RunActions(run);
      ok := ok && modified * parsed <= present;
      if ok {
        WriteBack();
      }
    }

    method HandleArrival(packet: array<Byte>, a: Arrival) returns (out: Outcome)
      requires fields.Keys == parsed && packet[..] == a.mem
      requires ContextAt(fieldDescs, parsed, a).WellFormed() && ContextAt(fieldDescs, parsed, a).NamesAll(a.run)
      modifies this, packet
      ensures out == FieldCache.HandlePacket(ContextAt(fieldDescs, parsed, a),
                                             State(a.mem, old(fields), old(modified)), a.run)
      ensures fields.Keys == parsed
      ensures out.Packet? ==> packet[..] == out.mem && fields == out.cache && modified == out.marked
    {
      hide FieldCache.HandlePacket;
      Receive(packet, a.present);
      var ok, seen := HandlePacket(a.run);
      out := if ok then Packet(packet[..], seen, fields, modified) else Fault;
    }

    /** The worker handles packet after packet in one descriptor. */
    method HandleAll(packets: seq<array<Byte>>, arrivals: seq<Arrival>) returns (outs: seq<Outcome>)
      requires fields.Keys == parsed && Fit(fieldDescs, parsed, arrivals) && |packets| == |arrivals|
      requires forall i :: 0 <= i < |packets| ==> packets[i][..] == arrivals[i].mem
      requires forall i, j :: 0 <= i < j < |packets| ==> packets[i] != packets[j]
      modifies this, packets
      ensures outs == CacheSequences.HandleAll(fieldDescs, old(fields), old(modified), arrivals)
      ensures forall i :: 0 <= i < |outs| && outs[i].Packet? ==> packets[i][..] == outs[i].mem
      decreases |packets|
    {
      hide FieldCache.HandlePacket;
      outs := [];
      if packets != [] {
        var out := HandleArrival(packets[0], arrivals[0]);
        outs := [out];
        if out.Packet? {
          var rest := HandleAll(packets[1..], arrivals[1..]);
          outs := outs + rest;
        }
      }
    }
  }

  /** The slots and the flags once the extracted fields below n have been loaded. */
  ghost function SlotsLoaded(ctx: Context, g: State, n: nat): map<nat, Word>
    requires ctx.WellFormed() && Slots(ctx, g)
  {
    map f | f in g.cache :: if f in ctx.present && f < n then ctx.Read(g.mem, f) else g.cache[f]
  }

  ghost function FlagsLeft(ctx: Context, g: State, n: nat): set<nat> {
    g.marked - set f | f in ctx.cached * ctx.present && f < n
  }

  lemma LoadingEnds(ctx: Context, g: State)
    requires ctx.WellFormed() && Slots(ctx, g)
    ensures SlotsLoaded(ctx, g, 0) == g.cache && FlagsLeft(ctx, g, 0) == g.marked
    ensures SlotsLoaded(ctx, g, |ctx.fields|) == Parse(ctx, g).cache
    ensures FlagsLeft(ctx, g, |ctx.fields|) == Parse(ctx, g).marked
    ensures Parse(ctx, g).mem == g.mem
  {
    hide Context.Read;
  }

  lemma LoadingOne(ctx: Context, g: State, f: nat)
    requires ctx.WellFormed() && Slots(ctx, g)
    ensures SlotsLoaded(ctx, g, f + 1)
            == if f in ctx.cached && f in ctx.present then SlotsLoaded(ctx, g, f)[f := ctx.Read(g.mem, f)]
               else SlotsLoaded(ctx, g, f)
    ensures FlagsLeft(ctx, g, f + 1)
            == if f in ctx.cached && f in ctx.present then FlagsLeft(ctx, g, f) - {f} else FlagsLeft(ctx, g, f)
  {
    hide Context.Read;
  }
}

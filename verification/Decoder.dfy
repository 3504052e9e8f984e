/** EQMacDecoder: one flow's stateful decoder. */
module Decoder {
  import opened Bytes
  import opened Options
  import opened WireFormat
  import opened Fragments
  import SerialNumbers
  import Ciphers

  const OP_ZONE_SPAWNS: uint16 := 0x5f41
  const OP_NEW_SPAWN: uint16 := 0x6b42
  const OP_PLAYER_PROFILE: uint16 := 0x3640

  /** zlib inflate into the decoder's buffer; the empty result stands for failure. */
  type Inflate = seq<byte> -> seq<byte>

  function CipherOf(opcode: uint16): Option<Ciphers.Cipher> {
    if opcode == OP_PLAYER_PROFILE then Some(Ciphers.Profile)
    else if opcode == OP_ZONE_SPAWNS || opcode == OP_NEW_SPAWN then Some(Ciphers.ZoneSpawn)
    else None
  }

  /** The callbacks one assembled message gives rise to: one, or none when it does not inflate. */
  function Emit(inflate: Inflate, m: Message): seq<Message> {
    var c := CipherOf(m.opcode);
    if c.None? || m.body == [] then [m]
    else
      var plain := inflate(Ciphers.Decrypt(c.value, m.body));
      if plain == [] then [] else [Message(m.opcode, plain)]
  }

  // ---- the decoder as a transition system ----

  /** `lastArq` is -1 until a packet with an ARQ has been accepted. */
  datatype DecoderState = DecoderState(lastArq: int, asm: Assembly)

  const INITIAL := DecoderState(-1, map[])

  predicate StateOk(st: DecoderState) {
    -1 <= st.lastArq < SerialNumbers.SPACE && AssemblyOk(st.asm)
  }

  /** The retransmit filter: None when the packet is dropped as already seen, else the new high-water mark. */
  function Filter(lastArq: int, arq: Option<uint16>): Option<int>
    requires -1 <= lastArq < SerialNumbers.SPACE
  {
    if arq.None? then Some(lastArq)
    else if lastArq >= 0 && SerialNumbers.Delta(arq.value, lastArq) <= 0 then None
    else Some(arq.value as int)
  }

  /** What a packet's application data adds to the table, and the message it completes, if any. */
  function Deliver(asm: Assembly, body: Body): (Assembly, seq<Message>) {
    if body.frag.Some? then
      var (asm', done) := Accept(asm, body.frag.value, body.opcode, body.payload);
      (asm', if done.Some? then [done.value] else [])
    else (asm, if body.opcode != 0 then [Message(body.opcode, body.payload)] else [])
  }

  /** One datagram, up to the assembled message: what comes out has not been deobfuscated yet. */
  function Assemble(st: DecoderState, buf: seq<byte>): (DecoderState, seq<Message>)
    requires -1 <= st.lastArq < SerialNumbers.SPACE
  {
    var packet := Parse(buf);
    if packet.None? then (st, [])
    else
      var high := Filter(st.lastArq, packet.value.arq);
      if high.None? then (st, [])
      else if packet.value.body.None? then (DecoderState(high.value, st.asm), [])
      else
        var (asm, out) := Deliver(st.asm, packet.value.body.value);
        (DecoderState(high.value, asm), out)
  }

  function Step(inflate: Inflate, st: DecoderState, buf: seq<byte>): (DecoderState, seq<Message>)
    requires -1 <= st.lastArq < SerialNumbers.SPACE
  {
    var (st', assembled) := Assemble(st, buf);
    (st', EmitEach(inflate, assembled))
  }

  function EmitEach(inflate: Inflate, ms: seq<Message>): seq<Message> {
    if ms == [] then [] else EmitEach(inflate, ms[..|ms| - 1]) + Emit(inflate, ms[|ms| - 1])
  }

  lemma {:induction false} EmitEachConcat(inflate: Inflate, a: seq<Message>, b: seq<Message>)
    ensures EmitEach(inflate, a + b) == EmitEach(inflate, a) + EmitEach(inflate, b)
  {
    hide Emit;
    if b == [] {
      assert a + b == a;
    } else {
      EmitEachConcat(inflate, a, b[..|b| - 1]);
      assert (a + b)[..|a + b| - 1] == a + b[..|b| - 1];
    }
  }

  lemma EmitOne(inflate: Inflate, m: Message)
    ensures EmitEach(inflate, [m]) == Emit(inflate, m)
    ensures EmitEach(inflate, []) == []
  {
    hide Emit;
    assert [m][..0] == [];
    assert EmitEach(inflate, []) == [];
  }

  lemma AssembleKeepsOk(st: DecoderState, buf: seq<byte>)
    requires StateOk(st)
    ensures StateOk(Assemble(st, buf).0)
  {
    hide Parse, Accept, AssemblyOk;
    var packet := Parse(buf);
    if packet.Some? && packet.value.body.Some? {
      var body := packet.value.body.value;
      if body.frag.Some? {
        AcceptKeepsOk(st.asm, body.frag.value, body.opcode, body.payload);
      }
    }
  }

  /** The state after a sequence of datagrams, and everything assembled on the way. */
  function AssembleAll(bufs: seq<seq<byte>>): (r: (DecoderState, seq<Message>))
    ensures StateOk(r.0)
  {
    if bufs == [] then (INITIAL, [])
    else
      var (st, out) := AssembleAll(bufs[..|bufs| - 1]);
      AssembleKeepsOk(st, bufs[|bufs| - 1]);
      var (st', more) := Assemble(st, bufs[|bufs| - 1]);
      (st', out + more)
  }

  /** The state after a sequence of datagrams, and everything emitted on the way. */
  function Run(inflate: Inflate, bufs: seq<seq<byte>>): (r: (DecoderState, seq<Message>))
    ensures StateOk(r.0)
  {
    if bufs == [] then (INITIAL, [])
    else
      var (st, out) := Run(inflate, bufs[..|bufs| - 1]);
      AssembleKeepsOk(st, bufs[|bufs| - 1]);
      var (st', more) := Step(inflate, st, bufs[|bufs| - 1]);
      (st', out + more)
  }

  /** Emitting as messages are assembled is emitting them all afterwards. */
  lemma {:induction false} RunIsAssembleAll(inflate: Inflate, bufs: seq<seq<byte>>)
    ensures Run(inflate, bufs) == (AssembleAll(bufs).0, EmitEach(inflate, AssembleAll(bufs).1))
  {
    hide Assemble, EmitEach;
    if bufs == [] {
      EmitOne(inflate, Message(0, []));
    } else {
      var before, buf := bufs[..|bufs| - 1], bufs[|bufs| - 1];
      RunIsAssembleAll(inflate, before);
      EmitEachConcat(inflate, AssembleAll(before).1, Assemble(AssembleAll(before).0, buf).1);
    }
  }

  // ---- the decoder as an object ----

  method EmitWithDecode(inflate: Inflate, opcode: uint16, data: seq<byte>) returns (out: seq<Message>)
    ensures out == Emit(inflate, Message(opcode, data))
  {
    if opcode == OP_ZONE_SPAWNS || opcode == OP_NEW_SPAWN || opcode == OP_PLAYER_PROFILE {
      if |data| == 0 {
        return [Message(opcode, data)];
      }
      var scratch := new byte[|data|](i requires 0 <= i < |data| => data[i]);
      assert scratch[..] == data;
      Ciphers.DecryptInPlace(if opcode == OP_PLAYER_PROFILE then Ciphers.Profile else Ciphers.ZoneSpawn, scratch);
      var inflated := inflate(scratch[..]);
      if |inflated| == 0 {
        return [];
      }
      return [Message(opcode, inflated)];
    }
    return [Message(opcode, data)];
  }

  class EQMacDecoder {
    const inflate: Inflate
    var lastArq: int
    var fragments: map<uint16, FragmentGroup>
    /** The parts behind each entry of `fragments`. */
    ghost var asm: Assembly

    ghost predicate Valid()
      reads this
    {
      && -1 <= lastArq < SerialNumbers.SPACE
      && AssemblyOk(asm)
      && fragments.Keys == asm.Keys
      && forall key :: key in asm ==> Represents(fragments[key], asm[key])
    }

    ghost function State(): DecoderState
      reads this
    {
      DecoderState(lastArq, asm)
    }

    constructor (inflate: Inflate)
      ensures Valid() && State() == INITIAL && this.inflate == inflate
    {
      this.inflate := inflate;
      lastArq, fragments, asm := -1, map[], map[];
    }

    method Reset()
      modifies this
      ensures Valid() && State() == INITIAL
    {
      fragments, asm, lastArq := map[], map[], -1;
    }

    /** Reads one datagram field by field, stopping at the first that does not fit. */
    method Process(buf: seq<byte>) returns (out: seq<Message>)
      requires Valid()
      modifies this
      ensures Valid()
      ensures (State(), out) == Step(inflate, old(State()), buf)
    {
      hide Emit, EmitEach, Accept, Represents, AssemblyOk, HeaderOf, Be16, SerialNumbers.Delta, ParseBody;
      EmitOne(inflate, Message(0, []));
      out := [];
      if |buf| < MIN_PACKET { return; }
      var h := HeaderOf(buf[0], buf[1]);
      var off := LocateArq(h, buf);
      if off.None? { return; }
      if h.arq {
        if off.value + 2 > |buf| { return; }
        var arq := Be16(buf, off.value);
        if lastArq < 0 {
          lastArq := arq;
        } else {
          if SerialNumbers.Delta(arq, lastArq) <= 0 { return; }
          lastArq := arq;
        }
      }
      var body := ReadAfterArq(h, buf, FragAt(h));
      if body.None? { return; }
      if body.value.frag.Some? {
        ghost var done := Accept(asm, body.value.frag.value, body.value.opcode, body.value.payload).1;
        if done.Some? { EmitOne(inflate, done.value); }
        out := AddFragment(body.value.frag.value, body.value.opcode, body.value.payload);
      } else if body.value.opcode != 0 {
        EmitOne(inflate, Message(body.value.opcode, body.value.payload));
        out := EmitWithDecode(inflate, body.value.opcode, body.value.payload);
      }
    }

    /** The fragment branch: flags, counter and growing buffer. */
    method AddFragment(f: FragInfo, opcode: uint16, payload: seq<byte>) returns (out: seq<Message>)
      requires Valid()
      modifies this`fragments, this`asm
      ensures Valid()
      ensures var (asm', done) := Accept(old(asm), f, opcode, payload);
              asm == asm' && out == if done.Some? then Emit(inflate, done.value) else []
    {
      hide Emit, Represents, AssemblyOk, Complete, Indices, Joined;
      out := [];
      if f.total == 0 { return; }
      var fg := if f.group in fragments then fragments[f.group] else FragmentGroup(0, 0, 0, [], []);
      ghost var g := if f.group in asm then asm[f.group] else Group(0, 0, []);
      if f.index == 0 {
        fg := FragmentGroup(opcode, f.total, 0, seq(f.total, _ => false), []);
        g := Group(opcode, f.total, []);
      }
      NewGroup(opcode, f.total);
      assert Represents(fg, g);
      AcceptKeepsOk(asm, f, opcode, payload);
      SlotOf(fg, g, f.index);
      if f.index >= |fg.received| {
        fragments, asm := fragments - {f.group}, asm - {f.group};
        return;
      }
      if fg.received[f.index] { return; }
      if f.index != 0 { OpenGroup(asm, f.group); }
      AddPart(fg, g, Part(f.index, payload));
      fg := fg.(received := fg.received[f.index := true], receivedCount := fg.receivedCount + 1,
                data := fg.data + payload);
      g := g.(parts := g.parts + [Part(f.index, payload)]);
      assert f.index == 0 ==> g.parts == [Part(0, payload)];
      if fg.receivedCount == fg.total {
        SameData(fg, g);
        out := EmitWithDecode(inflate, fg.opcode, fg.data);
        fragments, asm := fragments - {f.group}, asm - {f.group};
      } else {
        fragments, asm := fragments[f.group := fg], asm[f.group := g];
      }
    }
  }

  /** Where the ARQ field would start, past the optional acknowledgement fields; None when one does not fit. */
  method LocateArq(h: Header, buf: seq<byte>) returns (r: Option<nat>)
    requires |buf| >= MIN_PACKET
    ensures r == if ArqAt(h) <= |buf| then Some(ArqAt(h)) else None
  {
    var off := 4;
    if h.arsp {
      if off + 2 > |buf| { return None; }
      off := off + 2;
    }
    if h.b3 {
      if off + 2 > |buf| { return None; }
      off := off + 2;
    }
    if h.ackSize > 0 {
      if off + h.ackSize > |buf| { return None; }
      off := off + h.ackSize;
    }
    r := Some(off);
  }

  /** Everything after the ARQ field. */
  method ReadAfterArq(h: Header, buf: seq<byte>, start: nat) returns (r: Option<Body>)
    requires start == FragAt(h) <= |buf|
    ensures r == ParseBody(h, buf)
  {
    hide Be16;
    var off := start;
    var frag: Option<FragInfo> := None;
    if h.fragment {
      if off + 6 > |buf| { return None; }
      frag := Some(FragInfo(Be16(buf, off), Be16(buf, off + 2), Be16(buf, off + 4)));
      off := off + 6;
    }
    if h.asq && h.arq {
      if off + 2 > |buf| { return None; }
      off := off + 2;
    } else if h.asq {
      if off + 1 > |buf| { return None; }
      off := off + 1;
    }
    if h.closing { return None; }
    if |buf| <= off + CRC_LEN { return None; }
    var opcode: uint16 := 0;
    if Index(frag) == 0 {
      if off + 2 > |buf| { return None; }
      opcode := Be16(buf, off);
      off := off + 2;
    }
    if |buf| < off + CRC_LEN { return None; }
    r := Some(Body(frag, opcode, buf[off..|buf| - CRC_LEN]));
  }

  lemma NewGroup(opcode: uint16, total: uint16)
    ensures Represents(FragmentGroup(opcode, total, 0, seq(total, _ => false), []), Group(opcode, total, []))
    ensures Represents(FragmentGroup(0, 0, 0, [], []), Group(0, 0, []))
    ensures Indices([]) == {}
  {
  }

  lemma SlotOf(c: FragmentGroup, g: Group, i: nat)
    requires Represents(c, g)
    ensures c.opcode == g.opcode && c.total == g.total && |c.received| == g.total
    ensures i < g.total ==> (c.received[i] <==> i in Indices(g.parts))
  {
  }

  lemma SameData(c: FragmentGroup, g: Group)
    requires Represents(c, g)
    ensures c.data == Joined(g.parts)
  {
  }

  lemma OpenGroup(asm: Assembly, key: uint16)
    requires AssemblyOk(asm) && key in asm
    ensures GroupOk(asm[key])
  {
  }

  predicate RoomFor(g: Group, p: Part) {
    && Distinct(g.parts)
    && (forall i :: 0 <= i < |g.parts| ==> g.parts[i].index < g.total)
    && p.index < g.total && p.index as int !in Indices(g.parts)
  }

  /** Setting the flag, bumping the counter and appending the payload is adding the part. */
  lemma AddPart(c: FragmentGroup, g: Group, p: Part)
    requires Represents(c, g) && RoomFor(g, p)
    ensures var c' := c.(received := c.received[p.index := true], receivedCount := c.receivedCount + 1,
                         data := c.data + p.payload);
            var g' := g.(parts := g.parts + [p]);
            Represents(c', g') && (c'.receivedCount == c'.total <==> Complete(g'))
  {
    var g' := g.(parts := g.parts + [p]);
    IndicesOfSnoc(g.parts, p);
    assert g'.parts[..|g.parts|] == g.parts;
    CountsWhenComplete(g');
  }
}

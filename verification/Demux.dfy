/** EQPacketStream.handlePacket: one decoder per (source port, destination port). */
module Demux {
  import opened Bytes
  import Fragments
  import opened Decoder

  datatype Direction = FromClient | FromServer

  /** A captured UDP datagram, as far as the stream looks at it. */
  datatype Datagram = Datagram(srcPort: uint16, dstPort: uint16, srcIp: uint32, dstIp: uint32, payload: seq<byte>)

  /** The client the stream is latched to; a zero port or address means it is not latched. */
  datatype Latch = Latch(dir: Direction, port: uint16, ip: uint32)

  type Key = uint32

  /** `(srcPort << 16) | dstPort`. */
  function TupleKey(srcPort: uint16, dstPort: uint16): Key {
    srcPort * 0x1_0000 + dstPort
  }

  lemma TupleKeyInjective(d: Datagram, d': Datagram)
    requires TupleKey(d.srcPort, d.dstPort) == TupleKey(d'.srcPort, d'.dstPort)
    ensures d.srcPort == d'.srcPort && d.dstPort == d'.dstPort
  {
    assert TupleKey(d.srcPort, d.dstPort) / 0x1_0000 == d.srcPort;
    assert TupleKey(d'.srcPort, d'.dstPort) / 0x1_0000 == d'.srcPort;
  }

  /** Datagrams of another session on the same host are turned away while the latch is closed. */
  predicate Admitted(latch: Latch, d: Datagram) {
    latch.port != 0 && latch.ip != 0 ==>
      match latch.dir
      case FromServer => latch.port == d.dstPort && latch.ip == d.dstIp
      case FromClient => latch.port == d.srcPort && latch.ip == d.srcIp
  }

  // ---- the stream as a transition system ----

  type Decoders = map<Key, DecoderState>

  predicate DecodersOk(ds: Decoders) {
    forall key :: key in ds ==> StateOk(ds[key])
  }

  function StateAt(ds: Decoders, key: Key): DecoderState {
    if key in ds then ds[key] else INITIAL
  }

  function Handle(inflate: Inflate, latch: Latch, ds: Decoders, d: Datagram): (Decoders, seq<Fragments.Message>)
    requires DecodersOk(ds)
  {
    if !Admitted(latch, d) then (ds, [])
    else
      var key := TupleKey(d.srcPort, d.dstPort);
      var (st, out) := Step(inflate, StateAt(ds, key), d.payload);
      (ds[key := st], out)
  }

  /** A dispatched message together with the flow its datagram came from. */
  datatype Dispatch = Dispatch(key: Key, msg: Fragments.Message)

  function Tag(key: Key, msgs: seq<Fragments.Message>): (r: seq<Dispatch>)
    ensures |r| == |msgs| && forall i :: 0 <= i < |r| ==> r[i] == Dispatch(key, msgs[i])
  {
    seq(|msgs|, i requires 0 <= i < |msgs| => Dispatch(key, msgs[i]))
  }

  function HandleAll(inflate: Inflate, latch: Latch, ds: seq<Datagram>): (r: (Decoders, seq<Dispatch>))
    ensures DecodersOk(r.0)
  {
    if ds == [] then (map[], [])
    else
      var d := ds[|ds| - 1];
      var (before, out) := HandleAll(inflate, latch, ds[..|ds| - 1]);
      var (after, more) := Handle(inflate, latch, before, d);
      AssembleKeepsOk(StateAt(before, TupleKey(d.srcPort, d.dstPort)), d.payload);
      (after, out + Tag(TupleKey(d.srcPort, d.dstPort), more))
  }

  // ---- one flow on its own ----

  predicate OfFlow(d: Datagram, srcPort: uint16, dstPort: uint16) {
    d.srcPort == srcPort && d.dstPort == dstPort
  }

  /** The admitted datagrams of one flow. */
  function Flow(latch: Latch, ds: seq<Datagram>, srcPort: uint16, dstPort: uint16): seq<seq<byte>> {
    if ds == [] then []
    else
      var d, before := ds[|ds| - 1], Flow(latch, ds[..|ds| - 1], srcPort, dstPort);
      if Admitted(latch, d) && OfFlow(d, srcPort, dstPort) then before + [d.payload] else before
  }

  /** What was dispatched for one flow. */
  function For(out: seq<Dispatch>, key: Key): seq<Fragments.Message> {
    if out == [] then []
    else
      var last, before := out[|out| - 1], For(out[..|out| - 1], key);
      if last.key == key then before + [last.msg] else before
  }

  lemma {:induction false} ForOfConcat(a: seq<Dispatch>, b: seq<Dispatch>, key: Key)
    ensures For(a + b, key) == For(a, key) + For(b, key)
  {
    if b == [] {
      assert a + b == a;
    } else {
      var init := b[..|b| - 1];
      ForOfConcat(a, init, key);
      assert (a + b)[..|a + b| - 1] == a + init;
    }
  }

  lemma {:induction false} ForOfTag(from: Key, msgs: seq<Fragments.Message>, key: Key)
    ensures For(Tag(from, msgs), key) == if from == key then msgs else []
  {
    if msgs != [] {
      var init := msgs[..|msgs| - 1];
      ForOfTag(from, init, key);
      assert Tag(from, msgs)[..|msgs| - 1] == Tag(from, init);
      assert msgs == init + [msgs[|msgs| - 1]];
    }
  }

  /** However flows interleave, what is dispatched for one is what a decoder of its own would emit. */
  lemma {:induction false} FlowsAreIndependent(inflate: Inflate, latch: Latch, ds: seq<Datagram>,
                                               srcPort: uint16, dstPort: uint16)
    ensures var key := TupleKey(srcPort, dstPort);
            var (states, out) := HandleAll(inflate, latch, ds);
            var (alone, emitted) := Run(inflate, Flow(latch, ds, srcPort, dstPort));
            StateAt(states, key) == alone && For(out, key) == emitted
  {
    hide Step, Admitted, TupleKey, Tag;
    if ds != [] {
      var init, d := ds[..|ds| - 1], ds[|ds| - 1];
      var key, from := TupleKey(srcPort, dstPort), TupleKey(d.srcPort, d.dstPort);
      FlowsAreIndependent(inflate, latch, init, srcPort, dstPort);
      var (before, out) := HandleAll(inflate, latch, init);
      var (after, more) := Handle(inflate, latch, before, d);
      ForOfConcat(out, Tag(from, more), key);
      ForOfTag(from, more, key);
      if from == key {
        TupleKeyInjective(d, d.(srcPort := srcPort, dstPort := dstPort));
        if Admitted(latch, d) {
          var flow := Flow(latch, init, srcPort, dstPort);
          assert (flow + [d.payload])[..|flow|] == flow;
        }
      }
    }
  }

  // ---- which datagrams reach a decoder ----

  /** The payloads of the datagrams between two ports that satisfy `mine`. */
  function Payloads(ds: seq<Datagram>, srcPort: uint16, dstPort: uint16, mine: Datagram -> bool): seq<seq<byte>> {
    if ds == [] then []
    else
      var d, before := ds[|ds| - 1], Payloads(ds[..|ds| - 1], srcPort, dstPort, mine);
      if d.srcPort == srcPort && d.dstPort == dstPort && mine(d) then before + [d.payload] else before
  }

  function Everything(): Datagram -> bool {
    d => true
  }

  function SentTo(port: uint16, ip: uint32): Datagram -> bool {
    (d: Datagram) => d.dstPort == port && d.dstIp == ip
  }

  function SentFrom(port: uint16, ip: uint32): Datagram -> bool {
    (d: Datagram) => d.srcPort == port && d.srcIp == ip
  }

  lemma {:induction false} FlowIs(latch: Latch, ds: seq<Datagram>, srcPort: uint16, dstPort: uint16,
                                  mine: Datagram -> bool)
    requires forall d :: mine(d) <==> Admitted(latch, d)
    ensures Flow(latch, ds, srcPort, dstPort) == Payloads(ds, srcPort, dstPort, mine)
  {
    hide Admitted;
    if ds != [] { FlowIs(latch, ds[..|ds| - 1], srcPort, dstPort, mine); }
  }

  /** The decoder of a port pair has met exactly those datagrams between the two, and its messages were dispatched. */
  predicate HasMet(inflate: Inflate, latch: Latch, ds: seq<Datagram>, srcPort: uint16, dstPort: uint16,
                   mine: Datagram -> bool)
  {
    var (states, out) := HandleAll(inflate, latch, ds);
    var key := srcPort * 0x1_0000 + dstPort;
    (StateAt(states, key), For(out, key)) == Run(inflate, Payloads(ds, srcPort, dstPort, mine))
  }

  lemma MetAdmitted(inflate: Inflate, latch: Latch, ds: seq<Datagram>, srcPort: uint16, dstPort: uint16,
                    mine: Datagram -> bool)
    requires forall d :: mine(d) <==> Admitted(latch, d)
    ensures HasMet(inflate, latch, ds, srcPort, dstPort, mine)
  {
    hide Admitted, HandleAll, Run, For;
    FlowIs(latch, ds, srcPort, dstPort, mine);
    FlowsAreIndependent(inflate, latch, ds, srcPort, dstPort);
  }

  /** While the stream is not latched, every datagram reaches the decoder of its port pair. */
  lemma UnlatchedTakesAll(inflate: Inflate, latch: Latch, ds: seq<Datagram>, srcPort: uint16, dstPort: uint16)
    requires latch.port == 0 || latch.ip == 0
    ensures HasMet(inflate, latch, ds, srcPort, dstPort, Everything())
  {
    hide HasMet;
    MetAdmitted(inflate, latch, ds, srcPort, dstPort, Everything());
  }

  /** Once it is, a stream of server packets takes those sent to the latched client. */
  lemma ServerStreamTakesClients(inflate: Inflate, latch: Latch, ds: seq<Datagram>, srcPort: uint16, dstPort: uint16)
    requires latch.port != 0 && latch.ip != 0 && latch.dir == FromServer
    ensures HasMet(inflate, latch, ds, srcPort, dstPort, SentTo(latch.port, latch.ip))
  {
    hide HasMet;
    MetAdmitted(inflate, latch, ds, srcPort, dstPort, SentTo(latch.port, latch.ip));
  }

  /** And a stream of client packets takes those the latched client sent. */
  lemma ClientStreamTakesClients(inflate: Inflate, latch: Latch, ds: seq<Datagram>, srcPort: uint16, dstPort: uint16)
    requires latch.port != 0 && latch.ip != 0 && latch.dir == FromClient
    ensures HasMet(inflate, latch, ds, srcPort, dstPort, SentFrom(latch.port, latch.ip))
  {
    hide HasMet;
    MetAdmitted(inflate, latch, ds, srcPort, dstPort, SentFrom(latch.port, latch.ip));
  }

  /** A datagram of another client, sent past a closed latch, moves nothing and brings nothing. */
  lemma OthersAreTurnedAway(inflate: Inflate, latch: Latch, ds: Decoders, d: Datagram)
    requires DecodersOk(ds) && latch.port != 0 && latch.ip != 0
    requires latch.dir == FromServer ==> d.dstPort != latch.port || d.dstIp != latch.ip
    requires latch.dir == FromClient ==> d.srcPort != latch.port || d.srcIp != latch.ip
    ensures Handle(inflate, latch, ds, d) == (ds, [])
  {
  }

  /** Any other moves the decoder of its own port pair by one step, and what comes out is what that brings. */
  lemma TheRestIsTakenIn(inflate: Inflate, latch: Latch, ds: Decoders, d: Datagram)
    requires DecodersOk(ds)
    requires latch.port == 0 || latch.ip == 0
             || (latch.dir == FromServer && d.dstPort == latch.port && d.dstIp == latch.ip)
             || (latch.dir == FromClient && d.srcPort == latch.port && d.srcIp == latch.ip)
    ensures var key := d.srcPort * 0x1_0000 + d.dstPort;
            var (st, out) := Step(inflate, StateAt(ds, key), d.payload);
            Handle(inflate, latch, ds, d) == (ds[key := st], out)
  {
    hide Step;
  }

  lemma UpdateTwice<K, V>(m: map<K, V>, k: K, v: V, v': V)
    ensures m[k := v][k := v'] == m[k := v']
  {
  }

  // ---- the stream as an object ----

  class EQPacketStream {
    const inflate: Inflate
    const dir: Direction
    var sessionClientPort: uint16
    var sessionClientIp: uint32
    var decoders: map<Key, EQMacDecoder>

    ghost predicate Valid()
      reads this, decoders.Values
    {
      && (forall key :: key in decoders ==> decoders[key].Valid() && decoders[key].inflate == inflate)
      && (forall key, key' :: key in decoders && key' in decoders && key != key' ==> decoders[key] != decoders[key'])
    }

    /** No two slots share a decoder, so the states of all slots are a map of their own. */
    ghost function States(): (ds: Decoders)
      reads this, decoders.Values
    {
      map key | key in decoders :: decoders[key].State()
    }

    function CurrentLatch(): Latch
      reads this
    {
      Latch(dir, sessionClientPort, sessionClientIp)
    }

    constructor (inflate: Inflate, dir: Direction)
      ensures Valid() && States() == map[]
      ensures this.inflate == inflate && CurrentLatch() == Latch(dir, 0, 0)
    {
      this.inflate, this.dir := inflate, dir;
      sessionClientPort, sessionClientIp, decoders := 0, 0, map[];
    }

    /** Unlatches the stream and drops every decoder. */
    method Reset()
      modifies this
      ensures Valid() && States() == map[]
      ensures CurrentLatch() == Latch(dir, 0, 0)
    {
      sessionClientPort, sessionClientIp := 0, 0;
      decoders := map[];
    }

    method HandlePacket(d: Datagram) returns (out: seq<Fragments.Message>)
      requires Valid()
      modifies this`decoders, decoders.Values
      ensures Valid() && fresh(decoders.Values - old(decoders.Values))
      ensures DecodersOk(old(States()))
      ensures (States(), out) == Handle(inflate, old(CurrentLatch()), old(States()), d)
    {
      StatesOk();
      hide Step, TupleKey, StateOk, EQMacDecoder.Valid, EQMacDecoder.State;
      hide Admitted, Valid, States, DecodersOk, StateAt;
      var rejected := Rejects(d);
      if rejected {
        return [];
      }
      var key := TupleKey(d.srcPort, d.dstPort);
      ghost var was := States();
      FillSlot(key);
      out := Feed(key, d.payload);
      UpdateTwice(was, key, StateAt(was, key), States()[key]);
    }

    /** The guard that keeps out other sessions. */
    method Rejects(d: Datagram) returns (r: bool)
      ensures r == !Admitted(CurrentLatch(), d)
    {
      return sessionClientPort != 0 && sessionClientIp != 0
        && ((dir == FromServer && sessionClientPort != d.dstPort)
            || (dir == FromClient && sessionClientPort != d.srcPort)
            || (dir == FromServer && sessionClientIp != d.dstIp)
            || (dir == FromClient && sessionClientIp != d.srcIp));
    }

    method Feed(key: Key, payload: seq<byte>) returns (out: seq<Fragments.Message>)
      requires Valid() && key in decoders
      modifies decoders[key]
      ensures Valid() && StateOk(old(States())[key])
      ensures var (st, emitted) := Step(inflate, old(States())[key], payload);
              States() == old(States())[key := st] && out == emitted
    {
      hide Step, StateOk, EQMacDecoder.Valid, EQMacDecoder.State;
      StatesOk();
      out := decoders[key].Process(payload);
    }

    lemma StatesOk()
      requires Valid()
      ensures DecodersOk(States())
    {
    }

    /** The slot of a flow is filled on its first packet. */
    method FillSlot(key: Key)
      requires Valid()
      modifies this`decoders
      ensures Valid() && fresh(decoders.Values - old(decoders.Values))
      ensures key in decoders && decoders.Keys == old(decoders.Keys) + {key}
      ensures States() == old(States())[key := StateAt(old(States()), key)]
    {
      hide StateOk, EQMacDecoder.Valid, EQMacDecoder.State;
      if key !in decoders {
        var slot := new EQMacDecoder(inflate);
        decoders := decoders[key := slot];
      }
    }
  }
}

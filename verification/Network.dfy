/**
 * An honest sender and a network that loses, duplicates and reorders: which packets arrive, and which of them
 * the 16-bit retransmit filter lets through.
 */
module Network {
  import opened Bytes
  import opened Options
  import WireFormat
  import SerialNumbers
  import Decoder

  // ---- the sender ----

  /** A message goes out in one packet, or as the fragments of one group; some numbered packets carry none. */
  datatype Sent =
    | Single(opcode: uint16, body: seq<byte>)
    | Split(opcode: uint16, group: uint16, chunks: seq<seq<byte>>)
    | Bare

  /** The packets of `msgs`, in order, carry consecutive ARQ numbers from `base` on. */
  datatype Stream = Stream(base: nat, msgs: seq<Sent>)

  predicate SentOk(m: Sent) {
    m.Split? ==> 1 <= |m.chunks| < 0x1_0000 && forall k :: 1 <= k < |m.chunks| ==> m.chunks[k] != []
  }

  predicate StreamOk(s: Stream) {
    forall j :: 0 <= j < |s.msgs| ==> SentOk(s.msgs[j])
  }

  function Size(m: Sent): nat {
    if m.Split? then |m.chunks| else 1
  }

  /** How many packets precede message `j`. */
  function Start(s: Stream, j: nat): nat
    requires j <= |s.msgs|
  {
    if j == 0 then 0 else Start(s, j - 1) + Size(s.msgs[j - 1])
  }

  function PacketOf(m: Sent, k: nat): (b: WireFormat.Body)
    requires SentOk(m) && !m.Bare? && k < Size(m)
    ensures WireFormat.BodyOk(b)
  {
    if m.Single? then WireFormat.Body(None, m.opcode, m.body)
    else WireFormat.Body(Some(WireFormat.FragInfo(m.group, k, |m.chunks|)), if k == 0 then m.opcode else 0, m.chunks[k])
  }

  // ---- the network ----

  /**
   * One datagram: a copy of fragment `k` of message `j` in an envelope of its own (a retransmission has a fresh one),
   * any bytes with the number of a packet that carries no message, a packet without an ARQ that carries one whole
   * message, or a datagram with neither ARQ nor application data.
   */
  datatype Arrival =
    | Data(j: nat, k: nat, env: WireFormat.Envelope)
    | Empty(j: nat, k: nat, buf: seq<byte>)
    | Plain(opcode: uint16, body: seq<byte>, env: WireFormat.Envelope)
    | Other(buf: seq<byte>)

  predicate Silent(buf: seq<byte>) {
    var p := WireFormat.Parse(buf);
    p.Some? ==> p.value.arq.None? && p.value.body.None?
  }

  /** It closes the session, is cut short after its ARQ, or holds nothing behind it. */
  predicate HoldsNothing(buf: seq<byte>, arq: uint16) {
    WireFormat.Parse(buf) == Some(WireFormat.Packet(Some(arq), None))
  }

  predicate ArrivalOk(s: Stream, a: Arrival) {
    match a
    case Data(j, k, env) => j < |s.msgs| && k < Size(s.msgs[j]) && !s.msgs[j].Bare? && WireFormat.EnvelopeOk(env, true)
    case Empty(j, k, buf) =>
      j < |s.msgs| && k == 0 && s.msgs[j].Bare? && HoldsNothing(buf, SerialNumbers.Wire(s.base + Start(s, j)))
    case Plain(_, _, env) => WireFormat.EnvelopeOk(env, false)
    case Other(buf) => Silent(buf)
  }

  predicate ArrivalsOk(s: Stream, arrivals: seq<Arrival>) {
    forall i :: 0 <= i < |arrivals| ==> ArrivalOk(s, arrivals[i])
  }

  predicate InStream(a: Arrival) {
    a.Data? || a.Empty?
  }

  /** The unbounded number of an arriving packet. */
  function Number(s: Stream, a: Arrival): nat
    requires InStream(a) && ArrivalOk(s, a)
  {
    Start(s, a.j) + a.k
  }

  function Datagram(s: Stream, a: Arrival): seq<byte>
    requires StreamOk(s) && ArrivalOk(s, a)
  {
    match a
    case Data(j, k, env) =>
      WireFormat.Print(env, Some(SerialNumbers.Wire(s.base + Number(s, a))), PacketOf(s.msgs[j], k))
    case Empty(_, _, buf) => buf
    case Plain(opcode, body, env) => WireFormat.Print(env, None, WireFormat.Body(None, opcode, body))
    case Other(buf) => buf
  }

  function Datagrams(s: Stream, arrivals: seq<Arrival>): (r: seq<seq<byte>>)
    requires StreamOk(s) && ArrivalsOk(s, arrivals)
    ensures |r| == |arrivals|
  {
    if arrivals == [] then []
    else Datagrams(s, Init(arrivals)) + [Datagram(s, Last(arrivals))]
  }

  function Init<T>(xs: seq<T>): seq<T>
    requires xs != []
  {
    xs[..|xs| - 1]
  }

  function Last<T>(xs: seq<T>): T
    requires xs != []
  {
    xs[|xs| - 1]
  }

  /** The highest number seen; -1 before the first. */
  function High(s: Stream, arrivals: seq<Arrival>): (h: int)
    requires ArrivalsOk(s, arrivals)
    ensures h >= -1
  {
    if arrivals == [] then -1
    else
      var h, a := High(s, Init(arrivals)), Last(arrivals);
      if InStream(a) && Number(s, a) > h then Number(s, a) else h
  }

  /** The numbers that arrived above everything that had arrived before. */
  function Accepted(s: Stream, arrivals: seq<Arrival>): (acc: set<int>)
    requires ArrivalsOk(s, arrivals)
    ensures forall n :: n in acc ==> 0 <= n <= High(s, arrivals)
  {
    if arrivals == [] then {}
    else
      var a, acc := Last(arrivals), Accepted(s, Init(arrivals));
      if InStream(a) && Number(s, a) > High(s, Init(arrivals)) then acc + {Number(s, a)} else acc
  }

  /** Every arrival is within the reach of a 16-bit signed difference from the highest number before it. */
  predicate InWindow(s: Stream, arrivals: seq<Arrival>)
    requires ArrivalsOk(s, arrivals)
  {
    arrivals != [] ==>
      && InWindow(s, Init(arrivals))
      && var a, h := Last(arrivals), High(s, Init(arrivals));
         InStream(a) && h >= 0 ==> -0x8000 <= Number(s, a) - h < 0x8000
  }

  /** The filter lets a packet of the stream through exactly when its true number is a new maximum. */
  lemma FilterIsTrueOrder(s: Stream, high: int, n: nat)
    requires high >= -1 && (high >= 0 ==> -0x8000 <= n - high < 0x8000)
    ensures Decoder.Filter(if high < 0 then -1 else SerialNumbers.Wire(s.base + high),
                           Some(SerialNumbers.Wire(s.base + n)))
         == if n > high then Some(SerialNumbers.Wire(s.base + n) as int) else None
  {
    if high >= 0 {
      SerialNumbers.DeltaIsTrueDifference(s.base + n, s.base + high);
    }
  }

  // ---- what was accepted ----

  /** Packet `k` of message `j` was accepted. */
  predicate Has(s: Stream, acc: set<int>, j: nat, k: int)
    requires j < |s.msgs|
  {
    Start(s, j) + k in acc
  }

  predicate AllIn(s: Stream, acc: set<int>, j: nat)
    requires j < |s.msgs|
  {
    forall k :: 0 <= k < Size(s.msgs[j]) ==> Has(s, acc, j, k)
  }

  predicate SplitAs(s: Stream, j: nat, key: uint16)
    requires j < |s.msgs|
  {
    s.msgs[j].Split? && s.msgs[j].group == key
  }

  // ---- numbering ----

  lemma {:induction false} StartMonotone(s: Stream, i: nat, j: nat)
    requires i < j <= |s.msgs|
    ensures Start(s, i) + Size(s.msgs[i]) <= Start(s, j)
  {
    if i < j - 1 { StartMonotone(s, i, j - 1); }
  }

  /** A number belongs to one message only. */
  lemma OneOwner(s: Stream, j: nat, k: nat, j': nat, k': nat)
    requires j < |s.msgs| && k < Size(s.msgs[j]) && j' < |s.msgs| && k' < Size(s.msgs[j'])
    requires j != j'
    ensures Start(s, j) + k != Start(s, j') + k'
    ensures Start(s, j) + k < Start(s, j') + k' <==> j < j'
  {
    if j < j' { StartMonotone(s, j, j'); } else { StartMonotone(s, j', j); }
  }

  /** Number `Start(s, j) + k` is fragment `k` of message `j`, and above everything accepted. */
  predicate Extends(s: Stream, acc: set<int>, j: nat, k: nat) {
    && StreamOk(s) && j < |s.msgs| && k < Size(s.msgs[j])
    && forall x :: x in acc ==> x < Start(s, j) + k
  }

  lemma OthersKeep(s: Stream, acc: set<int>, j: nat, k: nat, j': nat)
    requires Extends(s, acc, j, k) && j' < |s.msgs| && j' != j
    ensures AllIn(s, acc + {Start(s, j) + k}, j') <==> AllIn(s, acc, j')
    ensures Has(s, acc + {Start(s, j) + k}, j', 0) <==> Has(s, acc, j', 0)
    ensures j' > j ==> !AllIn(s, acc, j') && !Has(s, acc, j', 0)
  {
    var acc' := acc + {Start(s, j) + k};
    assert SentOk(s.msgs[j']);
    forall k' | 0 <= k' < Size(s.msgs[j'])
      ensures Has(s, acc', j', k') <==> Has(s, acc, j', k')
      ensures j' > j ==> !Has(s, acc, j', k')
    {
      OneOwner(s, j, k, j', k');
    }
    assert j' > j ==> !Has(s, acc, j', 0);
  }

  /** Within message `j`, accepting fragment `k` changes nothing but that. */
  lemma OwnKeep(s: Stream, acc: set<int>, j: nat, k: nat)
    requires Extends(s, acc, j, k)
    ensures forall k' :: Has(s, acc + {Start(s, j) + k}, j, k') <==> Has(s, acc, j, k') || k' == k
    ensures forall k' :: k' >= k ==> !Has(s, acc, j, k')
  {
  }

  lemma NotYet(s: Stream, acc: set<int>, j: nat, k: nat)
    requires Extends(s, acc, j, k)
    ensures !Has(s, acc, j, k) && !AllIn(s, acc, j)
  {
  }
}

/** The EQ Mac packet header: its layout, how it is read, and how a sender writes it. */
module WireFormat {
  import opened Bytes
  import opened Options

  const MIN_PACKET := 10
  const CRC_LEN := 4

  datatype FragInfo = FragInfo(group: uint16, index: uint16, total: uint16)

  /** The application part of a packet: `opcode` is on the wire only when the packet is not a later fragment. */
  datatype Body = Body(frag: Option<FragInfo>, opcode: uint16, payload: seq<byte>)

  /** What reading a packet yields once the ARQ field has been reached. */
  datatype Packet = Packet(arq: Option<uint16>, body: Option<Body>)

  // ---- layout ----

  datatype Header = Header(arq: bool, closing: bool, fragment: bool, asq: bool, arsp: bool, b3: bool, ackSize: nat)

  predicate Flag(b: byte, k: bv3) {
    (b >> k) & 1 == 1
  }

  function HeaderOf(a: byte, b: byte): Header {
    Header(Flag(a, 1), Flag(a, 2) && Flag(a, 6), Flag(a, 3), Flag(a, 4), Flag(b, 2), Flag(b, 3),
           Value(((b >> 4) & 1) | (((b >> 5) & 1) << 1) | (((b >> 6) & 1) << 2) | (((b >> 7) & 1) << 3)))
  }

  function ArqAt(h: Header): nat {
    4 + (if h.arsp then 2 else 0) + (if h.b3 then 2 else 0) + h.ackSize
  }

  function FragAt(h: Header): nat {
    ArqAt(h) + if h.arq then 2 else 0
  }

  function AsqAt(h: Header): nat {
    FragAt(h) + if h.fragment then 6 else 0
  }

  function BodyAt(h: Header): nat {
    AsqAt(h) + if h.asq && h.arq then 2 else if h.asq then 1 else 0
  }

  // ---- reading ----

  /** None when the packet ends before its ARQ field does: such a packet leaves no trace. */
  function Parse(buf: seq<byte>): Option<Packet> {
    if |buf| < MIN_PACKET then None
    else
      var h := HeaderOf(buf[0], buf[1]);
      if |buf| < FragAt(h) then None
      else Some(Packet(if h.arq then Some(Be16(buf, ArqAt(h))) else None, ParseBody(h, buf)))
  }

  /** None when the packet is truncated, closes the session, or holds no application data. */
  function ParseBody(h: Header, buf: seq<byte>): Option<Body> {
    if |buf| < BodyAt(h) || h.closing || |buf| <= BodyAt(h) + CRC_LEN then None
    else
      var frag := if h.fragment then Some(ParseFrag(h, buf)) else None;
      if Index(frag) > 0 then Some(Body(frag, 0, buf[BodyAt(h)..|buf| - CRC_LEN]))
      else if |buf| < BodyAt(h) + 2 + CRC_LEN then None
      else Some(Body(frag, Be16(buf, BodyAt(h)), buf[BodyAt(h) + 2..|buf| - CRC_LEN]))
  }

  function ParseFrag(h: Header, buf: seq<byte>): FragInfo
    requires h.fragment && AsqAt(h) <= |buf|
  {
    FragInfo(Be16(buf, FragAt(h)), Be16(buf, FragAt(h) + 2), Be16(buf, FragAt(h) + 4))
  }

  function Index(frag: Option<FragInfo>): nat {
    if frag.Some? then frag.value.index else 0
  }

  // ---- writing ----

  /**
   * Everything in a packet that may differ between two transmissions of the same data: the datagram
   * number, the optional acknowledgement fields, the header bits nobody reads, and the checksum.
   */
  datatype Envelope = Envelope(
    datagram: uint16, arsp: Option<uint16>, b3: Option<uint16>, ack: seq<byte>, asq: bool, asqField: seq<byte>,
    spareA: byte, spareB: byte, crc: seq<byte>)

  predicate EnvelopeOk(env: Envelope, hasArq: bool) {
    && |env.ack| < 16
    && |env.asqField| == (if !env.asq then 0 else if hasArq then 2 else 1)
    && env.spareA & 0x1A == 0 && env.spareA & 0x44 != 0x44
    && env.spareB & 0xFC == 0
    && |env.crc| == CRC_LEN
  }

  /** A later fragment carries no opcode, and an empty one would be taken for a packet without data. */
  predicate BodyOk(body: Body) {
    Index(body.frag) > 0 ==> body.opcode == 0 && body.payload != []
  }

  function FlagsA(env: Envelope, hasArq: bool, hasFrag: bool): byte {
    env.spareA | (if hasArq then 0x02 else 0) | (if hasFrag then 0x08 else 0) | (if env.asq then 0x10 else 0)
  }

  function FlagsB(env: Envelope): byte
    requires |env.ack| < 16
  {
    env.spareB | (if env.arsp.Some? then 0x04 else 0) | (if env.b3.Some? then 0x08 else 0) | (ByteOf(|env.ack|) << 4)
  }

  function PutOption(x: Option<uint16>): (r: seq<byte>)
    ensures |r| == if x.Some? then 2 else 0
  {
    if x.Some? then PutBe16(x.value) else []
  }

  function PutFrag(frag: Option<FragInfo>): (r: seq<byte>)
    ensures |r| == if frag.Some? then 6 else 0
  {
    if frag.None? then []
    else PutBe16(frag.value.group) + PutBe16(frag.value.index) + PutBe16(frag.value.total)
  }

  function Print(env: Envelope, arq: Option<uint16>, body: Body): seq<byte>
    requires EnvelopeOk(env, arq.Some?)
  {
    PrintAcks(env, arq, body) + PutOption(arq) + PutFrag(body.frag) + env.asqField
    + PutOpcode(body) + body.payload + env.crc
  }

  function PutOpcode(body: Body): seq<byte> {
    if Index(body.frag) > 0 then [] else PutBe16(body.opcode)
  }

  function PrintAcks(env: Envelope, arq: Option<uint16>, body: Body): seq<byte>
    requires EnvelopeOk(env, arq.Some?)
  {
    [FlagsA(env, arq.Some?, body.frag.Some?), FlagsB(env)] + PutBe16(env.datagram)
    + PutOption(env.arsp) + PutOption(env.b3) + env.ack
  }

  // ---- reading undoes writing ----

  lemma FlagsAReadBack(env: Envelope, hasArq: bool, hasFrag: bool)
    requires EnvelopeOk(env, hasArq)
    ensures var a := FlagsA(env, hasArq, hasFrag);
            Flag(a, 1) == hasArq && Flag(a, 3) == hasFrag && Flag(a, 4) == env.asq && !(Flag(a, 2) && Flag(a, 6))
  {
  }

  lemma AckSizeReadBack(n: nat, low: byte)
    requires n < 16 && low & 0xF0 == 0
    ensures var b := low | (ByteOf(n) << 4);
            Value(((b >> 4) & 1) | (((b >> 5) & 1) << 1) | (((b >> 6) & 1) << 2) | (((b >> 7) & 1) << 3)) == n
  {
    var m := ByteOf(n);
    assert m < 16;
    var b := low | (m << 4);
    assert (((b >> 4) & 1) | (((b >> 5) & 1) << 1) | (((b >> 6) & 1) << 2) | (((b >> 7) & 1) << 3)) == m;
  }

  lemma FlagsBReadBack(env: Envelope, hasArq: bool)
    requires EnvelopeOk(env, hasArq)
    ensures var b := FlagsB(env); Flag(b, 2) == env.arsp.Some? && Flag(b, 3) == env.b3.Some?
    ensures HeaderOf(0, FlagsB(env)).ackSize == |env.ack|
  {
    AckSizeReadBack(|env.ack|, env.spareB | (if env.arsp.Some? then 0x04 else 0) | (if env.b3.Some? then 0x08 else 0));
  }

  lemma HeaderReadBack(env: Envelope, arq: Option<uint16>, body: Body)
    requires EnvelopeOk(env, arq.Some?)
    ensures HeaderOf(FlagsA(env, arq.Some?, body.frag.Some?), FlagsB(env))
         == Header(arq.Some?, false, body.frag.Some?, env.asq, env.arsp.Some?, env.b3.Some?, |env.ack|)
  {
    hide Flag, FlagsA, FlagsB;
    FlagsAReadBack(env, arq.Some?, body.frag.Some?);
    FlagsBReadBack(env, arq.Some?);
  }

  lemma ReadMiddle(pre: seq<byte>, x: uint16, post: seq<byte>)
    ensures Be16(pre + PutBe16(x) + post, |pre|) == x
  {
    var buf := pre + PutBe16(x) + post;
    assert buf[|pre|..|pre| + 2] == PutBe16(x);
    Be16OfPut(x, buf, |pre|);
  }

  lemma ReadFrag(h: Header, pre: seq<byte>, f: FragInfo, post: seq<byte>)
    requires h.fragment && |pre| == FragAt(h)
    ensures ParseFrag(h, pre + PutFrag(Some(f)) + post) == f
  {
    var buf := pre + PutFrag(Some(f)) + post;
    var g, i, t := PutBe16(f.group), PutBe16(f.index), PutBe16(f.total);
    assert buf == pre + g + (i + t + post);
    ReadMiddle(pre, f.group, i + t + post);
    assert buf == (pre + g) + i + (t + post);
    ReadMiddle(pre + g, f.index, t + post);
    assert buf == (pre + g + i) + t + post;
    ReadMiddle(pre + g + i, f.total, post);
  }

  lemma ReadBody(h: Header, pre: seq<byte>, body: Body, crc: seq<byte>)
    requires |pre| == BodyAt(h) && |crc| == CRC_LEN && BodyOk(body)
    requires !h.closing && h.fragment == body.frag.Some?
    requires body.frag.Some? ==> ParseFrag(h, pre) == body.frag.value
    ensures ParseBody(h, pre + PutOpcode(body) + body.payload + crc) == Some(body)
  {
    hide PutBe16;
    var op := PutOpcode(body);
    var buf := pre + op + body.payload + crc;
    if body.frag.Some? {
      SameFrag(h, pre, op + body.payload + crc);
      assert buf == pre + (op + body.payload + crc);
    }
    if Index(body.frag) == 0 {
      assert buf == pre + PutBe16(body.opcode) + (body.payload + crc);
      ReadMiddle(pre, body.opcode, body.payload + crc);
    }
    assert buf[BodyAt(h) + |op|..|buf| - CRC_LEN] == body.payload;
  }

  lemma SameFrag(h: Header, pre: seq<byte>, post: seq<byte>)
    requires h.fragment && AsqAt(h) <= |pre|
    ensures ParseFrag(h, pre + post) == ParseFrag(h, pre)
  {
  }

  /** Whatever the envelope, reading a written packet gives back its ARQ, fragment info, opcode and payload. */
  lemma ParseOfPrint(env: Envelope, arq: Option<uint16>, body: Body)
    requires EnvelopeOk(env, arq.Some?) && BodyOk(body)
    ensures Parse(Print(env, arq, body)) == Some(Packet(arq, Some(body)))
  {
    hide Flag, FlagsA, FlagsB, HeaderOf, PutFrag, PutOpcode, PutBe16, Be16, ParseFrag, ParseBody, BodyOk, Index;
    var buf := Print(env, arq, body);
    var h := Header(arq.Some?, false, body.frag.Some?, env.asq, env.arsp.Some?, env.b3.Some?, |env.ack|);
    HeaderReadBack(env, arq, body);
    var acks := PrintAcks(env, arq, body);
    assert HeaderOf(buf[0], buf[1]) == h;
    var front := acks + PutOption(arq);
    var pre := front + PutFrag(body.frag) + env.asqField;
    if body.frag.Some? {
      ReadFrag(h, front, body.frag.value, env.asqField);
    }
    ReadBody(h, pre, body, env.crc);
    if arq.Some? {
      var rest := PutFrag(body.frag) + env.asqField + PutOpcode(body) + body.payload + env.crc;
      assert buf == acks + PutBe16(arq.value) + rest;
      ReadMiddle(acks, arq.value, rest);
    }
    PrintedLength(env, arq, body);
  }

  lemma PrintedLength(env: Envelope, arq: Option<uint16>, body: Body)
    requires EnvelopeOk(env, arq.Some?) && BodyOk(body)
    ensures |Print(env, arq, body)| >= MIN_PACKET
  {
    hide FlagsA, FlagsB;
  }

  // ---- and writing undoes reading ----

  function Slice(buf: seq<byte>, at: nat, n: nat): (r: seq<byte>)
    requires at + n <= |buf|
    ensures |r| == n
  {
    buf[at..at + n]
  }

  function OptionalField(buf: seq<byte>, present: bool, at: nat): Option<uint16>
    requires present ==> at + 2 <= |buf|
  {
    if present then Some(Be16(buf, at)) else None
  }

  /** The envelope a packet came in. */
  function EnvelopeOf(buf: seq<byte>): Envelope
    requires |buf| >= 2 && BodyAt(HeaderOf(buf[0], buf[1])) + CRC_LEN <= |buf|
  {
    var h := HeaderOf(buf[0], buf[1]);
    var b3At := 4 + if h.arsp then 2 else 0;
    var ackAt := b3At + if h.b3 then 2 else 0;
    Envelope(Be16(buf, 2), OptionalField(buf, h.arsp, 4), OptionalField(buf, h.b3, b3At), Slice(buf, ackAt, h.ackSize),
             h.asq, Slice(buf, AsqAt(h), BodyAt(h) - AsqAt(h)), buf[0] & 0xE5, buf[1] & 0x03,
             Slice(buf, |buf| - CRC_LEN, CRC_LEN))
  }

  lemma AckSizeIs(b: byte)
    ensures Value(((b >> 4) & 1) | (((b >> 5) & 1) << 1) | (((b >> 6) & 1) << 2) | (((b >> 7) & 1) << 3))
         == Value(b >> 4)
  {
    assert (((b >> 4) & 1) | (((b >> 5) & 1) << 1) | (((b >> 6) & 1) << 2) | (((b >> 7) & 1) << 3)) == b >> 4;
  }

  lemma HighNibble(b: byte)
    ensures Value(b >> 4) < 16
  {
    assert b >> 4 < 16;
  }

  lemma FlagsAWriteBack(env: Envelope, a: byte)
    requires env.spareA == a & 0xE5 && env.asq == Flag(a, 4) && !(Flag(a, 2) && Flag(a, 6))
    ensures FlagsA(env, Flag(a, 1), Flag(a, 3)) == a
    ensures env.spareA & 0x1A == 0 && env.spareA & 0x44 != 0x44
  {
  }

  lemma FlagsBWriteBack(env: Envelope, b: byte)
    requires env.spareB == b & 0x03 && env.arsp.Some? == Flag(b, 2) && env.b3.Some? == Flag(b, 3)
    requires |env.ack| == Value(b >> 4)
    ensures |env.ack| < 16 && FlagsB(env) == b
    ensures env.spareB & 0xFC == 0
  {
    HighNibble(b);
    ByteOfValue(b >> 4);
    assert ByteOf(|env.ack|) == b >> 4;
  }

  lemma EnvelopeFits(buf: seq<byte>)
    requires |buf| >= 2 && BodyAt(HeaderOf(buf[0], buf[1])) + CRC_LEN <= |buf| && !HeaderOf(buf[0], buf[1]).closing
    ensures var h, env := HeaderOf(buf[0], buf[1]), EnvelopeOf(buf);
            EnvelopeOk(env, h.arq) && FlagsA(env, h.arq, h.fragment) == buf[0] && FlagsB(env) == buf[1]
  {
    hide Flag, FlagsA, FlagsB, Be16;
    var env := EnvelopeOf(buf);
    AckSizeIs(buf[1]);
    FlagsAWriteBack(env, buf[0]);
    FlagsBWriteBack(env, buf[1]);
  }

  lemma FieldBack(buf: seq<byte>, present: bool, at: nat)
    requires present ==> at + 2 <= |buf|
    requires at <= |buf|
    ensures PutOption(OptionalField(buf, present, at)) == Slice(buf, at, if present then 2 else 0)
    ensures buf[..at] + PutOption(OptionalField(buf, present, at)) == buf[..at + if present then 2 else 0]
  {
    hide Be16, PutBe16;
    if present { PutOfBe16(buf, at); }
  }

  lemma FragBack(h: Header, buf: seq<byte>)
    requires h.fragment && AsqAt(h) <= |buf|
    ensures PutFrag(Some(ParseFrag(h, buf))) == Slice(buf, FragAt(h), 6)
  {
    hide Be16, PutBe16;
    var at := FragAt(h);
    PutOfBe16(buf, at);
    PutOfBe16(buf, at + 2);
    PutOfBe16(buf, at + 4);
  }

  lemma SliceJoin(buf: seq<byte>, at: nat, n: nat)
    requires at + n <= |buf|
    ensures buf[..at] + Slice(buf, at, n) == buf[..at + n]
  {
  }

  lemma AcksBack(buf: seq<byte>, arq: Option<uint16>, body: Body)
    requires |buf| >= MIN_PACKET && BodyAt(HeaderOf(buf[0], buf[1])) + CRC_LEN <= |buf|
    requires var h := HeaderOf(buf[0], buf[1]); !h.closing && arq.Some? == h.arq && body.frag.Some? == h.fragment
    ensures EnvelopeOk(EnvelopeOf(buf), arq.Some?)
    ensures PrintAcks(EnvelopeOf(buf), arq, body) == buf[..ArqAt(HeaderOf(buf[0], buf[1]))]
  {
    hide Flag, FlagsA, FlagsB, Be16, PutBe16, HeaderOf, PutOption, OptionalField, Slice, EnvelopeOk;
    var h, env := HeaderOf(buf[0], buf[1]), EnvelopeOf(buf);
    var b3At := 4 + if h.arsp then 2 else 0;
    var ackAt := b3At + if h.b3 then 2 else 0;
    EnvelopeFits(buf);
    HeadBack(buf);
    FieldBack(buf, h.arsp, 4);
    FieldBack(buf, h.b3, b3At);
    SliceJoin(buf, ackAt, h.ackSize);
  }

  lemma HeadBack(buf: seq<byte>)
    requires |buf| >= 4
    ensures [buf[0], buf[1]] + PutBe16(Be16(buf, 2)) == buf[..4]
  {
    hide Be16, PutBe16;
    PutOfBe16(buf, 2);
  }

  lemma TailBack(h: Header, buf: seq<byte>, body: Body)
    requires ParseBody(h, buf) == Some(body)
    ensures BodyAt(h) + CRC_LEN <= |buf| && !h.closing && body.frag.Some? == h.fragment && BodyOk(body)
    ensures buf[..BodyAt(h)] + PutOpcode(body) + body.payload + Slice(buf, |buf| - CRC_LEN, CRC_LEN) == buf
  {
    hide Be16, PutBe16, ParseFrag;
    if Index(body.frag) == 0 { PutOfBe16(buf, BodyAt(h)); }
    var at, end := BodyAt(h), |buf| - CRC_LEN;
    var opAt := at + |PutOpcode(body)|;
    assert PutOpcode(body) == buf[at..opAt];
    assert body.payload == buf[opAt..end];
    JoinFour(buf, at, opAt, end);
  }

  lemma JoinFour(buf: seq<byte>, a: nat, b: nat, c: nat)
    requires a <= b <= c <= |buf|
    ensures buf[..a] + buf[a..b] + buf[b..c] + Slice(buf, c, |buf| - c) == buf
  {
    assert buf[..a] + buf[a..b] == buf[..b];
    assert buf[..b] + buf[b..c] == buf[..c];
    SliceJoin(buf, c, |buf| - c);
    assert buf[..|buf|] == buf;
  }

  /** Whatever reads as a packet with application data is that packet, written in some envelope. */
  lemma PrintOfParse(buf: seq<byte>) returns (env: Envelope)
    requires Parse(buf).Some? && Parse(buf).value.body.Some?
    ensures var p := Parse(buf).value;
            && EnvelopeOk(env, p.arq.Some?) && BodyOk(p.body.value)
            && Print(env, p.arq, p.body.value) == buf
  {
    hide Flag, FlagsA, FlagsB, HeaderOf, Be16, PutBe16, PutFrag, PutOption, PutOpcode;
    hide ParseBody, PrintAcks, Slice, ParseFrag;
    var h, p := HeaderOf(buf[0], buf[1]), Parse(buf).value;
    var body := p.body.value;
    TailBack(h, buf, body);
    AcksBack(buf, p.arq, body);
    env := EnvelopeOf(buf);
    FieldBack(buf, h.arq, ArqAt(h));
    FragFieldBack(h, buf, body);
    SliceJoin(buf, FragAt(h), AsqAt(h) - FragAt(h));
    SliceJoin(buf, AsqAt(h), BodyAt(h) - AsqAt(h));
  }

  lemma FragFieldBack(h: Header, buf: seq<byte>, body: Body)
    requires ParseBody(h, buf) == Some(body)
    ensures AsqAt(h) <= |buf| && PutFrag(body.frag) == Slice(buf, FragAt(h), AsqAt(h) - FragAt(h))
  {
    hide Be16, PutBe16, PutFrag;
    if h.fragment { FragBack(h, buf); } else { NoFrag(); }
  }

  lemma NoFrag()
    ensures PutFrag(None) == []
  {
  }
}

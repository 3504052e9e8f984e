/** What the decoder makes of a datagram, byte by byte: masks, offsets and constants as they stand on the wire. */
module PacketBytes {
  import opened Bytes
  import opened Options
  import opened WireFormat
  import Decoder
  import Network

  // ---- the layout ----

  predicate HasArq(buf: seq<byte>)
    requires |buf| >= 2
  {
    buf[0] & 0x02 != 0
  }

  predicate HasFrag(buf: seq<byte>)
    requires |buf| >= 2
  {
    buf[0] & 0x08 != 0
  }

  /** Both bits of the session's end. */
  predicate Closes(buf: seq<byte>)
    requires |buf| >= 2
  {
    buf[0] & 0x44 == 0x44
  }

  /** Flags, datagram number and the optional acknowledgement fields. */
  function AcksEnd(buf: seq<byte>): nat
    requires |buf| >= 2
  {
    4 + (if buf[1] & 0x04 != 0 then 2 else 0) + (if buf[1] & 0x08 != 0 then 2 else 0) + Value(buf[1] >> 4)
  }

  function ArqEnd(buf: seq<byte>): nat
    requires |buf| >= 2
  {
    AcksEnd(buf) + if HasArq(buf) then 2 else 0
  }

  /** Fragment info takes 6 bytes; an ASQ takes 2 behind an ARQ and 1 otherwise. */
  function HeaderEnd(buf: seq<byte>): nat
    requires |buf| >= 2
  {
    ArqEnd(buf) + (if HasFrag(buf) then 6 else 0)
    + if buf[0] & 0x10 == 0 then 0 else if HasArq(buf) then 2 else 1
  }

  /** A 16-bit field, the most significant byte first. */
  function Big16(buf: seq<byte>, off: nat): (x: int)
    requires off + 2 <= |buf|
    ensures 0 <= x < 0x1_0000
  {
    256 * Value(buf[off]) + Value(buf[off + 1])
  }

  /** The packet is long enough to be one, and its fields fit up to its ARQ. */
  predicate IsPacket(buf: seq<byte>) {
    |buf| >= 10 && ArqEnd(buf) <= |buf|
  }

  /** Something lies between the header and the 4-byte checksum, room for an opcode included unless it has none. */
  predicate CarriesData(buf: seq<byte>)
    requires IsPacket(buf)
  {
    && !Closes(buf) && |buf| > HeaderEnd(buf) + 4
    && (|buf| >= HeaderEnd(buf) + 6 || (HasFrag(buf) && Big16(buf, ArqEnd(buf) + 2) > 0))
  }

  // ---- reading is that ----

  lemma Masks(b: byte)
    ensures Flag(b, 1) <==> b & 0x02 != 0
    ensures Flag(b, 2) <==> b & 0x04 != 0
    ensures Flag(b, 3) <==> b & 0x08 != 0
    ensures Flag(b, 4) <==> b & 0x10 != 0
    ensures Flag(b, 2) && Flag(b, 6) <==> b & 0x44 == 0x44
  {
  }

  lemma HeaderIs(buf: seq<byte>)
    requires |buf| >= 2
    ensures var h := HeaderOf(buf[0], buf[1]);
            && h.arq == HasArq(buf) && h.fragment == HasFrag(buf) && h.closing == Closes(buf)
            && h.asq == (buf[0] & 0x10 != 0)
            && ArqAt(h) == AcksEnd(buf) && FragAt(h) == ArqEnd(buf) && BodyAt(h) == HeaderEnd(buf)
  {
    hide Flag, Value;
    Masks(buf[0]);
    Masks(buf[1]);
    AckSizeIs(buf[1]);
  }

  lemma Big16Is(buf: seq<byte>, off: nat)
    requires off + 2 <= |buf|
    ensures Be16(buf, off) == Big16(buf, off)
  {
  }

  /** Exactly the packets whose fields fit up to the ARQ are read; it is the two bytes behind the acknowledgements. */
  lemma ParseOfBytes(buf: seq<byte>)
    ensures Parse(buf).Some? <==> IsPacket(buf)
    ensures IsPacket(buf) ==> Parse(buf).value.arq == if HasArq(buf) then Some(Big16(buf, AcksEnd(buf))) else None
    ensures IsPacket(buf) ==> (Parse(buf).value.body.Some? <==> CarriesData(buf))
  {
    hide HeaderOf, Be16;
    if |buf| >= 10 {
      HeaderIs(buf);
      if IsPacket(buf) {
        if HasArq(buf) { Big16Is(buf, AcksEnd(buf)); }
        if HasFrag(buf) && ArqEnd(buf) + 6 <= |buf| { Big16Is(buf, ArqEnd(buf) + 2); }
      }
    }
  }

  function FragOf(buf: seq<byte>): Option<FragInfo>
    requires |buf| >= 2 && HeaderEnd(buf) <= |buf|
  {
    if !HasFrag(buf) then None
    else Some(FragInfo(Big16(buf, ArqEnd(buf)), Big16(buf, ArqEnd(buf) + 2), Big16(buf, ArqEnd(buf) + 4)))
  }

  lemma FragIs(h: Header, buf: seq<byte>)
    requires |buf| >= 2 && HeaderEnd(buf) <= |buf| && h == HeaderOf(buf[0], buf[1])
    ensures AsqAt(h) <= |buf| && h.fragment == HasFrag(buf)
    ensures (if h.fragment then Some(ParseFrag(h, buf)) else None) == FragOf(buf)
  {
    hide HeaderOf, Be16, Big16, ArqEnd;
    HeaderIs(buf);
    if HasFrag(buf) {
      Big16Is(buf, ArqEnd(buf));
      Big16Is(buf, ArqEnd(buf) + 2);
      Big16Is(buf, ArqEnd(buf) + 4);
    }
  }

  lemma ReadAs(h: Header, buf: seq<byte>)
    requires ParseBody(h, buf).Some?
    ensures BodyAt(h) + 4 < |buf| && AsqAt(h) <= |buf|
    ensures var body, frag := ParseBody(h, buf).value, if h.fragment then Some(ParseFrag(h, buf)) else None;
            && body.frag == frag
            && (if Index(frag) > 0 then body.opcode == 0 && body.payload == buf[BodyAt(h)..|buf| - 4]
                else BodyAt(h) + 6 <= |buf| && body.opcode == Be16(buf, BodyAt(h))
                     && body.payload == buf[BodyAt(h) + 2..|buf| - 4])
  {
    hide Be16, ParseFrag;
  }

  /** The three fields of the fragment info, the opcode and the payload, where they lie. */
  lemma DataOfBytes(buf: seq<byte>)
    requires IsPacket(buf) && CarriesData(buf)
    ensures Parse(buf).Some? && Parse(buf).value.body.Some?
    ensures var body, end := Parse(buf).value.body.value, HeaderEnd(buf);
            && body.frag == FragOf(buf)
            && (if body.frag.Some? && body.frag.value.index > 0
                then body.opcode == 0 && body.payload == buf[end..|buf| - 4]
                else |buf| >= end + 6 && body.opcode == Big16(buf, end) && body.payload == buf[end + 2..|buf| - 4])
  {
    hide HeaderOf, Be16, Big16, ArqEnd, HeaderEnd, ParseBody, ParseFrag;
    var h := HeaderOf(buf[0], buf[1]);
    ParseOfBytes(buf);
    HeaderIs(buf);
    ReadAs(h, buf);
    FragIs(h, buf);
    if Index(FragOf(buf)) == 0 { Big16Is(buf, HeaderEnd(buf)); }
  }

  // ---- the high-water mark ----

  /** The signed 16-bit difference of two numbers is positive. */
  predicate Ahead(x: int, y: int) {
    0 < (x - y) % 65536 < 32768
  }

  /** A numbered packet that is new moves the mark to its number, whatever follows the number, if anything does. */
  lemma NewNumberMovesMark(st: Decoder.DecoderState, buf: seq<byte>)
    requires -1 <= st.lastArq < 65536 && IsPacket(buf) && HasArq(buf)
    requires st.lastArq < 0 || Ahead(Big16(buf, AcksEnd(buf)), st.lastArq)
    ensures Decoder.Assemble(st, buf).0.lastArq == Big16(buf, AcksEnd(buf))
    ensures !CarriesData(buf) ==>
              Decoder.Assemble(st, buf) == (Decoder.DecoderState(Big16(buf, AcksEnd(buf)), st.asm), [])
  {
    hide Parse, CarriesData, Decoder.Deliver;
    ParseOfBytes(buf);
  }

  /** One that is not new leaves everything as it was, and nothing comes out. */
  lemma OldNumberIsDropped(st: Decoder.DecoderState, buf: seq<byte>)
    requires -1 <= st.lastArq < 65536 && IsPacket(buf) && HasArq(buf)
    requires st.lastArq >= 0 && !Ahead(Big16(buf, AcksEnd(buf)), st.lastArq)
    ensures Decoder.Assemble(st, buf) == (st, [])
  {
    hide Parse, CarriesData, Decoder.Deliver;
    ParseOfBytes(buf);
  }

  /** A packet without a number never moves the mark, and what is no packet leaves no trace. */
  lemma NoNumberNoMark(st: Decoder.DecoderState, buf: seq<byte>)
    requires -1 <= st.lastArq < 65536
    ensures IsPacket(buf) && !HasArq(buf) ==> Decoder.Assemble(st, buf).0.lastArq == st.lastArq
    ensures !IsPacket(buf) || (!HasArq(buf) && !CarriesData(buf)) ==> Decoder.Assemble(st, buf) == (st, [])
  {
    hide Parse, CarriesData, Decoder.Deliver;
    ParseOfBytes(buf);
  }

  // ---- numbered packets without a message ----

  lemma HoldsNothingIff(buf: seq<byte>, arq: uint16)
    ensures Network.HoldsNothing(buf, arq)
       <==> IsPacket(buf) && HasArq(buf) && Big16(buf, AcksEnd(buf)) == arq && !CarriesData(buf)
  {
    hide Parse, CarriesData;
    ParseOfBytes(buf);
  }

  /** Packets with both closing bits, cut short behind the number, or ending with the header: all hold nothing. */
  lemma WaysToHoldNothing(buf: seq<byte>)
    requires IsPacket(buf) && HasArq(buf)
    requires Closes(buf) || |buf| < HeaderEnd(buf) || |buf| <= HeaderEnd(buf) + 4
    ensures Network.HoldsNothing(buf, Big16(buf, AcksEnd(buf)))
  {
    hide Parse;
    HoldsNothingIff(buf, Big16(buf, AcksEnd(buf)));
  }

  /** A late data packet behind a numbered closing packet is dropped, and nothing of it comes out. */
  lemma ClosingShutsOutOlder(st: Decoder.DecoderState, closing: seq<byte>, late: seq<byte>)
    requires -1 <= st.lastArq < 65536 && IsPacket(closing) && HasArq(closing) && Closes(closing)
    requires st.lastArq < 0 || Ahead(Big16(closing, AcksEnd(closing)), st.lastArq)
    requires IsPacket(late) && HasArq(late) && !Ahead(Big16(late, AcksEnd(late)), Big16(closing, AcksEnd(closing)))
    ensures var after := Decoder.DecoderState(Big16(closing, AcksEnd(closing)), st.asm);
            Decoder.Assemble(st, closing) == (after, []) && Decoder.Assemble(after, late) == (after, [])
  {
    hide Decoder.Assemble, AcksEnd;
    NewNumberMovesMark(st, closing);
    OldNumberIsDropped(Decoder.DecoderState(Big16(closing, AcksEnd(closing)), st.asm), late);
  }
}

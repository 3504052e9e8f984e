/** Machine integers, and the byte orders the wire formats use. */
module Bytes {

  type byte = bv8
  type uint16 = x: int | 0 <= x < 0x1_0000
  type uint32 = x: int | 0 <= x < 0x1_0000_0000

  /** A byte as a number. */
  function Value(b: byte): (v: nat)
    ensures v < 0x100
  {
    b as int
  }

  lemma NextByte(b: byte)
    requires b < 255
    ensures Value(b + 1) == Value(b) + 1
  {
  }

  /** The byte whose value is `x`. */
  function ByteOf(x: nat): (b: byte)
    requires x < 0x100
    ensures Value(b) == x
  {
    if x == 0 then 0
    else
      NextByte(ByteOf(x - 1));
      ByteOf(x - 1) + 1
  }

  lemma SameByte(a: byte, b: byte)
    requires Value(a) == Value(b)
    ensures a == b
  {
  }

  lemma ByteOfValue(b: byte)
    ensures ByteOf(Value(b)) == b
  {
    SameByte(ByteOf(Value(b)), b);
  }

  /** A 16-bit value from its two digits. */
  function TwoDigits(hi: nat, lo: nat): uint16
    requires hi < 0x100 && lo < 0x100
  {
    hi * 0x100 + lo
  }

  lemma Digits(hi: nat, lo: nat)
    requires hi < 0x100 && lo < 0x100
    ensures TwoDigits(hi, lo) % 0x100 == lo && TwoDigits(hi, lo) / 0x100 == hi
  {
  }

  lemma DigitsBack(x: uint16)
    ensures TwoDigits(x / 0x100, x % 0x100) == x
  {
  }

  lemma BelowMax(b: byte)
    requires b != 0xff
    ensures Value(b) < 0xff
  {
    if Value(b) == 0xff { SameByte(b, 0xff); }
  }

  // ---- big-endian fields ----

  function Be16(buf: seq<byte>, off: nat): uint16
    requires off + 2 <= |buf|
  {
    TwoDigits(Value(buf[off]), Value(buf[off + 1]))
  }

  function PutBe16(x: uint16): (r: seq<byte>)
    ensures |r| == 2
  {
    [ByteOf(x / 0x100), ByteOf(x % 0x100)]
  }

  lemma Be16OfPut(x: uint16, buf: seq<byte>, off: nat)
    requires off + 2 <= |buf| && buf[off..off + 2] == PutBe16(x)
    ensures Be16(buf, off) == x
  {
    hide TwoDigits, ByteOf;
    assert buf[off] == buf[off..off + 2][0];
    assert buf[off + 1] == buf[off..off + 2][1];
    DigitsBack(x);
  }

  lemma PutOfBe16(buf: seq<byte>, off: nat)
    requires off + 2 <= |buf|
    ensures PutBe16(Be16(buf, off)) == buf[off..off + 2]
  {
    hide ByteOf, TwoDigits;
    Digits(Value(buf[off]), Value(buf[off + 1]));
    ByteOfValue(buf[off]);
    ByteOfValue(buf[off + 1]);
  }

  // ---- chunks ----

  function Concat(chunks: seq<seq<byte>>): seq<byte> {
    if chunks == [] then [] else chunks[0] + Concat(chunks[1..])
  }

  lemma {:induction false} ConcatSnoc(chunks: seq<seq<byte>>, last: seq<byte>)
    ensures Concat(chunks + [last]) == Concat(chunks) + last
  {
    if chunks == [] {
      assert [last][1..] == [] && [] + [last] == [last];
    } else {
      ConcatSnoc(chunks[1..], last);
      assert (chunks + [last])[1..] == chunks[1..] + [last];
    }
  }

  // ---- 64-bit words as they lie in memory: least significant byte first ----

  function Word(b: seq<byte>): bv64
    requires |b| == 8
  {
    b[0] as bv64 | (b[1] as bv64 << 8) | (b[2] as bv64 << 16) | (b[3] as bv64 << 24)
    | (b[4] as bv64 << 32) | (b[5] as bv64 << 40) | (b[6] as bv64 << 48) | (b[7] as bv64 << 56)
  }

  function PutWord(w: bv64): (r: seq<byte>)
    ensures |r| == 8
  {
    [(w & 0xff) as byte, ((w >> 8) & 0xff) as byte, ((w >> 16) & 0xff) as byte, ((w >> 24) & 0xff) as byte,
     ((w >> 32) & 0xff) as byte, ((w >> 40) & 0xff) as byte, ((w >> 48) & 0xff) as byte, ((w >> 56) & 0xff) as byte]
  }

  lemma WordOfPut(w: bv64)
    ensures Word(PutWord(w)) == w
  {
  }

  lemma PutOfWord(b: seq<byte>)
    requires |b| == 8
    ensures PutWord(Word(b)) == b
  {
  }
}

/** BitStream: reading bit fields that start and end anywhere in a byte. */
module Bits {
  import opened Bytes

  function Pow2(n: nat): (p: nat)
    ensures p >= 1
  {
    if n == 0 then 1 else 2 * Pow2(n - 1)
  }

  const WORD32 := 0x1_0000_0000

  /** `x >> n`. */
  function Shr(x: nat, n: nat): nat {
    DivNotNegative(x, Pow2(n));
    x / Pow2(n)
  }

  lemma DivNotNegative(x: nat, d: nat)
    requires d > 0
    ensures x / d >= 0
  {
  }

  /** `x & ((1 << n) - 1)`. */
  function Low(x: nat, n: nat): nat {
    x % Pow2(n)
  }

  /** `x << n`, in 32 bits. */
  function Shl32(x: uint32, n: nat): uint32 {
    x * Pow2(n) % WORD32
  }

  // ---- what a field means: its bits, most significant first ----

  function BitAt(data: seq<byte>, i: nat): (b: nat)
    requires i < 8 * |data|
    ensures b < 2
  {
    Shr(Value(data[i / 8]), 7 - i % 8) % 2
  }

  function Field(data: seq<byte>, at: nat, n: nat): nat
    requires at + n <= 8 * |data|
  {
    if n == 0 then 0 else 2 * Field(data, at, n - 1) + BitAt(data, at + n - 1)
  }

  /** Reading `a` bits and then `b` bits gives the two parts of reading them at once. */
  lemma {:induction false} FieldSplit(data: seq<byte>, at: nat, a: nat, b: nat)
    requires at + a + b <= 8 * |data|
    ensures Field(data, at, a + b) == Field(data, at, a) * Pow2(b) + Field(data, at + a, b)
  {
    hide BitAt;
    if b > 0 {
      FieldSplit(data, at, a, b - 1);
      Regroup(Field(data, at, a), Pow2(b - 1));
    }
  }

  lemma Regroup(x: int, p: int)
    ensures 2 * (x * p) == x * (2 * p)
  {
  }

  lemma {:induction false} FieldBound(data: seq<byte>, at: nat, n: nat)
    requires at + n <= 8 * |data|
    ensures Field(data, at, n) < Pow2(n)
  {
    hide BitAt;
    if n > 0 { FieldBound(data, at, n - 1); }
  }

  // ---- arithmetic of shifts and masks ----

  lemma DivModUnique(q: int, r: int, d: int)
    requires 0 <= r < d
    ensures (q * d + r) / d == q && (q * d + r) % d == r
  {
    var x := q * d + r;
    var q', r' := x / d, x % d;
    assert x == q' * d + r';
    assert (q - q') * d == r' - r;
    if q > q' { AtLeast(q - q', d); } else if q < q' { AtLeast(q' - q, d); }
  }

  lemma AtLeast(k: int, d: int)
    requires k >= 1 && d >= 0
    ensures k * d >= d
  {
  }

  /** The low bits of `x`, one more of them. */
  lemma ModDouble(x: nat, m: nat)
    requires m > 0
    ensures x % (2 * m) == 2 * (x / 2 % m) + x % 2
  {
    var h, r := x / 2, x % 2;
    var q, s := h / m, h % m;
    assert h == q * m + s;
    assert x == q * (2 * m) + (2 * s + r) by { Regroup(q, m); }
    DivModUnique(q, 2 * s + r, 2 * m);
  }

  lemma DivDouble(x: nat, m: nat)
    requires m > 0
    ensures x / (2 * m) == x / m / 2
  {
    var q, r := x / m, x % m;
    var h, b := q / 2, q % 2;
    assert x == q * m + r;
    assert q == 2 * h + b;
    assert x == h * (2 * m) + (b * m + r) by { Regroup(h, m); Distribute(2 * h, b, m); Associate(h, m); }
    DivModUnique(h, b * m + r, 2 * m);
  }

  lemma Distribute(a: int, b: int, m: int)
    ensures (a + b) * m == a * m + b * m
  {
  }

  lemma Associate(h: int, m: int)
    ensures (2 * h) * m == 2 * (h * m)
  {
  }

  /** A number in three digits: `q` above, `s` of base `n`, `r` of base `m`. */
  function Digits3(q: nat, s: nat, r: nat, n: nat, m: nat): int {
    (q * n + s) * m + r
  }

  lemma UpperDigits(q: nat, s: nat, r: nat, n: nat, m: nat)
    requires s < n && r < m
    ensures Digits3(q, s, r, n, m) / m % n == s
  {
    DivModUnique(q * n + s, r, m);
    DivModUnique(q, s, n);
  }

  lemma LowerDigits(q: nat, s: nat, r: nat, n: nat, m: nat)
    requires s < n && r < m
    ensures Digits3(q, s, r, n, m) % (m * n) == s * m + r
    ensures Digits3(q, s, r, n, m) / (m * n) == q
  {
    Distribute(q * n, s, m);
    Commute(q, n, m);
    Below(s, n, r, m);
    DivModUnique(q, s * m + r, m * n);
  }

  lemma InDigits(x: nat, n: nat, m: nat)
    requires n > 0 && m > 0
    ensures x == Digits3(x / m / n, x / m % n, x % m, n, m)
  {
    var h := x / m;
    assert h == (h / n) * n + h % n;
    assert x == h * m + x % m;
  }

  /** Masking and then shifting is shifting and then masking. */
  lemma MaskShift(x: nat, a: nat, b: nat)
    ensures Shr(Low(x, a + b), a) == Low(Shr(x, a), b)
  {
    Pow2Add(a, b);
    MaskShiftBy(x, Pow2(a), Pow2(b));
  }

  lemma MaskShiftBy(x: nat, m: nat, n: nat)
    requires n > 0 && m > 0
    ensures x % (m * n) / m == x / m % n
  {
    hide Digits3;
    var q, s, r := x / m / n, x / m % n, x % m;
    InDigits(x, n, m);
    LowerDigits(q, s, r, n, m);
    UpperDigits(q, s, r, n, m);
    DivModUnique(s, r, m);
  }

  lemma Commute(a: int, b: int, c: int)
    ensures (a * b) * c == a * (c * b)
  {
  }

  lemma Below(s: int, n: int, r: int, m: int)
    requires 0 <= s < n && 0 <= r < m
    ensures 0 <= s * m + r < m * n
  {
    assert s * m <= (n - 1) * m;
    assert (n - 1) * m == m * n - m;
  }

  lemma {:induction false} Pow2Add(a: nat, b: nat)
    ensures Pow2(a + b) == Pow2(a) * Pow2(b)
  {
    if a > 0 {
      Pow2Add(a - 1, b);
      assert Pow2(a + b) == 2 * Pow2(a - 1 + b);
      Associate(Pow2(a - 1), Pow2(b));
    }
  }

  lemma Pow2At8()
    ensures Pow2(8) == 0x100
  {
    assert Pow2(4) == 16;
    Pow2Add(4, 4);
  }

  lemma Pow2At32()
    ensures Pow2(32) == WORD32
  {
    Pow2At8();
    Pow2Add(8, 8);
    Pow2Add(16, 16);
  }

  lemma Pow2Next(n: nat)
    ensures Pow2(n + 1) == 2 * Pow2(n)
  {
  }

  lemma OneMoreBit(x: nat, k: nat, n: nat)
    ensures Low(Shr(x, k), n + 1) == 2 * Low(Shr(x, k + 1), n) + Shr(x, k) % 2
  {
    hide Pow2;
    Pow2Next(k);
    Pow2Next(n);
    DivDouble(x, Pow2(k));
    ModDouble(x / Pow2(k), Pow2(n));
  }

  lemma LowAll(x: nat, n: nat)
    requires x < Pow2(n)
    ensures Low(x, n) == x
  {
    DivModUnique(0, x, Pow2(n));
  }

  lemma TopBits(x: nat, n: nat)
    requires x < 0x100 && n <= 8
    ensures Shr(x, 8 - n) < Pow2(n)
  {
    Pow2Add(n, 8 - n);
    Pow2At8();
    if x / Pow2(8 - n) >= Pow2(n) {
      DivTimes(x, Pow2(8 - n), Pow2(n));
    }
  }

  lemma DivTimes(x: nat, m: nat, n: nat)
    requires m > 0 && x / m >= n
    ensures x >= n * m
  {
    assert x == (x / m) * m + x % m;
    Scale(n, x / m, m);
  }

  lemma Scale(a: nat, b: nat, m: nat)
    requires a <= b
    ensures a * m <= b * m
  {
  }

  /** A field inside one byte is that byte shifted and masked. */
  lemma {:induction false} FieldInByte(data: seq<byte>, q: nat, o: nat, n: nat)
    requires q < |data| && o + n <= 8
    ensures Field(data, 8 * q + o, n) == Low(Shr(Value(data[q]), 8 - o - n), n)
  {
    hide Shr, Pow2, BitAt;
    if n > 0 {
      hide Low;
      FieldInByte(data, q, o, n - 1);
      OneMoreBit(Value(data[q]), 8 - o - n, n - 1);
      BitInByte(data, q, o + n - 1);
    } else {
      LowNone(Shr(Value(data[q]), 8 - o));
    }
  }

  lemma LowNone(x: nat)
    ensures Low(x, 0) == 0
  {
  }

  lemma BitInByte(data: seq<byte>, q: nat, o: nat)
    requires q < |data| && o < 8
    ensures BitAt(data, 8 * q + o) == Shr(Value(data[q]), 7 - o) % 2
  {
    assert (8 * q + o) / 8 == q && (8 * q + o) % 8 == o;
  }

  /** Shifting `t` more bits into a 32-bit register, whatever has fallen out at the top. */
  lemma ShiftIn(x: nat, t: nat, v: nat)
    requires t <= 32 && v < Pow2(t)
    ensures Shl32(x % WORD32, t) + v == (x * Pow2(t) + v) % WORD32
  {
    Pow2Add(t, 32 - t);
    Pow2At32();
    ShiftInBy(x, Pow2(t), Pow2(32 - t), v);
  }

  lemma ShiftInBy(x: nat, m: nat, n: nat, v: nat)
    requires n > 0 && v < m
    ensures x % (m * n) * m % (m * n) + v == (x * m + v) % (m * n)
  {
    // Only the low digit of `x` survives, and `v` fits below it.
    var q, s := x / n, x % n;
    assert x == q * n + s;
    LowerDigits(q, s, v, n, m);
    LowDigit(x, m, n);
  }

  lemma LowDigit(x: nat, m: nat, n: nat)
    requires n > 0 && m > 0
    ensures x % (m * n) * m % (m * n) == x % n * m
  {
    var y := x % (m * n);
    var q, s := y / n, y % n;
    assert y == q * n + s;
    LowerDigits(q, s, 0, n, m);
    assert Digits3(q, s, 0, n, m) == y * m;
    ModMod(x, m, n);
  }

  lemma ModMod(x: nat, m: nat, n: nat)
    requires n > 0 && m > 0
    ensures x % (m * n) % n == x % n
  {
    hide Digits3;
    var q, s, r := x / n / m, x / n % m, x % n;
    InDigits(x, m, n);
    LowerDigits(q, s, r, m, n);
    Swap(n, m);
    DivModUnique(s, r, n);
  }

  lemma Swap(a: int, b: int)
    ensures a * b == b * a
  {
  }

  // ---- the reader ----

  class BitStream {
    const data: seq<byte>
    var currentBit: nat

    constructor (data: seq<byte>)
      ensures this.data == data && currentBit == 0
    {
      this.data, currentBit := data, 0;
    }

    /** What is left of the byte that the cursor is inside of; nothing when it is between bytes. */
    function Lead(): (n: nat)
      reads this
      ensures n < 8 && (currentBit + n) % 8 == 0
    {
      if currentBit % 8 == 0 then 0 else 8 - currentBit % 8
    }

    method ReadUInt(bitCount: nat) returns (out: uint32)
      modifies this`currentBit
      ensures currentBit == old(currentBit) + if old(currentBit) + bitCount <= 8 * |data| then bitCount else 0
      ensures out == if old(currentBit) + bitCount > 8 * |data| then 0
                     else Field(data, old(currentBit), bitCount) % WORD32
    {
      if currentBit + bitCount > 8 * |data| { return 0; }
      var lead := Lead();
      if lead > bitCount {
        out := InsideByte(currentBit, bitCount);
        currentBit := currentBit + bitCount;
        return;
      }
      out := AcrossBytes(currentBit, lead, bitCount);
      currentBit := currentBit + bitCount;
    }

    /** All the bits come from one byte, short of its end. */
    method InsideByte(at: nat, n: nat) returns (out: uint32)
      requires at + n <= 8 * |data| && at % 8 + n < 8 && at / 8 < |data|
      ensures out == Field(data, at, n) % WORD32
    {
      hide Pow2, Field, Low, Shr;
      var lead := 8 - at % 8;
      var v := Value(data[at / 8]);
      FieldInByte(data, at / 8, at % 8, n);
      FieldBound(data, at, n);
      MaskShift(v, lead - n, n);
      SmallPow2(n);
      out := Shr(Low(v, lead), lead - n);
    }

    /** A partial byte in front, whole bytes, and a partial one at the end. */
    method AcrossBytes(at: nat, lead: nat, n: nat) returns (out: uint32)
      requires at + n <= 8 * |data| && lead < 8 && lead <= n
      requires (at + lead) % 8 == 0 && (lead == 0 || at % 8 == 8 - lead)
      ensures out == Field(data, at, n) % WORD32
    {
      hide Pow2, Field, Low, Shr;
      var middle := (n - lead) / 8;
      var tail := n - (lead + middle * 8);
      var byteAt := (at + lead) / 8;
      out := LeadBits(at, lead);
      for i := 0 to middle
        invariant out == Field(data, at, lead + 8 * i) % WORD32
      {
        assert at + (lead + 8 * i) == 8 * (byteAt + i);
        WholeByte(data, byteAt + i);
        out := Append(out, at, lead + 8 * i, 8, Value(data[byteAt + i]));
      }
      if tail > 0 {
        assert at + (lead + 8 * middle) == 8 * (byteAt + middle);
        FrontOfByte(data, byteAt + middle, tail);
        out := Append(out, at, lead + 8 * middle, tail, Shr(Value(data[byteAt + middle]), 8 - tail));
      }
    }

    method LeadBits(at: nat, lead: nat) returns (out: uint32)
      requires at + lead <= 8 * |data| && lead < 8 && (lead == 0 || at % 8 == 8 - lead)
      ensures out == Field(data, at, lead) % WORD32
    {
      hide Pow2, Low, Shr, Field;
      out := 0;
      FieldNone(data, at);
      if lead > 0 {
        BackOfByte(data, at, lead);
        FieldBound(data, at, lead);
        SmallPow2(lead);
        out := Low(Value(data[at / 8]), lead);
      }
    }

    /** Shift in `t` bits whose value is `v`. */
    method Append(sofar: uint32, at: nat, n: nat, t: nat, v: nat) returns (out: uint32)
      requires at + n + t <= 8 * |data| && t <= 8
      requires sofar == Field(data, at, n) % WORD32
      requires v == Field(data, at + n, t)
      ensures out == Field(data, at, n + t) % WORD32
    {
      hide Pow2, Field, Shl32;
      FieldSplit(data, at, n, t);
      FieldBound(data, at + n, t);
      ShiftIn(Field(data, at, n), t, v);
      out := Shl32(sofar, t) + v;
    }

    /** A sign bit, then the magnitude; the sign bit of a field that runs past the end is consumed all the same. */
    method ReadInt(bitCount: nat) returns (r: int)
      requires bitCount >= 1
      modifies this`currentBit
      ensures r == Signed(data, old(currentBit), bitCount)
      ensures currentBit - old(currentBit)
           == if old(currentBit) + bitCount <= 8 * |data| then bitCount
              else if old(currentBit) < 8 * |data| then 1
              else 0
    {
      hide Field;
      var sign := ReadUInt(1);
      var magnitude := ReadUInt(bitCount - 1);
      FieldNone(data, 0);
      if old(currentBit) <= 8 * |data| { FieldNone(data, old(currentBit)); }
      var m: int := magnitude;
      r := ToInt32(if sign != 0 then -m else m);
    }
  }

  /** The two's complement reading of the low 32 bits. */
  function ToInt32(x: int): int {
    var low := x % WORD32;
    if low < 0x8000_0000 then low else low - WORD32
  }

  /** What readInt returns; a field that runs past the end has its sign read but counts as zero. */
  function Signed(data: seq<byte>, at: nat, n: nat): int
    requires n >= 1
  {
    if at + n > 8 * |data| then 0
    else
      var m := Field(data, at + 1, n - 1) % WORD32;
      ToInt32(if Field(data, at, 1) % WORD32 != 0 then -m else m)
  }

  /** Up to 32 bits, it is exactly a sign and a magnitude. */
  lemma SignAndMagnitude(data: seq<byte>, at: nat, n: nat)
    requires 1 <= n <= 32 && at + n <= 8 * |data|
    ensures Signed(data, at, n) == (if BitAt(data, at) == 1 then -1 else 1) * Field(data, at + 1, n - 1)
  {
    hide BitAt, Pow2, Field;
    FieldBound(data, at + 1, n - 1);
    HalfWord(n - 1);
    OneBit(data, at);
  }

  lemma OneBit(data: seq<byte>, at: nat)
    requires at < 8 * |data|
    ensures Field(data, at, 1) == BitAt(data, at)
  {
    hide BitAt;
    FieldNone(data, at);
  }

  lemma HalfWord(n: nat)
    requires n <= 31
    ensures Pow2(n) <= 0x8000_0000
  {
    hide Pow2;
    Pow2Add(n, 31 - n);
    Pow2At32();
    Pow2Next(31);
    Scale(1, Pow2(31 - n), Pow2(n));
  }

  lemma WholeByte(data: seq<byte>, q: nat)
    requires q < |data|
    ensures Value(data[q]) == Field(data, 8 * q, 8)
  {
    hide Field;
    FieldInByte(data, q, 0, 8);
    Pow2At8();
    ShrNone(Value(data[q]));
    LowAll(Value(data[q]), 8);
  }

  lemma FrontOfByte(data: seq<byte>, q: nat, n: nat)
    requires q < |data| && n <= 8
    ensures Shr(Value(data[q]), 8 - n) == Field(data, 8 * q, n)
  {
    hide Field, Shr, Low, Pow2;
    FieldInByte(data, q, 0, n);
    TopBits(Value(data[q]), n);
    LowAll(Shr(Value(data[q]), 8 - n), n);
  }

  lemma BackOfByte(data: seq<byte>, at: nat, n: nat)
    requires at % 8 == 8 - n && 0 < n < 8 && at + n <= 8 * |data|
    ensures Low(Value(data[at / 8]), n) == Field(data, at, n)
  {
    hide Field, Shr, Low, Pow2;
    FieldInByte(data, at / 8, at % 8, n);
    ShrNone(Value(data[at / 8]));
  }

  lemma ShrNone(x: nat)
    ensures Shr(x, 0) == x
  {
  }

  lemma FieldNone(data: seq<byte>, at: nat)
    requires at <= 8 * |data|
    ensures Field(data, at, 0) == 0
  {
  }

  lemma SmallPow2(n: nat)
    requires n < 8
    ensures Pow2(n) <= 128
  {
    assert Pow2(7) == 128;
  }
}

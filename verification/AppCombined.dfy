/** Unrolling an AppCombined packet: several application packets behind one length each. */
module AppCombined {
  import opened Bytes
  import opened Options

  /** What is dispatched: the opcode as the host reads it, least significant byte first, and the payload. */
  datatype Item = Item(opcode: uint16, payload: seq<byte>)

  /**
   * How an item was framed: with a long length (0xff and two bytes) or a short one (one byte), and with or
   * without the extra zero byte that keeps an opcode from being all zeros.
   */
  datatype Framed = Framed(long: bool, escaped: bool, item: Item)

  function Le16(lo: byte, hi: byte): uint16 {
    TwoDigits(Value(hi), Value(lo))
  }

  function PutLe16(x: uint16): (r: seq<byte>)
    ensures |r| == 2 && Le16(r[0], r[1]) == x
  {
    DigitsBack(x);
    [ByteOf(x % 0x100), ByteOf(x / 0x100)]
  }

  /** The length on the wire: escape, opcode and payload. */
  function Length(f: Framed): nat {
    |f.item.payload| + if f.escaped then 3 else 2
  }

  predicate FramedOk(f: Framed) {
    && (f.escaped ==> f.item.opcode % 0x100 == 0)
    && (f.item.opcode == 0 ==> f.escaped)
    && (if f.long then Length(f) < 0x1_0000 else Length(f) < 0xff)
  }

  function PutLength(f: Framed): (r: seq<byte>)
    requires FramedOk(f)
    ensures |r| == if f.long then 3 else 1
  {
    if f.long then [0xff] + PutBe16(Length(f)) else [ByteOf(Length(f))]
  }

  function PutBody(f: Framed): (r: seq<byte>)
    ensures |r| == Length(f)
  {
    (if f.escaped then [0] else []) + PutLe16(f.item.opcode) + f.item.payload
  }

  function Encode(fs: seq<Framed>): seq<byte>
    requires forall i :: 0 <= i < |fs| ==> FramedOk(fs[i])
  {
    if fs == [] then [] else PutLength(fs[0]) + PutBody(fs[0]) + Encode(fs[1..])
  }

  // ---- reading ----

  /** Where the length field at the front of `bs` ends, and the length it gives. */
  function ReadLength(bs: seq<byte>): Option<(nat, nat)> {
    if bs == [] then None
    else if bs[0] != 0xff then Some((1, Value(bs[0])))
    else if |bs| < 3 then None
    else Some((3, Be16(bs, 1)))
  }

  /** The item that fills `body`; None when it is too short for its opcode. */
  function ReadBody(body: seq<byte>, long: bool): Option<Framed> {
    if |body| < 2 then None
    else if body[0] != 0 || body[1] != 0 then Some(Framed(long, false, Item(Le16(body[0], body[1]), body[2..])))
    else if |body| < 3 then None
    else Some(Framed(long, true, Item(Le16(body[1], body[2]), body[3..])))
  }

  /**
   * None when an item does not fit in what is left, where the source would read past the payload, or is too short for
   * its opcode, where the source reads the opcode from what follows, dispatches it with a length of minus two or minus
   * one, and moves on by the length it was given.
   */
  function Decode(bs: seq<byte>): Option<seq<Framed>> {
    if bs == [] then Some([])
    else
      var n := ReadLength(bs);
      if n.None? || n.value.0 + n.value.1 > |bs| then None
      else
        var (at, len) := n.value;
        var f, rest := ReadBody(bs[at..at + len], at == 3), Decode(bs[at + len..]);
        if f.None? || rest.None? then None else Some([f.value] + rest.value)
  }

  /** The length is one byte, or two behind 0xff; the opcode two bytes, or behind a zero one when they are zero. */
  lemma FramingIs(bs: seq<byte>, body: seq<byte>, long: bool)
    ensures bs != [] && bs[0] != 0xff ==> ReadLength(bs) == Some((1, Value(bs[0])))
    ensures |bs| >= 3 && bs[0] == 0xff ==> ReadLength(bs) == Some((3, 256 * Value(bs[1]) + Value(bs[2])))
    ensures |body| >= 2 && (body[0] != 0 || body[1] != 0) ==>
              ReadBody(body, long) == Some(Framed(long, false, Item(Value(body[0]) + 256 * Value(body[1]), body[2..])))
    ensures |body| >= 3 && body[0] == 0 && body[1] == 0 ==>
              ReadBody(body, long) == Some(Framed(long, true, Item(256 * Value(body[2]), body[3..])))
  {
    hide Value;
    ZeroValue();
  }

  lemma ZeroValue()
    ensures Value(0) == 0
  {
  }

  // ---- reading and writing are inverse ----

  lemma Le16OfParts(lo: byte, hi: byte)
    ensures Le16(lo, hi) % 0x100 == Value(lo) && Le16(lo, hi) / 0x100 == Value(hi)
    ensures PutLe16(Le16(lo, hi)) == [lo, hi]
  {
    hide ByteOf, TwoDigits;
    Digits(Value(hi), Value(lo));
    ByteOfValue(lo);
    ByteOfValue(hi);
  }

  lemma ReadPutLength(f: Framed, rest: seq<byte>)
    requires FramedOk(f)
    ensures ReadLength(PutLength(f) + rest) == Some((if f.long then 3 else 1, Length(f)))
  {
    hide Length;
    var bs := PutLength(f) + rest;
    if f.long {
      assert bs[1..3] == PutBe16(Length(f));
      Be16OfPut(Length(f), bs, 1);
    } else {
      assert Value(bs[0]) == Length(f);
    }
  }

  lemma ZeroDigit(b: byte)
    ensures Value(b) == 0 ==> b == 0
  {
    if Value(b) == 0 { SameByte(b, 0); }
  }

  lemma ReadPutBody(f: Framed)
    requires FramedOk(f)
    ensures ReadBody(PutBody(f), f.long) == Some(f)
  {
    hide PutLe16, Le16;
    var op := PutLe16(f.item.opcode);
    Le16OfParts(op[0], op[1]);
    ZeroOpcode(op[0], op[1]);
    var body := PutBody(f);
    if f.escaped {
      assert body[1] == op[0] && body[2] == op[1] && body[3..] == f.item.payload;
      ZeroDigit(op[0]);
    } else {
      assert body[0] == op[0] && body[1] == op[1] && body[2..] == f.item.payload;
    }
  }

  /** The unroller gives back any list of items, however each was framed. */
  lemma {:induction false} DecodeOfEncode(fs: seq<Framed>)
    requires forall i :: 0 <= i < |fs| ==> FramedOk(fs[i])
    ensures Decode(Encode(fs)) == Some(fs)
  {
    hide FramedOk, PutLength, PutBody, ReadLength, ReadBody;
    if fs != [] {
      var f, tail := fs[0], Encode(fs[1..]);
      assert FramedOk(f);
      var head, body := PutLength(f), PutBody(f);
      var bs := head + body + tail;
      assert bs == head + (body + tail);
      ReadPutLength(f, body + tail);
      assert bs[|head|..|head| + |body|] == body;
      assert bs[|head| + |body|..] == tail;
      ReadPutBody(f);
      DecodeOfEncode(fs[1..]);
      assert [f] + fs[1..] == fs;
    }
  }

  lemma ZeroOpcode(lo: byte, hi: byte)
    ensures Le16(lo, hi) == 0 <==> lo == 0 && hi == 0
    ensures lo == 0 ==> Le16(lo, hi) % 0x100 == 0
  {
    hide TwoDigits;
    Digits(Value(hi), Value(lo));
    Digits(0, 0);
    if Le16(lo, hi) == 0 {
      SameByte(lo, 0);
      SameByte(hi, 0);
    }
  }

  lemma BodyIsPut(body: seq<byte>, long: bool)
    requires ReadBody(body, long).Some?
    ensures var f := ReadBody(body, long).value;
            && f.long == long && PutBody(f) == body && Length(f) == |body|
            && (f.escaped ==> f.item.opcode % 0x100 == 0) && (f.item.opcode == 0 ==> f.escaped)
  {
    hide PutLe16, Le16;
    Le16OfParts(body[0], body[1]);
    ZeroOpcode(body[0], body[1]);
    if body[0] != 0 || body[1] != 0 {
      assert [body[0], body[1]] + body[2..] == body;
    } else {
      Le16OfParts(body[1], body[2]);
      ZeroOpcode(body[1], body[2]);
      assert [0] + [body[1], body[2]] + body[3..] == body;
    }
  }

  lemma LengthIsPut(bs: seq<byte>, f: Framed)
    requires ReadLength(bs).Some? && f.long == (ReadLength(bs).value.0 == 3) && ReadLength(bs).value.1 == Length(f)
    requires (f.escaped ==> f.item.opcode % 0x100 == 0) && (f.item.opcode == 0 ==> f.escaped)
    ensures FramedOk(f) && PutLength(f) == bs[..ReadLength(bs).value.0]
  {
    hide ByteOf, Be16, PutBe16, Length;
    if f.long {
      PutOfBe16(bs, 1);
      assert bs[..3] == [bs[0]] + bs[1..3];
    } else {
      BelowMax(bs[0]);
      ByteOfValue(bs[0]);
    }
  }

  /** Conversely, whatever unrolls is the encoding of the items it unrolls to: nothing is skipped or read twice. */
  lemma {:induction false} EncodeOfDecode(bs: seq<byte>)
    requires Decode(bs).Some?
    ensures forall i :: 0 <= i < |Decode(bs).value| ==> FramedOk(Decode(bs).value[i])
    ensures Encode(Decode(bs).value) == bs
    decreases |bs|
  {
    hide FramedOk, PutLength, PutBody, ReadLength, ReadBody, Length;
    if bs != [] {
      var (at, len) := ReadLength(bs).value;
      LengthForm(bs);
      var body := bs[at..at + len];
      var f := ReadBody(body, at == 3).value;
      BodyIsPut(body, at == 3);
      LengthIsPut(bs, f);
      EncodeOfDecode(bs[at + len..]);
      var fs := Decode(bs).value;
      assert fs[0] == f && fs[1..] == Decode(bs[at + len..]).value;
      assert bs == bs[..at] + body + bs[at + len..];
    }
  }

  lemma LengthForm(bs: seq<byte>)
    ensures ReadLength(bs).Some? ==> ReadLength(bs).value.0 == 1 || ReadLength(bs).value.0 == 3
  {
  }

  // ---- the loop ----

  function Items(fs: seq<Framed>): (r: seq<Item>)
    ensures |r| == |fs|
  {
    if fs == [] then [] else [fs[0].item] + Items(fs[1..])
  }

  /** No item fits at the front of `bs`: its length, its body or its opcode would reach past the end. */
  predicate Stuck(bs: seq<byte>) {
    var n := ReadLength(bs);
    || n.None? || n.value.0 + n.value.1 > |bs|
    || ReadBody(bs[n.value.0..n.value.0 + n.value.1], n.value.0 == 3).None?
  }

  lemma LengthOfPrefix(a: seq<byte>, b: seq<byte>)
    ensures ReadLength(a).Some? ==> ReadLength(a + b) == ReadLength(a)
  {
    hide Be16;
    if |a| >= 3 { assert a[1] == (a + b)[1] && a[2] == (a + b)[2]; SameFields(a, a + b); }
  }

  lemma SameFields(a: seq<byte>, b: seq<byte>)
    requires |a| >= 3 && |b| >= 3 && a[1] == b[1] && a[2] == b[2]
    ensures Be16(a, 1) == Be16(b, 1)
  {
  }

  /** What follows a list of items decides whether the whole unrolls. */
  lemma {:induction false} DecodeConcat(a: seq<byte>, b: seq<byte>)
    requires Decode(a).Some?
    ensures Decode(a + b) == if Decode(b).Some? then Some(Decode(a).value + Decode(b).value) else None
    decreases |a|
  {
    hide ReadLength, ReadBody;
    if a == [] {
      assert a + b == b;
      if Decode(b).Some? { assert [] + Decode(b).value == Decode(b).value; }
    } else {
      var (at, len) := ReadLength(a).value;
      LengthOfPrefix(a, b);
      LengthForm(a);
      assert (a + b)[at..at + len] == a[at..at + len];
      assert (a + b)[at + len..] == a[at + len..] + b;
      DecodeConcat(a[at + len..], b);
      if Decode(b).Some? {
        Regroup(ReadBody(a[at..at + len], at == 3).value, Decode(a[at + len..]).value, Decode(b).value);
      }
    }
  }

  lemma Regroup(f: Framed, fs: seq<Framed>, more: seq<Framed>)
    ensures [f] + (fs + more) == ([f] + fs) + more
  {
  }

  lemma StuckStays(bs: seq<byte>, m: nat)
    requires Stuck(bs) && 0 < m <= |bs|
    ensures Decode(bs[..m]).None?
  {
    hide ReadLength, ReadBody;
    LengthOfPrefix(bs[..m], bs[m..]);
    assert bs[..m] + bs[m..] == bs;
    var n := ReadLength(bs[..m]);
    if n.Some? && n.value.0 + n.value.1 <= m {
      assert bs[..m][n.value.0..n.value.0 + n.value.1] == bs[n.value.0..n.value.0 + n.value.1];
    }
  }

  lemma {:induction false} ItemsConcat(a: seq<Framed>, b: seq<Framed>)
    ensures Items(a + b) == Items(a) + Items(b)
  {
    if a == [] {
      assert a + b == b;
    } else {
      ItemsConcat(a[1..], b);
      assert (a + b)[1..] == a[1..] + b;
    }
  }

  /** Past the last whole item nothing more unrolls. */
  lemma NothingFurther(payload: seq<byte>, sub: nat)
    requires sub < |payload| && Decode(payload[..sub]).Some? && Stuck(payload[sub..])
    ensures forall m :: sub < m <= |payload| ==> Decode(payload[..m]).None?
  {
    hide Stuck;
    forall m | sub < m <= |payload|
      ensures Decode(payload[..m]).None?
    {
      StuckStays(payload[sub..], m - sub);
      DecodeConcat(payload[..sub], payload[sub..m]);
      assert payload[..m] == payload[..sub] + payload[sub..m];
      assert payload[sub..][..m - sub] == payload[sub..m];
    }
  }

  /**
   * The unrolling loop, with the cursor as an offset; it stops where the source would leave the payload. Whether it
   * stops or not, it has dispatched the items of the longest front part of the payload that unrolls.
   */
  method Unroll(payload: seq<byte>) returns (ok: bool, items: seq<Item>, sub: nat)
    ensures ok <==> Decode(payload).Some?
    ensures sub <= |payload| && Decode(payload[..sub]).Some? && items == Items(Decode(payload[..sub]).value)
    ensures forall m :: sub < m <= |payload| ==> Decode(payload[..m]).None?
    ensures ok ==> sub == |payload| && items == Items(Decode(payload).value)
  {
    hide Le16, Items, Be16, Stuck, Decode;
    items, sub := [], 0;
    NothingDecoded();
    assert payload[..0] == [];
    while sub < |payload|
      invariant sub <= |payload| && Decode(payload[..sub]).Some? && items == Items(Decode(payload[..sub]).value)
      decreases |payload| - sub
    {
      var item, next;
      ok, item, next := UnrollOne(payload, sub);
      if !ok {
        NothingFurther(payload, sub);
        assert payload[..|payload|] == payload;
        return;
      }
      assert payload[..next] == payload[..sub] + payload[sub..next];
      DecodeConcat(payload[..sub], payload[sub..next]);
      ItemsConcat(Decode(payload[..sub]).value, Decode(payload[sub..next]).value);
      items, sub := items + [item], next;
    }
    assert payload[..sub] == payload;
    ok := true;
  }

  lemma NothingDecoded()
    ensures Decode([]) == Some([]) && Items([]) == []
  {
  }

  /** One turn of the loop: the length, the opcode with its escape, the payload. */
  method UnrollOne(payload: seq<byte>, start: nat) returns (ok: bool, item: Item, next: nat)
    requires start < |payload|
    ensures !ok <==> Stuck(payload[start..])
    ensures ok ==> start < next <= |payload| && Decode(payload[start..next]).Some?
                   && Items(Decode(payload[start..next]).value) == [item]
  {
    hide Be16, ReadBody, ReadLength, Items;
    ghost var left := payload[start..];
    item, next := Item(0, []), start;
    var sub, length := start, 0;
    ok, sub, length := LengthAt(payload, start);
    LengthForm(left);
    if !ok || sub + length > |payload| { return false, item, start; }
    next := sub + length;
    var f := BodyAt(payload, sub, length, sub - start == 3);
    assert left[sub - start..next - start] == payload[sub..next];
    if f.None? { return false, item, start; }
    item := f.value;
    ok := true;
    OneItem(payload[start..next], sub - start, length, payload, start);
  }

  lemma OneItem(bs: seq<byte>, at: nat, len: nat, payload: seq<byte>, start: nat)
    requires start + at + len <= |payload| && bs == payload[start..start + at + len] && at > 0
    requires ReadLength(payload[start..]) == Some((at, len)) && (at == 1 || at == 3)
    requires ReadBody(payload[start + at..start + at + len], at == 3).Some?
    ensures Decode(bs).Some?
    ensures Items(Decode(bs).value) == [ReadBody(payload[start + at..start + at + len], at == 3).value.item]
  {
    hide ReadBody, ReadLength, Be16, Items;
    SameLength(payload[start..], at, len);
    assert payload[start..][..at + len] == bs;
    assert bs[at..at + len] == payload[start + at..start + at + len];
    assert bs[at + len..] == [];
    var f := ReadBody(bs[at..at + len], at == 3).value;
    ItemsOne(f);
    assert Decode(bs) == Some([f] + []);
  }

  lemma SameLength(bs: seq<byte>, at: nat, len: nat)
    requires ReadLength(bs) == Some((at, len)) && at + len <= |bs|
    ensures ReadLength(bs[..at + len]) == Some((at, len))
  {
    hide Be16;
    if at == 3 { SameFields(bs, bs[..at + len]); }
  }

  lemma ItemsOne(f: Framed)
    ensures Items([f]) == [f.item] && Items([]) == [] && [f] + [] == [f]
  {
    assert [f][1..] == [];
  }

  method LengthAt(payload: seq<byte>, start: nat) returns (ok: bool, sub: nat, length: nat)
    requires start < |payload|
    ensures ok <==> ReadLength(payload[start..]).Some?
    ensures ok ==> start < sub <= |payload| && ReadLength(payload[start..]).value == (sub - start, length)
  {
    hide Be16;
    sub, length := start + 1, Value(payload[start]);
    if payload[start] == 0xff {
      if sub + 2 > |payload| { return false, sub, length; }
      SameBe16(payload, start);
      length := Be16(payload, sub);
      sub := sub + 2;
    }
    ok := true;
  }

  method BodyAt(payload: seq<byte>, start: nat, len: nat, ghost long: bool) returns (item: Option<Item>)
    requires start + len <= |payload|
    ensures var f := ReadBody(payload[start..start + len], long);
            item == if f.Some? then Some(f.value.item) else None
  {
    hide Le16;
    var sub, length := start, len;
    if length < 2 { return None; }
    ZeroOpcode(payload[sub], payload[sub + 1]);
    var opcode := Le16(payload[sub], payload[sub + 1]);
    if opcode == 0 {
      sub := sub + 1;
      length := length - 1;
      if length < 2 { return None; }
      opcode := Le16(payload[sub], payload[sub + 1]);
      assert payload[start..start + len][3..] == payload[sub + 2..sub + length];
    } else {
      assert payload[start..start + len][2..] == payload[sub + 2..sub + length];
    }
    item := Some(Item(opcode, payload[sub + 2..sub + length]));
  }

  lemma SameBe16(payload: seq<byte>, start: nat)
    requires start + 3 <= |payload|
    ensures Be16(payload[start..], 1) == Be16(payload, start + 1)
  {
  }
}

/** 16-bit sequence numbers compared by signed difference. */
module SerialNumbers {
  import opened Bytes

  const SPACE := 0x1_0000

  /** `static_cast<int16_t>(x - y)`. */
  function Delta(x: uint16, y: uint16): int {
    var d := (x as int - y as int) % SPACE;
    if d < 0x8000 then d else d - SPACE
  }

  /** The 16-bit number that stands for an unbounded one on the wire. */
  function Wire(n: int): uint16 { n % SPACE }

  /** Within the window, the wrapped difference is the true one, across any number of wraps. */
  lemma DeltaIsTrueDifference(t: int, h: int)
    requires -0x8000 <= t - h < 0x8000
    ensures Delta(Wire(t), Wire(h)) == t - h
  {
    WireDifference(t, h);
  }

  lemma WireDifference(t: int, h: int)
    ensures (Wire(t) - Wire(h)) % SPACE == (t - h) % SPACE
  {
    var qt, qh := t / SPACE, h / SPACE;
    assert Wire(t) - Wire(h) == t - h - SPACE * (qt - qh);
  }

  /**
   * For true numbers any distance apart, the signed test agrees with the true order exactly when the distance
   * leaves the right residue: a jump of a multiple of the space plus 1..0x7fff passes, every other one is dropped.
   */
  lemma TestAgreesIff(t: int, h: int)
    ensures Delta(Wire(t), Wire(h)) > 0 <==> 1 <= (t - h) % SPACE < 0x8000
    ensures (Delta(Wire(t), Wire(h)) > 0 <==> t > h)
       <==> (if t > h then 1 <= (t - h) % SPACE < 0x8000 else !(1 <= (t - h) % SPACE < 0x8000))
  {
    WireDifference(t, h);
  }

  /** The distance section 3.2 of RFC 1982 leaves undefined counts as old, in both directions. */
  lemma OppositeIsOld(h: int)
    ensures Delta(Wire(h + 0x8000), Wire(h)) <= 0 && Delta(Wire(h), Wire(h + 0x8000)) <= 0
  {
    WireDifference(h + 0x8000, h);
    WireDifference(h, h + 0x8000);
  }
}

/** The two deobfuscations written out word by word: sums, constants and rotations as they stand in the source. */
module CipherWords {
  import opened Bytes
  import opened Ciphers

  /** Word `i` of a buffer, the least significant byte first. */
  function LittleWord(bs: seq<byte>, i: nat): bv64
    requires 8 * i + 8 <= |bs|
  {
    bs[8 * i] as bv64 | (bs[8 * i + 1] as bv64 << 8) | (bs[8 * i + 2] as bv64 << 16) | (bs[8 * i + 3] as bv64 << 24)
    | (bs[8 * i + 4] as bv64 << 32) | (bs[8 * i + 5] as bv64 << 40) | (bs[8 * i + 6] as bv64 << 48)
    | (bs[8 * i + 7] as bv64 << 56)
  }

  function Plus(x: bv64, y: bv64): bv64 { x + y }

  function Minus(x: bv64, y: bv64): bv64 { x - y }

  /** The sum of the first `i` words, modulo 2^64. */
  function Sum(words: seq<bv64>, i: nat): bv64
    requires i <= |words|
  {
    if i == 0 then 0 else Plus(Sum(words, i - 1), words[i - 1])
  }

  /** `i` times `x`, modulo 2^64. */
  function Times(i: nat, x: bv64): bv64 {
    if i == 0 then 0 else Plus(Times(i - 1, x), x)
  }

  /** A running key: where it starts, plus the plain words so far, less a constant for each. */
  function Running(start: bv64, sum: bv64, owed: bv64): bv64 {
    start + sum - owed
  }

  function Right14(x: bv64): bv64 { (x >> 14) | (x << 50) }

  function Right29(x: bv64): bv64 { (x >> 29) | (x << 35) }

  function Right7(x: bv64): bv64 { (x >> 7) | (x << 57) }

  function Left25(x: bv64): bv64 { (x << 25) | (x >> 39) }

  function ZoneSpawnWord(e: bv64): bv64 {
    Right29(Minus(Right14(e), 0x659365E7))
  }

  function ProfileWord(e: bv64): bv64 {
    Left25(Minus(Right7(e), 0x422437A9))
  }

  /** Where word `i` of `n` goes when the first and the middle one are exchanged. */
  function Exchanged(i: nat, n: nat): nat {
    if n < 2 then i else if i == 0 then n / 2 else if i == n / 2 then 0 else i
  }

  /** `plain` are the words of `after` before the exchange, and what is past the last whole word has not changed. */
  predicate HoldsExchanged(after: seq<byte>, before: seq<byte>, plain: seq<bv64>) {
    && |after| == |before| && |plain| == |before| / 8
    && (forall i :: 0 <= i < |plain| ==>
          0 <= Exchanged(i, |plain|) < |plain| && LittleWord(after, Exchanged(i, |plain|)) == plain[i])
    && forall k :: 8 * |plain| <= k < |before| ==> after[k] == before[k]
  }

  predicate ZoneSpawnChain(before: seq<byte>, plain: seq<bv64>)
    requires |plain| == |before| / 8
  {
    forall i :: 0 <= i < |plain| ==>
      plain[i] == ZoneSpawnWord(Plus(LittleWord(before, i), Running(0, Sum(plain, i), Times(i, 0x659365E7))))
  }

  predicate ProfileChain(before: seq<byte>, plain: seq<bv64>)
    requires |plain| == |before| / 8
  {
    forall i :: 0 <= i < |plain| ==>
      plain[i] == ProfileWord(Plus(LittleWord(before, i), Running(0x659365E7, Sum(plain, i), Times(i, 0x422437A9))))
  }

  // ---- proofs ----

  lemma WordIsLittle(bs: seq<byte>, i: nat)
    requires 8 * i + 8 <= |bs|
    ensures WordsOf(bs)[i] == LittleWord(bs, i)
  {
    hide WordsOf;
    WordsOfAt(bs, i);
    var b := bs[8 * i..8 * i + 8];
    assert b[0] == bs[8 * i] && b[1] == bs[8 * i + 1] && b[2] == bs[8 * i + 2] && b[3] == bs[8 * i + 3];
    assert b[4] == bs[8 * i + 4] && b[5] == bs[8 * i + 5] && b[6] == bs[8 * i + 6] && b[7] == bs[8 * i + 7];
  }

  lemma SumMoves(start: bv64, sum: bv64, owed: bv64, p: bv64, salt: bv64)
    ensures Running(start, sum + p, owed + salt) == (start + sum - owed) + p - salt
  {
  }

  lemma SubMoves(start: bv64, sum: bv64, owed: bv64, p: bv64, salt: bv64)
    ensures Sub64((start + sum - owed) + p, salt) == Running(start, sum + p, owed + salt)
  {
    hide Running;
    SumMoves(start, sum, owed, p, salt);
  }

  lemma AddMoves(start: bv64, sum: bv64, owed: bv64, p: bv64)
    ensures Add64(start + sum - owed, p) == (start + sum - owed) + p
    ensures Running(start, sum, owed) == start + sum - owed
  {
  }

  lemma KeyMovesBy(c: Cipher, start: bv64, sum: bv64, owed: bv64, p: bv64)
    ensures NextKey(c, Running(start, sum, owed), p) == Running(start, sum + p, owed + Salt(c))
  {
    hide Running, Add64, Sub64, Salt;
    SubMoves(start, sum, owed, p, Salt(c));
    AddMoves(start, sum, owed, p);
  }

  /** The running key is a sum of plain words less a multiple of the constant. */
  lemma KeyMoves(c: Cipher, start: bv64, sum: bv64, owed: bv64, p: bv64)
    ensures NextKey(c, Running(start, sum, owed), p) == Running(start, Plus(sum, p), Plus(owed, Salt(c)))
  {
    hide Running, NextKey, Salt, Plus;
    KeyMovesBy(c, start, sum, owed, p);
    PlusIs(sum, p);
    PlusIs(owed, Salt(c));
  }

  lemma PlusIs(x: bv64, y: bv64)
    ensures Plus(x, y) == x + y
  {
  }

  lemma {:induction false} KeyIsSum(c: Cipher, words: seq<bv64>, i: nat)
    requires i <= |words|
    ensures KeyAt(c, words, Seed(c), i) == Running(Seed(c), Sum(Unchain(c, words, Seed(c)), i), Times(i, Salt(c)))
  {
    hide Unchain, KeyAt, Unmix, Seed, Salt, NextKey, Running, Add64, Plus;
    if i == 0 {
      NoKeyYet(c, words);
    } else {
      var plain := Unchain(c, words, Seed(c));
      KeyIsSum(c, words, i - 1);
      UnchainStep(c, words, Seed(c), i - 1);
      KeyMoves(c, Seed(c), Sum(plain, i - 1), Times(i - 1, Salt(c)), plain[i - 1]);
    }
  }

  lemma NoKeyYet(c: Cipher, words: seq<bv64>)
    ensures KeyAt(c, words, Seed(c), 0) == Seed(c) == Running(Seed(c), 0, 0)
  {
  }

  lemma AddIsPlus(x: bv64, y: bv64)
    ensures Add64(x, y) == Plus(x, y)
  {
  }

  lemma PlainWord(c: Cipher, words: seq<bv64>, i: nat)
    requires i < |words|
    ensures var plain := Unchain(c, words, Seed(c));
            plain[i] == Unmix(c, Plus(words[i], Running(Seed(c), Sum(plain, i), Times(i, Salt(c)))))
  {
    hide Unchain, KeyAt, Unmix, Seed, Salt, NextKey, Running, Plus, Add64, Sum, Times;
    UnchainStep(c, words, Seed(c), i);
    KeyIsSum(c, words, i);
    AddIsPlus(words[i], KeyAt(c, words, Seed(c), i));
  }

  lemma UnmixIs(e: bv64)
    ensures Unmix(ZoneSpawn, e) == ZoneSpawnWord(e) && Unmix(Profile, e) == ProfileWord(e)
    ensures Seed(ZoneSpawn) == 0 && Salt(ZoneSpawn) == 0x659365E7
    ensures Seed(Profile) == 0x659365E7 && Salt(Profile) == 0x422437A9
  {
    hide Ror64, Rol64, Sub64, Minus, Right14, Right29, Right7, Left25;
    RotationsAre(e);
    SubIsMinus(Right14(e), 0x659365E7);
    SubIsMinus(Right7(e), 0x422437A9);
    RotationsAre(Minus(Right14(e), 0x659365E7));
    RotationsAre(Minus(Right7(e), 0x422437A9));
  }

  lemma RotationsAre(x: bv64)
    ensures Ror64(x, 14) == Right14(x) && Ror64(x, 29) == Right29(x)
    ensures Ror64(x, 7) == Right7(x) && Rol64(x, 25) == Left25(x)
  {
  }

  lemma SubIsMinus(x: bv64, y: bv64)
    ensures Sub64(x, y) == Minus(x, y)
  {
  }

  lemma DecryptHolds(c: Cipher, bs: seq<byte>)
    ensures HoldsExchanged(Decrypt(c, bs), bs, Unchain(c, WordsOf(bs), Seed(c)))
  {
    hide Unchain, WordsOf, BytesOf, Seed, LittleWord;
    var plain, after := Unchain(c, WordsOf(bs), Seed(c)), Decrypt(c, bs);
    var m := Whole(|bs|);
    WordsOfPrefix(bs);
    SplitBack(SwapHalf(plain), bs[m..]);
    WordsOfPrefix(after);
    forall i | 0 <= i < |plain|
      ensures 0 <= Exchanged(i, |plain|) < |plain| && LittleWord(after, Exchanged(i, |plain|)) == plain[i]
    {
      WordIsLittle(after, Exchanged(i, |plain|));
    }
    forall k | 8 * |plain| <= k < |bs|
      ensures after[k] == bs[k]
    {
      assert after[k] == bs[m..][k - m];
    }
  }

  /** Every zone-spawn body is decrypted word by word to that chain, and then the two words are exchanged. */
  lemma ZoneSpawnIs(bs: seq<byte>) returns (plain: seq<bv64>)
    ensures HoldsExchanged(Decrypt(ZoneSpawn, bs), bs, plain) && ZoneSpawnChain(bs, plain)
  {
    hide Unchain, WordsOf, LittleWord, Decrypt, Sum, Times, Unmix, ZoneSpawnWord, Seed, Salt, Plus, Running;
    hide HoldsExchanged;
    plain := Unchain(ZoneSpawn, WordsOf(bs), Seed(ZoneSpawn));
    DecryptHolds(ZoneSpawn, bs);
    forall i | 0 <= i < |plain|
      ensures plain[i] == ZoneSpawnWord(Plus(LittleWord(bs, i), Running(0, Sum(plain, i), Times(i, 0x659365E7))))
    {
      PlainWord(ZoneSpawn, WordsOf(bs), i);
      WordIsLittle(bs, i);
      UnmixIs(Plus(LittleWord(bs, i), Running(0, Sum(plain, i), Times(i, 0x659365E7))));
    }
  }

  /** And every player profile to that one. */
  lemma ProfileIs(bs: seq<byte>) returns (plain: seq<bv64>)
    ensures HoldsExchanged(Decrypt(Profile, bs), bs, plain) && ProfileChain(bs, plain)
  {
    hide Unchain, WordsOf, LittleWord, Decrypt, Sum, Times, Unmix, ProfileWord, Seed, Salt, Plus, Running;
    hide HoldsExchanged;
    plain := Unchain(Profile, WordsOf(bs), Seed(Profile));
    DecryptHolds(Profile, bs);
    forall i | 0 <= i < |plain|
      ensures plain[i]
           == ProfileWord(Plus(LittleWord(bs, i), Running(0x659365E7, Sum(plain, i), Times(i, 0x422437A9))))
    {
      PlainWord(Profile, WordsOf(bs), i);
      WordIsLittle(bs, i);
      UnmixIs(Plus(LittleWord(bs, i), Running(0x659365E7, Sum(plain, i), Times(i, 0x422437A9))));
    }
  }
}

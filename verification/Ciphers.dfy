/** The two chained 64-bit ciphers of eqmac_decoder.cpp, and the encoders they undo. */
module Ciphers {
  import opened Bytes

  function Ror64(x: bv64, n: bv64): bv64
    requires n <= 64
  {
    (x >> n) | (x << (64 - n))
  }

  function Rol64(x: bv64, n: bv64): bv64
    requires n <= 64
  {
    (x << n) | (x >> (64 - n))
  }

  function Add64(x: bv64, y: bv64): bv64 { x + y }

  function Sub64(x: bv64, y: bv64): bv64 { x - y }

  // ---- one word ----

  datatype Cipher = ZoneSpawn | Profile

  /** The value the running key starts from. */
  function Seed(c: Cipher): bv64 {
    match c
    case ZoneSpawn => 0
    case Profile => 0x659365E7
  }

  function Salt(c: Cipher): bv64 {
    match c
    case ZoneSpawn => 0x659365E7
    case Profile => 0x422437A9
  }

  /** What the decoder does to one word once the running key has been added. */
  function Unmix(c: Cipher, e: bv64): bv64 {
    match c
    case ZoneSpawn => Ror64(Sub64(Ror64(e, 14), Salt(c)), 29)
    case Profile => Rol64(Sub64(Ror64(e, 7), Salt(c)), 25)
  }

  /** The same steps run backwards: what the server does to one plain word. */
  function Mix(c: Cipher, p: bv64): bv64 {
    match c
    case ZoneSpawn => Rol64(Add64(Rol64(p, 29), Salt(c)), 14)
    case Profile => Rol64(Add64(Ror64(p, 25), Salt(c)), 7)
  }

  function NextKey(c: Cipher, key: bv64, plain: bv64): bv64 {
    Sub64(Add64(key, plain), Salt(c))
  }

  lemma Rotate7(x: bv64)
    ensures Rol64(Ror64(x, 7), 7) == x && Ror64(Rol64(x, 7), 7) == x
  {
  }

  lemma Rotate14(x: bv64)
    ensures Rol64(Ror64(x, 14), 14) == x && Ror64(Rol64(x, 14), 14) == x
  {
  }

  lemma Rotate25(x: bv64)
    ensures Rol64(Ror64(x, 25), 25) == x && Ror64(Rol64(x, 25), 25) == x
  {
  }

  lemma Rotate29(x: bv64)
    ensures Rol64(Ror64(x, 29), 29) == x && Ror64(Rol64(x, 29), 29) == x
  {
  }

  lemma AddSubWord(x: bv64, y: bv64)
    ensures Sub64(x + y, y) == x && Add64(x - y, y) == x
  {
  }

  lemma SubOfAdd(x: bv64, y: bv64)
    ensures Sub64(Add64(x, y), y) == x
  {
    hide Sub64;
    AddSubWord(x, y);
  }

  lemma AddOfSub(x: bv64, y: bv64)
    ensures Add64(Sub64(x, y), y) == x
  {
    hide Add64;
    AddSubWord(x, y);
  }

  lemma UnmixOfMix(c: Cipher, p: bv64)
    ensures Unmix(c, Mix(c, p)) == p
  {
    hide Rol64, Ror64, Add64, Sub64, Salt;
    match c
    case ZoneSpawn =>
      Rotate14(Add64(Rol64(p, 29), Salt(c)));
      SubOfAdd(Rol64(p, 29), Salt(c));
      Rotate29(p);
    case Profile =>
      Rotate7(Add64(Ror64(p, 25), Salt(c)));
      SubOfAdd(Ror64(p, 25), Salt(c));
      Rotate25(p);
  }

  lemma MixOfUnmix(c: Cipher, e: bv64)
    ensures Mix(c, Unmix(c, e)) == e
  {
    hide Rol64, Ror64, Add64, Sub64, Salt;
    match c
    case ZoneSpawn =>
      Rotate29(Sub64(Ror64(e, 14), Salt(c)));
      AddOfSub(Ror64(e, 14), Salt(c));
      Rotate14(e);
    case Profile =>
      Rotate25(Sub64(Ror64(e, 7), Salt(c)));
      AddOfSub(Ror64(e, 7), Salt(c));
      Rotate7(e);
  }

  // ---- the chain over words: the running key depends on the plain words ----

  function Unchain(c: Cipher, words: seq<bv64>, key: bv64): (plain: seq<bv64>)
    ensures |plain| == |words|
  {
    if words == [] then []
    else
      var p := Unmix(c, Add64(words[0], key));
      [p] + Unchain(c, words[1..], NextKey(c, key, p))
  }

  function Chain(c: Cipher, plain: seq<bv64>, key: bv64): (words: seq<bv64>)
    ensures |words| == |plain|
  {
    if plain == [] then []
    else [Sub64(Mix(c, plain[0]), key)] + Chain(c, plain[1..], NextKey(c, key, plain[0]))
  }

  lemma {:induction false} UnchainOfChain(c: Cipher, plain: seq<bv64>, key: bv64)
    ensures Unchain(c, Chain(c, plain, key), key) == plain
  {
    hide Unmix, Mix, NextKey, Add64, Sub64, Word, PutWord;
    if plain != [] {
      UnmixOfMix(c, plain[0]);
      AddOfSub(Mix(c, plain[0]), key);
      UnchainOfChain(c, plain[1..], NextKey(c, key, plain[0]));
    }
  }

  lemma {:induction false} ChainOfUnchain(c: Cipher, words: seq<bv64>, key: bv64)
    ensures Chain(c, Unchain(c, words, key), key) == words
  {
    hide Unmix, Mix, NextKey, Add64, Sub64, Word, PutWord;
    if words != [] {
      var p := Unmix(c, Add64(words[0], key));
      MixOfUnmix(c, Add64(words[0], key));
      SubOfAdd(words[0], key);
      ChainOfUnchain(c, words[1..], NextKey(c, key, p));
    }
  }

  function SwapHalf(words: seq<bv64>): (r: seq<bv64>)
    ensures |r| == |words|
  {
    if |words| < 2 then words
    else words[0 := words[|words| / 2]][|words| / 2 := words[0]]
  }

  // ---- bytes and words ----

  function WordsOf(bs: seq<byte>): (r: seq<bv64>)
    ensures |r| == |bs| / 8
    decreases |bs|
  {
    if |bs| < 8 then [] else [Word(bs[..8])] + WordsOf(bs[8..])
  }

  function BytesOf(words: seq<bv64>): (r: seq<byte>)
    ensures |r| == 8 * |words|
  {
    if words == [] then [] else PutWord(words[0]) + BytesOf(words[1..])
  }

  lemma {:induction false} BytesOfWords(bs: seq<byte>)
    requires |bs| % 8 == 0
    ensures BytesOf(WordsOf(bs)) == bs
    decreases |bs|
  {
    hide Unmix, Mix, NextKey, Add64, Sub64, Word, PutWord;
    if |bs| >= 8 {
      PutOfWord(bs[..8]);
      BytesOfWords(bs[8..]);
      assert bs == bs[..8] + bs[8..];
    }
  }

  lemma {:induction false} WordsOfBytes(words: seq<bv64>)
    ensures WordsOf(BytesOf(words)) == words
  {
    hide Unmix, Mix, NextKey, Add64, Sub64, Word, PutWord;
    if words != [] {
      WordOfPut(words[0]);
      WordsOfBytes(words[1..]);
      var bs := BytesOf(words);
      assert bs[..8] == PutWord(words[0]);
      assert bs[8..] == BytesOf(words[1..]);
    }
  }

  // ---- whole buffers ----

  /** Length of the prefix that is a whole number of words. */
  function Whole(n: nat): (m: nat)
    ensures m <= n < m + 8 && m % 8 == 0 && m / 8 == n / 8
  {
    n / 8 * 8
  }

  function Decrypt(c: Cipher, bs: seq<byte>): (r: seq<byte>)
    ensures |r| == |bs|
  {
    var m := Whole(|bs|);
    BytesOf(SwapHalf(Unchain(c, WordsOf(bs[..m]), Seed(c)))) + bs[m..]
  }

  function Encrypt(c: Cipher, bs: seq<byte>): (r: seq<byte>)
    ensures |r| == |bs|
  {
    var m := Whole(|bs|);
    BytesOf(Chain(c, SwapHalf(WordsOf(bs[..m])), Seed(c))) + bs[m..]
  }

  lemma SwapTwice(words: seq<bv64>)
    ensures SwapHalf(SwapHalf(words)) == words
  {
  }

  /** Splitting a buffer that was put together from a whole number of words and a tail. */
  lemma SplitBack(words: seq<bv64>, tail: seq<byte>)
    requires |tail| < 8
    ensures var bs := BytesOf(words) + tail;
            Whole(|bs|) == 8 * |words| && WordsOf(bs[..Whole(|bs|)]) == words && bs[Whole(|bs|)..] == tail
  {
    hide WordsOf, BytesOf, PutWord, Word;
    WordsOfBytes(words);
    var bs := BytesOf(words) + tail;
    assert bs[..8 * |words|] == BytesOf(words);
  }

  lemma JoinBack(bs: seq<byte>)
    ensures BytesOf(WordsOf(bs[..Whole(|bs|)])) + bs[Whole(|bs|)..] == bs
  {
    hide WordsOf, BytesOf, PutWord, Word;
    BytesOfWords(bs[..Whole(|bs|)]);
  }

  /** Decrypting undoes encrypting, for every buffer length. */
  lemma DecryptOfEncrypt(c: Cipher, bs: seq<byte>)
    ensures Decrypt(c, Encrypt(c, bs)) == bs
    ensures Encrypt(c, bs)[Whole(|bs|)..] == bs[Whole(|bs|)..]
  {
    hide Chain, Unchain, SwapHalf, WordsOf, BytesOf, Seed;
    var m := Whole(|bs|);
    var ws := WordsOf(bs[..m]);
    var es := Chain(c, SwapHalf(ws), Seed(c));
    SplitBack(es, bs[m..]);
    UnchainOfChain(c, SwapHalf(ws), Seed(c));
    SwapTwice(ws);
    JoinBack(bs);
  }

  /** Encrypting undoes decrypting, so nothing but the encoder's output decrypts to a given plain text. */
  lemma EncryptOfDecrypt(c: Cipher, bs: seq<byte>)
    ensures Encrypt(c, Decrypt(c, bs)) == bs
    ensures Decrypt(c, bs)[Whole(|bs|)..] == bs[Whole(|bs|)..]
  {
    hide Chain, Unchain, SwapHalf, WordsOf, BytesOf, Seed;
    var m := Whole(|bs|);
    var ws := WordsOf(bs[..m]);
    var ps := Unchain(c, ws, Seed(c));
    SplitBack(SwapHalf(ps), bs[m..]);
    SwapTwice(ps);
    ChainOfUnchain(c, ws, Seed(c));
    JoinBack(bs);
  }

  // ---- the loops that overwrite the buffer ----

  function WordAt(bs: seq<byte>, i: nat): bv64
    requires 8 * i + 8 <= |bs|
  {
    Word(bs[8 * i..8 * i + 8])
  }

  function SetWord(bs: seq<byte>, i: nat, w: bv64): (r: seq<byte>)
    requires 8 * i + 8 <= |bs|
    ensures |r| == |bs| && r[Whole(|bs|)..] == bs[Whole(|bs|)..]
  {
    bs[..8 * i] + PutWord(w) + bs[8 * i + 8..]
  }

  lemma {:induction false} WordsOfAt(bs: seq<byte>, i: nat)
    requires 8 * i + 8 <= |bs|
    ensures WordsOf(bs)[i] == WordAt(bs, i)
  {
    hide Unmix, Mix, NextKey, Add64, Sub64, Word, PutWord;
    if i > 0 {
      WordsOfAt(bs[8..], i - 1);
      assert bs[8..][8 * (i - 1)..8 * (i - 1) + 8] == bs[8 * i..8 * i + 8];
    } else {
      assert bs[0..8] == bs[..8];
    }
  }

  lemma SetWordTail(bs: seq<byte>, i: nat, w: bv64)
    requires 0 < i && 8 * i + 8 <= |bs|
    ensures SetWord(bs, i, w)[..8] == bs[..8]
    ensures SetWord(bs, i, w)[8..] == SetWord(bs[8..], i - 1, w)
  {
    hide PutWord;
  }

  lemma SetFirstWord(bs: seq<byte>, w: bv64)
    requires 8 <= |bs|
    ensures SetWord(bs, 0, w)[..8] == PutWord(w) && SetWord(bs, 0, w)[8..] == bs[8..]
  {
    hide PutWord;
  }

  lemma {:induction false} WordsOfSet(bs: seq<byte>, i: nat, w: bv64)
    requires 8 * i + 8 <= |bs|
    ensures WordsOf(SetWord(bs, i, w)) == WordsOf(bs)[i := w]
  {
    hide SetWord, Word, PutWord;
    if i > 0 {
      WordsOfSet(bs[8..], i - 1, w);
      SetWordTail(bs, i, w);
    } else {
      WordOfPut(w);
      SetFirstWord(bs, w);
    }
  }

  lemma {:induction false} WordsOfPrefix(bs: seq<byte>)
    ensures WordsOf(bs[..Whole(|bs|)]) == WordsOf(bs)
    decreases |bs|
  {
    hide Unmix, Mix, NextKey, Add64, Sub64, Word, PutWord;
    if |bs| >= 8 {
      var p := bs[..Whole(|bs|)];
      WordsOfPrefix(bs[8..]);
      assert p[..8] == bs[..8];
      assert p[8..] == bs[8..][..Whole(|bs[8..]|)];
    }
  }

  /** A buffer is determined by its words and its tail. */
  lemma SameWords(a: seq<byte>, b: seq<byte>)
    requires |a| == |b|
    requires WordsOf(a) == WordsOf(b)
    requires a[Whole(|a|)..] == b[Whole(|b|)..]
    ensures a == b
  {
    hide WordsOf, BytesOf;
    WordsOfPrefix(a);
    WordsOfPrefix(b);
    JoinBack(a);
    JoinBack(b);
  }

  /** The running key before word `i`. */
  function KeyAt(c: Cipher, words: seq<bv64>, key: bv64, i: nat): bv64
    requires i <= |words|
  {
    if i == 0 then key
    else KeyAt(c, words[1..], NextKey(c, key, Unmix(c, Add64(words[0], key))), i - 1)
  }

  lemma {:induction false} UnchainStep(c: Cipher, words: seq<bv64>, key: bv64, i: nat)
    requires i < |words|
    ensures Unchain(c, words, key)[i] == Unmix(c, Add64(words[i], KeyAt(c, words, key, i)))
    ensures KeyAt(c, words, key, i + 1) == NextKey(c, KeyAt(c, words, key, i), Unchain(c, words, key)[i])
  {
    hide Unmix, Mix, NextKey, Add64, Sub64, Word, PutWord;
    if i > 0 {
      UnchainStep(c, words[1..], NextKey(c, key, Unmix(c, Add64(words[0], key))), i - 1);
    }
  }

  method LoadWord(buf: array<byte>, i: nat) returns (w: bv64)
    requires 8 * i + 8 <= buf.Length
    ensures w == WordAt(buf[..], i)
  {
    assert buf[..][8 * i..8 * i + 8] == buf[8 * i..8 * i + 8];
    w := Word(buf[8 * i..8 * i + 8]);
  }

  method StoreWord(buf: array<byte>, i: nat, w: bv64)
    requires 8 * i + 8 <= buf.Length
    modifies buf
    ensures buf[..] == SetWord(old(buf[..]), i, w)
  {
    var bs := PutWord(w);
    for k := 0 to 8
      invariant buf[8 * i..8 * i + k] == bs[..k]
      invariant buf[..8 * i] == old(buf[..8 * i]) && buf[8 * i + k..] == old(buf[8 * i + k..])
    {
      buf[8 * i + k] := bs[k];
    }
    assert buf[..] == buf[..8 * i] + buf[8 * i..8 * i + 8] + buf[8 * i + 8..];
  }

  /** A buffer whose first `i` words are plain already. */
  function Partly(plain: seq<bv64>, ws: seq<bv64>, i: nat): (r: seq<bv64>)
    requires i <= |ws| == |plain|
    ensures |r| == |ws|
    ensures i == 0 ==> r == ws
    ensures i == |ws| ==> r == plain
  {
    plain[..i] + ws[i..]
  }

  /** Overwriting word `i` with its plain text moves the boundary between plain and cipher words by one. */
  lemma PassStep(plain: seq<bv64>, ws: seq<bv64>, was: seq<byte>, i: nat)
    requires |plain| == |ws| == |was| / 8 && i < |ws|
    requires WordsOf(was) == Partly(plain, ws, i)
    ensures WordAt(was, i) == ws[i]
    ensures var now := SetWord(was, i, plain[i]);
            WordsOf(now) == Partly(plain, ws, i + 1) && now[Whole(|was|)..] == was[Whole(|was|)..]
  {
    hide WordsOf, WordAt, SetWord;
    WordsOfAt(was, i);
    WordsOfSet(was, i, plain[i]);
  }

  /** decryptZoneSpawn and decryptProfile: one pass that overwrites each word, then the swap. */
  method DecryptInPlace(c: Cipher, buf: array<byte>)
    modifies buf
    ensures buf[..] == Decrypt(c, old(buf[..]))
  {
    hide Unchain, SwapHalf, WordsOf, Decrypt;
    ghost var was := buf[..];
    Unchaining(c, buf);
    SwapWords(buf);
    DecryptWords(c, was, buf[..]);
  }

  method Unchaining(c: Cipher, buf: array<byte>)
    modifies buf
    ensures WordsOf(buf[..]) == Unchain(c, WordsOf(old(buf[..])), Seed(c))
    ensures buf[..][Whole(buf.Length)..] == old(buf[..])[Whole(buf.Length)..]
  {
    var n := buf.Length / 8;
    ghost var was := buf[..];
    ghost var m := Whole(buf.Length);
    ghost var ws := WordsOf(was);
    ghost var plain := Unchain(c, ws, Seed(c));
    var key := Seed(c);
    assert KeyAt(c, ws, key, 0) == key;
    hide Unmix, NextKey, Add64, Seed, SetWord, WordAt, WordsOf, Unchain, KeyAt, Partly;
    for i := 0 to n
      invariant key == KeyAt(c, ws, Seed(c), i)
      invariant WordsOf(buf[..]) == Partly(plain, ws, i)
      invariant buf[..][m..] == was[m..]
    {
      PassStep(plain, ws, buf[..], i);
      UnchainStep(c, ws, Seed(c), i);
      var e := LoadWord(buf, i);
      var p := Unmix(c, Add64(e, key));
      StoreWord(buf, i, p);
      key := NextKey(c, key, p);
    }
  }

  lemma SwapStep(bs: seq<byte>, h: nat)
    requires 0 < h && 8 * h + 8 <= |bs|
    ensures var first, middle := WordAt(bs, 0), WordAt(bs, h);
            var now := SetWord(SetWord(bs, 0, middle), h, first);
            && WordsOf(now) == WordsOf(bs)[0 := WordsOf(bs)[h]][h := WordsOf(bs)[0]]
            && now[Whole(|bs|)..] == bs[Whole(|bs|)..]
  {
    hide WordsOf, WordAt, SetWord;
    var first, middle := WordAt(bs, 0), WordAt(bs, h);
    WordsOfAt(bs, 0);
    WordsOfAt(bs, h);
    WordsOfSet(bs, 0, middle);
    WordsOfSet(SetWord(bs, 0, middle), h, first);
  }

  method SwapWords(buf: array<byte>)
    modifies buf
    ensures WordsOf(buf[..]) == SwapHalf(WordsOf(old(buf[..])))
    ensures buf[..][Whole(buf.Length)..] == old(buf[..])[Whole(buf.Length)..]
  {
    hide WordsOf, WordAt, SetWord;
    var n := buf.Length / 8;
    if n >= 2 {
      SwapStep(buf[..], n / 2);
      var first := LoadWord(buf, 0);
      var middle := LoadWord(buf, n / 2);
      StoreWord(buf, 0, middle);
      StoreWord(buf, n / 2, first);
    }
  }

  lemma DecryptWords(c: Cipher, was: seq<byte>, now: seq<byte>)
    requires |now| == |was| && now[Whole(|was|)..] == was[Whole(|was|)..]
    requires WordsOf(now) == SwapHalf(Unchain(c, WordsOf(was), Seed(c)))
    ensures now == Decrypt(c, was)
  {
    hide Unmix, Mix, NextKey, Add64, Sub64, Word, PutWord;
    var m := Whole(|was|);
    var want := Decrypt(c, was);
    WordsOfPrefix(was);
    WordsOfPrefix(want);
    assert want[..m] == BytesOf(WordsOf(now));
    WordsOfBytes(WordsOf(now));
    SameWords(now, want);
  }
}

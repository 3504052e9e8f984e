/** From the server's plain texts to the callback and back. */
module PlainText {
  import opened Bytes
  import Fragments
  import Ciphers
  import opened Decoder
  import opened Network
  import opened Delivery

  /** A message as the server means it. */
  datatype Text = Text(opcode: uint16, plain: seq<byte>)

  /** OP_ZoneSpawns, OP_NewSpawn and OP_PlayerProfile. */
  predicate Sealed(opcode: uint16) {
    opcode == 0x5f41 || opcode == 0x6b42 || opcode == 0x3640
  }

  /** How a server prepares a body: three opcodes are deflated and encrypted. */
  function Seal(deflate: seq<byte> -> seq<byte>, t: Text): seq<byte> {
    if t.opcode == 0x5f41 || t.opcode == 0x6b42 then Ciphers.Encrypt(Ciphers.ZoneSpawn, deflate(t.plain))
    else if t.opcode == 0x3640 then Ciphers.Encrypt(Ciphers.Profile, deflate(t.plain))
    else t.plain
  }

  /** What is deflated inflates back; nothing is asked of the other opcodes. */
  predicate Inflates(inflate: Inflate, deflate: seq<byte> -> seq<byte>, t: Text) {
    Sealed(t.opcode) ==> deflate(t.plain) != [] && inflate(deflate(t.plain)) == t.plain
  }

  /** What the callback sees of a text: only an empty one under one of the three opcodes is swallowed. */
  function Seen(t: Text): seq<Fragments.Message> {
    if Sealed(t.opcode) && t.plain == [] then [] else [Fragments.Message(t.opcode, t.plain)]
  }

  lemma EmitOfSeal(inflate: Inflate, deflate: seq<byte> -> seq<byte>, t: Text)
    requires Inflates(inflate, deflate, t)
    ensures Emit(inflate, Fragments.Message(t.opcode, Seal(deflate, t))) == Seen(t)
  {
    hide Ciphers.Encrypt, Ciphers.Decrypt;
    if Sealed(t.opcode) {
      var c := if t.opcode == 0x3640 then Ciphers.Profile else Ciphers.ZoneSpawn;
      Ciphers.DecryptOfEncrypt(c, deflate(t.plain));
    }
  }

  /** A message without a body is handed over as it is, whatever its opcode. */
  lemma EmitOfNothing(inflate: Inflate, opcode: uint16)
    ensures Emit(inflate, Fragments.Message(opcode, [])) == [Fragments.Message(opcode, [])]
  {
  }

  /** A body under one of the three opcodes that does not inflate is swallowed. */
  lemma EmitOfGarbage(inflate: Inflate, opcode: uint16, body: seq<byte>)
    requires Sealed(opcode) && body != []
    requires inflate(Ciphers.Decrypt(if opcode == 0x3640 then Ciphers.Profile else Ciphers.ZoneSpawn, body)) == []
    ensures Emit(inflate, Fragments.Message(opcode, body)) == []
  {
  }

  // ---- what the packets carry ----

  function Contents(m: Sent): seq<byte>
    requires !m.Bare?
  {
    if m.Single? then m.body else Concat(m.chunks)
  }

  /** The message carries the sealed text, however it is cut; a packet without a message carries any. */
  predicate Carries(inflate: Inflate, deflate: seq<byte> -> seq<byte>, m: Sent, t: Text) {
    m.Bare? || (m.opcode == t.opcode && Contents(m) == Seal(deflate, t) && Inflates(inflate, deflate, t))
  }

  predicate CarriesAll(inflate: Inflate, deflate: seq<byte> -> seq<byte>, s: Stream, texts: seq<Text>) {
    |texts| == |s.msgs| && forall j :: 0 <= j < |texts| ==> Carries(inflate, deflate, s.msgs[j], texts[j])
  }

  /** `extra` gives the text of each arrival that has no number but a message of its own. */
  predicate CarriesExtra(inflate: Inflate, deflate: seq<byte> -> seq<byte>, arrivals: seq<Arrival>, extra: seq<Text>) {
    && |extra| == |arrivals|
    && forall i :: 0 <= i < |arrivals| && arrivals[i].Plain? ==>
         Carries(inflate, deflate, Single(arrivals[i].opcode, arrivals[i].body), extra[i])
  }

  /** What the callback sees of a message that came through whole. */
  function SeenOf(m: Sent, t: Text): seq<Fragments.Message> {
    if m.Bare? || (m.Single? && t.opcode == 0) then [] else Seen(t)
  }

  lemma EmitAssembled(inflate: Inflate, deflate: seq<byte> -> seq<byte>, m: Sent, t: Text)
    requires Carries(inflate, deflate, m, t)
    ensures EmitEach(inflate, Assembled(m)) == SeenOf(m, t)
  {
    hide Emit, EmitEach, Seal, Concat, Seen;
    EmitOne(inflate, Fragments.Message(t.opcode, Seal(deflate, t)));
    if !m.Bare? { EmitOfSeal(inflate, deflate, t); }
  }

  /** The texts of the first `n` messages, less those of which a packet was not accepted. */
  function WholeTexts(s: Stream, acc: set<int>, texts: seq<Text>, n: nat): seq<Fragments.Message>
    requires n <= |s.msgs| == |texts|
  {
    if n == 0 then []
    else WholeTexts(s, acc, texts, n - 1) + if AllIn(s, acc, n - 1) then SeenOf(s.msgs[n - 1], texts[n - 1]) else []
  }

  lemma {:induction false} EmitWholeTexts(inflate: Inflate, deflate: seq<byte> -> seq<byte>, s: Stream, acc: set<int>,
                                          texts: seq<Text>, n: nat)
    requires CarriesAll(inflate, deflate, s, texts) && n <= |texts|
    ensures EmitEach(inflate, WholeMessages(s, acc, n)) == WholeTexts(s, acc, texts, n)
  {
    hide EmitEach, AllIn, Assembled, SeenOf, Carries;
    if n == 0 {
      EmitOne(inflate, Fragments.Message(0, []));
    } else {
      EmitWholeTexts(inflate, deflate, s, acc, texts, n - 1);
      EmitEachConcat(inflate, WholeMessages(s, acc, n - 1), Assembled(s.msgs[n - 1]));
      EmitAssembled(inflate, deflate, s.msgs[n - 1], texts[n - 1]);
      if !AllIn(s, acc, n - 1) {
        assert WholeMessages(s, acc, n) == WholeMessages(s, acc, n - 1);
      }
    }
  }

  /** The texts in the order they should reach the callback: each where its message's last packet is accepted. */
  function WantedTexts(s: Stream, texts: seq<Text>, arrivals: seq<Arrival>, extra: seq<Text>): seq<Fragments.Message>
    requires ArrivalsOk(s, arrivals) && |texts| == |s.msgs| && |extra| == |arrivals|
  {
    if arrivals == [] then []
    else WantedTexts(s, texts, Init(arrivals), Init(extra)) + BringsTexts(s, texts, arrivals, Last(extra))
  }

  function BringsTexts(s: Stream, texts: seq<Text>, arrivals: seq<Arrival>, own: Text): seq<Fragments.Message>
    requires ArrivalsOk(s, arrivals) && arrivals != [] && |texts| == |s.msgs|
  {
    var a := Last(arrivals);
    if InStream(a) then
      if Number(s, a) > High(s, Init(arrivals)) && AllIn(s, Accepted(s, arrivals), a.j)
      then SeenOf(s.msgs[a.j], texts[a.j]) else []
    else if a.Plain? then SeenOf(Single(a.opcode, a.body), own)
    else []
  }

  lemma EmitBrings(inflate: Inflate, deflate: seq<byte> -> seq<byte>, s: Stream, texts: seq<Text>,
                   arrivals: seq<Arrival>, extra: seq<Text>)
    requires ArrivalsOk(s, arrivals) && arrivals != []
    requires CarriesAll(inflate, deflate, s, texts) && CarriesExtra(inflate, deflate, arrivals, extra)
    ensures EmitEach(inflate, Brings(s, arrivals)) == BringsTexts(s, texts, arrivals, Last(extra))
  {
    hide EmitEach, AllIn, Assembled, SeenOf, Carries;
    var a := Last(arrivals);
    EmitOne(inflate, Fragments.Message(0, []));
    if InStream(a) {
      EmitAssembled(inflate, deflate, s.msgs[a.j], texts[a.j]);
    } else if a.Plain? {
      EmitAssembled(inflate, deflate, Single(a.opcode, a.body), Last(extra));
    }
  }

  lemma {:induction false} EmitWantedTexts(inflate: Inflate, deflate: seq<byte> -> seq<byte>, s: Stream,
                                           texts: seq<Text>, arrivals: seq<Arrival>, extra: seq<Text>)
    requires ArrivalsOk(s, arrivals)
    requires CarriesAll(inflate, deflate, s, texts) && CarriesExtra(inflate, deflate, arrivals, extra)
    ensures EmitEach(inflate, Wanted(s, arrivals)) == WantedTexts(s, texts, arrivals, extra)
  {
    hide EmitEach, Brings, BringsTexts, Carries, CarriesAll;
    if arrivals == [] {
      EmitOne(inflate, Fragments.Message(0, []));
    } else {
      EmitWantedTexts(inflate, deflate, s, texts, Init(arrivals), Init(extra));
      EmitEachConcat(inflate, Wanted(s, Init(arrivals)), Brings(s, arrivals));
      EmitBrings(inflate, deflate, s, texts, arrivals, extra);
    }
  }

  /**
   * Deflated, encrypted, cut, numbered, lost and repeated: the callback sees exactly the texts of the messages all of
   * whose packets were accepted, in sending order, and in between those that came without a number.
   */
  lemma PlainTextEndToEnd(inflate: Inflate, deflate: seq<byte> -> seq<byte>, s: Stream, texts: seq<Text>,
                          arrivals: seq<Arrival>, extra: seq<Text>)
    requires StreamOk(s) && ArrivalsOk(s, arrivals) && InWindow(s, arrivals)
    requires NoSplice(s, Accepted(s, arrivals))
    requires CarriesAll(inflate, deflate, s, texts) && CarriesExtra(inflate, deflate, arrivals, extra)
    ensures Run(inflate, Datagrams(s, arrivals)).1 == WantedTexts(s, texts, arrivals, extra)
    ensures EmitEach(inflate, Wanted(s, Numbered(s, arrivals)))
         == WholeTexts(s, Accepted(s, arrivals), texts, |texts|)
    ensures NoPlain(arrivals) ==>
              WantedTexts(s, texts, arrivals, extra) == WholeTexts(s, Accepted(s, arrivals), texts, |texts|)
  {
    hide Run, Datagrams, Wanted, Numbered, WholeMessages, NoSplice, NoPlain, EmitEach, WholeTexts, WantedTexts;
    EndToEnd(inflate, s, arrivals);
    EmitWantedTexts(inflate, deflate, s, texts, arrivals, extra);
    EmitWholeTexts(inflate, deflate, s, Accepted(s, arrivals), texts, |texts|);
  }
}

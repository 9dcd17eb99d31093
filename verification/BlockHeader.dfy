/** The block header: its fixed 212-byte wire form and the two absorb schedules its hashes are taken over. */
module BlockHeader {
  import opened Options
  import opened Bytes
  import opened Sponge

  datatype Header = Header(
    prevBlockHash: Digest, stateRoot: Digest, txRoot: Digest, timestamp: U64, height: U64, minerAddress: Digest,
    nonce: U128, difficultyTarget: Digest, logSlots: U32, activeSlotCount: U64, allocCounter: U64)

  // ---------------------------------------------------------------------
  // Wire form
  // ---------------------------------------------------------------------

  datatype WireError = Truncated | TrailingBytes

  const FRONT_WIDTHS: seq<nat> := [32, 32, 32, 8, 8, 32]
  const BACK_WIDTHS: seq<nat> := [16, 32, 4, 8, 8]
  const WIDTHS: seq<nat> := FRONT_WIDTHS + BACK_WIDTHS
  const HEADER_BYTES: nat := 212

  function Fields(h: Header): (fields: seq<seq<Byte>>)
    ensures Shaped(fields, WIDTHS)
  {
    FrontFields(h) + BackFields(h)
  }

  /** Up to the miner address. */
  function FrontFields(h: Header): (fields: seq<seq<Byte>>)
    ensures Shaped(fields, FRONT_WIDTHS)
  {
    [h.prevBlockHash, h.stateRoot, h.txRoot, Le(h.timestamp, 8), Le(h.height, 8), h.minerAddress]
  }

  /** From the nonce on. */
  function BackFields(h: Header): (fields: seq<seq<Byte>>)
    ensures Shaped(fields, BACK_WIDTHS)
  {
    [Le(h.nonce, 16), h.difficultyTarget, Le(h.logSlots, 4), Le(h.activeSlotCount, 8), Le(h.allocCounter, 8)]
  }

  function FromFields(f: seq<seq<Byte>>): Header
    requires Shaped(f, WIDTHS)
  {
    Header(f[0], f[1], f[2], FromLe64(f[3]), FromLe64(f[4]), f[5], FromLe128(f[6]), f[7], FromLe32(f[8]),
           FromLe64(f[9]), FromLe64(f[10]))
  }

  function ToBytes(h: Header): (bytes: seq<Byte>)
    ensures |bytes| == HEADER_BYTES
  {
    FieldsSurvive(Fields(h), WIDTHS);
    WidthsAddUp();
    Join(Fields(h))
  }

  function FromBytes(bytes: seq<Byte>): Result<Header, WireError> {
    WidthsAddUp();
    if |bytes| < HEADER_BYTES then Err(Truncated)
    else if |bytes| > HEADER_BYTES then Err(TrailingBytes)
    else Ok(FromFields(Split(WIDTHS, bytes)))
  }

  lemma WidthsAddUp()
    ensures Total(WIDTHS) == HEADER_BYTES
  {
    hide Total;
    var w := WIDTHS;
    assert w[0..] == w;
    TotalFrom(w, 0);
    TotalFrom(w, 1);
    TotalFrom(w, 2);
    TotalFrom(w, 3);
    TotalFrom(w, 4);
    TotalFrom(w, 5);
    TotalFrom(w, 6);
    TotalFrom(w, 7);
    TotalFrom(w, 8);
    TotalFrom(w, 9);
    TotalFrom(w, 10);
    TotalFrom(w, 11);
  }

  lemma HeaderSurvives(h: Header)
    ensures FromBytes(ToBytes(h)) == Ok(h)
  {
    hide Total, Split, Join, Fields, FromFields;
    FieldsSurvive(Fields(h), WIDTHS);
    FieldsRoundTrip(h);
  }

  lemma FieldsRoundTrip(h: Header)
    ensures FromFields(Fields(h)) == h
  {
    IntegerSurvives(h.timestamp, 8);
    IntegerSurvives(h.height, 8);
    IntegerSurvives(h.nonce, 16);
    IntegerSurvives(h.logSlots, 4);
    IntegerSurvives(h.activeSlotCount, 8);
    IntegerSurvives(h.allocCounter, 8);
  }

  lemma FieldsOfRecord(f: seq<seq<Byte>>)
    requires Shaped(f, WIDTHS)
    ensures Fields(FromFields(f)) == f
  {
    hide Le, FromLe;
    BytesSurvive(f[3]);
    BytesSurvive(f[4]);
    BytesSurvive(f[6]);
    BytesSurvive(f[8]);
    BytesSurvive(f[9]);
    BytesSurvive(f[10]);
  }

  /** Decoding accepts exactly the 212-byte strings, and each is the encoding of what it decodes to. */
  lemma WireSurvives(bytes: seq<Byte>)
    ensures FromBytes(bytes).Ok? <==> |bytes| == HEADER_BYTES
    ensures FromBytes(bytes).Ok? ==> ToBytes(FromBytes(bytes).value) == bytes
  {
    hide Total, Split, Join, Fields, FromFields;
    WidthsAddUp();
    if |bytes| == HEADER_BYTES {
      FieldsOfRecord(Split(WIDTHS, bytes));
      FramingSurvives(WIDTHS, bytes);
    }
  }

  /** Where each field stands on the wire. */
  lemma WireLayout(h: Header)
    ensures var b := ToBytes(h);
            && b[0..32] == h.prevBlockHash && b[32..64] == h.stateRoot && b[64..96] == h.txRoot
            && b[96..104] == Le(h.timestamp, 8) && b[104..112] == Le(h.height, 8) && b[112..144] == h.minerAddress
            && b[144..160] == Le(h.nonce, 16) && b[160..192] == h.difficultyTarget
            && b[192..196] == Le(h.logSlots, 4) && b[196..204] == Le(h.activeSlotCount, 8)
            && b[204..212] == Le(h.allocCounter, 8)
  {
    hide Total, Join, Le, Pow256;
    var f, w := Fields(h), WIDTHS;
    NothingBefore(w);
    JoinedField(f, w, 0, 0);
    JoinedField(f, w, 1, 32);
    JoinedField(f, w, 2, 64);
    JoinedField(f, w, 3, 96);
    JoinedField(f, w, 4, 104);
    JoinedField(f, w, 5, 112);
    JoinedField(f, w, 6, 144);
    JoinedField(f, w, 7, 160);
    JoinedField(f, w, 8, 192);
    JoinedField(f, w, 9, 196);
    JoinedField(f, w, 10, 204);
  }

  // ---------------------------------------------------------------------
  // Absorb transcripts
  // ---------------------------------------------------------------------

  /** A digest is absorbed as two words: its first sixteen bytes, then its last. */
  function First(d: Digest): U128 {
    FromLe128(d[..16])
  }

  function Second(d: Digest): U128 {
    FromLe128(d[16..])
  }

  /** The words of the chain-link hash, in order. */
  function Transcript(h: Header): seq<U128> {
    [First(h.prevBlockHash), Second(h.prevBlockHash), First(h.stateRoot), Second(h.stateRoot),
     First(h.txRoot), Second(h.txRoot), Widened64(h.timestamp), Widened64(h.height),
     First(h.minerAddress), Second(h.minerAddress), h.nonce, First(h.difficultyTarget), Second(h.difficultyTarget),
     Widened32(h.logSlots), Widened64(h.activeSlotCount), Widened64(h.allocCounter)]
  }

  /** The same without the nonce. */
  function SemanticTranscript(h: Header): seq<U128> {
    [First(h.prevBlockHash), Second(h.prevBlockHash), First(h.stateRoot), Second(h.stateRoot),
     First(h.txRoot), Second(h.txRoot), Widened64(h.timestamp), Widened64(h.height),
     First(h.minerAddress), Second(h.minerAddress), First(h.difficultyTarget), Second(h.difficultyTarget),
     Widened32(h.logSlots), Widened64(h.activeSlotCount), Widened64(h.allocCounter)]
  }

  function Widened32(n: U32): (word: U128)
    ensures word == n
  {
    Pow256Monotone(4, 16);
    n
  }

  function Widened64(n: U64): (word: U128)
    ensures word == n
  {
    Pow256Monotone(8, 16);
    n
  }

  /** Two digests with the same halves are the same. */
  lemma HalvesBind(a: Digest, b: Digest)
    requires First(a) == First(b) && Second(a) == Second(b)
    ensures a == b
  {
    hide Le, FromLe;
    BytesSurvive(a[..16]);
    BytesSurvive(b[..16]);
    BytesSurvive(a[16..]);
    BytesSurvive(b[16..]);
    assert a == a[..16] + a[16..] && b == b[..16] + b[16..];
  }

  /** The chain-link transcript determines the header. */
  lemma TranscriptBinds(a: Header, b: Header)
    ensures Transcript(a) == Transcript(b) <==> a == b
  {
    hide First, Second;
    var x, y := Transcript(a), Transcript(b);
    if x == y {
      assert x[0] == y[0] && x[1] == y[1] && x[2] == y[2] && x[3] == y[3] && x[4] == y[4] && x[5] == y[5];
      assert x[6] == y[6] && x[7] == y[7] && x[8] == y[8] && x[9] == y[9] && x[10] == y[10] && x[11] == y[11];
      assert x[12] == y[12] && x[13] == y[13] && x[14] == y[14] && x[|x| - 1] == y[|y| - 1];
      HalvesBind(a.prevBlockHash, b.prevBlockHash);
      HalvesBind(a.stateRoot, b.stateRoot);
      HalvesBind(a.txRoot, b.txRoot);
      HalvesBind(a.minerAddress, b.minerAddress);
      HalvesBind(a.difficultyTarget, b.difficultyTarget);
    }
  }

  /** The semantic transcript determines everything but the nonce. */
  lemma SemanticTranscriptBinds(a: Header, b: Header)
    ensures SemanticTranscript(a) == SemanticTranscript(b) <==> a == b.(nonce := a.nonce)
  {
    hide First, Second;
    var x, y := SemanticTranscript(a), SemanticTranscript(b);
    if x == y {
      assert x[0] == y[0] && x[1] == y[1] && x[2] == y[2] && x[3] == y[3] && x[4] == y[4] && x[5] == y[5];
      assert x[6] == y[6] && x[7] == y[7] && x[8] == y[8] && x[9] == y[9] && x[10] == y[10] && x[11] == y[11];
      assert x[12] == y[12] && x[13] == y[13] && x[14] == y[14] && x[|x| - 1] == y[|y| - 1];
      HalvesBind(a.prevBlockHash, b.prevBlockHash);
      HalvesBind(a.stateRoot, b.stateRoot);
      HalvesBind(a.txRoot, b.txRoot);
      HalvesBind(a.minerAddress, b.minerAddress);
      HalvesBind(a.difficultyTarget, b.difficultyTarget);
    }
  }

  // ---------------------------------------------------------------------
  // Hashes
  // ---------------------------------------------------------------------

  /** Absorbed words as bytes. */
  function Stream(words: seq<U128>): (bytes: seq<Byte>)
    ensures |bytes| == 16 * |words|
  {
    if words == [] then [] else Stream(words[..|words| - 1]) + Le(words[|words| - 1], 16)
  }

  lemma {:induction false} StreamBinds(a: seq<U128>, b: seq<U128>)
    requires Stream(a) == Stream(b)
    ensures a == b
  {
    hide Pow256, Le, FromLe;
    if a != [] {
      var n := |a| - 1;
      assert Stream(a)[..16 * n] == Stream(a[..n]) && Stream(b)[..16 * n] == Stream(b[..n]);
      assert Stream(a)[16 * n..] == Le(a[n], 16) && Stream(b)[16 * n..] == Le(b[n], 16);
      StreamBinds(a[..n], b[..n]);
      IntegerSurvives(a[n], 16);
      IntegerSurvives(b[n], 16);
      assert a == a[..n] + [a[n]] && b == b[..n] + [b[n]];
    }
  }

  lemma {:induction false} StreamAt(words: seq<U128>, i: nat)
    requires i < |words|
    ensures Stream(words)[16 * i..16 * i + 16] == Le(words[i], 16)
  {
    hide Pow256, Le;
    var n := |words| - 1;
    if i < n {
      var front := words[..n];
      StreamAt(front, i);
      assert Stream(words)[16 * i..16 * i + 16] == Stream(front)[16 * i..16 * i + 16];
    }
  }

  lemma DigestInStream(words: seq<U128>, i: nat, d: Digest)
    requires i + 1 < |words| && words[i] == First(d) && words[i + 1] == Second(d)
    ensures Stream(words)[16 * i..16 * i + 32] == d
  {
    hide Stream, Pow256, Le, FromLe;
    StreamAt(words, i);
    StreamAt(words, i + 1);
    BytesSurvive(d[..16]);
    BytesSurvive(d[16..]);
    var s := Stream(words);
    assert s[16 * i..16 * i + 32] == s[16 * i..16 * i + 16] + s[16 * i + 16..16 * i + 32];
    assert d == d[..16] + d[16..];
  }

  /** Where each field stands in what the chain-link hash absorbs. */
  lemma AbsorbedLayout(h: Header)
    ensures var s := Stream(Transcript(h));
            && |s| == 256 && s[0..32] == h.prevBlockHash && s[32..64] == h.stateRoot && s[64..96] == h.txRoot
            && s[96..112] == Le(h.timestamp, 16) && s[112..128] == Le(h.height, 16) && s[128..160] == h.minerAddress
            && s[160..176] == Le(h.nonce, 16) && s[176..208] == h.difficultyTarget
            && s[208..224] == Le(h.logSlots, 16) && s[224..240] == Le(h.activeSlotCount, 16)
            && s[240..256] == Le(h.allocCounter, 16)
  {
    hide Stream, Pow256, Le, First, Second;
    var w := Transcript(h);
    DigestInStream(w, 0, h.prevBlockHash);
    DigestInStream(w, 2, h.stateRoot);
    DigestInStream(w, 4, h.txRoot);
    StreamAt(w, 6);
    StreamAt(w, 7);
    DigestInStream(w, 8, h.minerAddress);
    StreamAt(w, 10);
    DigestInStream(w, 11, h.difficultyTarget);
    StreamAt(w, 13);
    StreamAt(w, 14);
    StreamAt(w, 15);
  }

  /** The nonce-free schedule is the same one with the nonce's word left out. */
  lemma SemanticSkipsNonce(h: Header)
    ensures |SemanticTranscript(h)| == 15
    ensures Transcript(h) == SemanticTranscript(h)[..10] + [h.nonce] + SemanticTranscript(h)[10..]
  {
    hide First, Second;
  }

  /** The chain-link id. */
  function BlockId(p: Permutation, iv: Lanes, h: Header): Digest {
    Hash(p, iv, Stream(Transcript(h)))
  }

  /** The nonce-free id, under its own initial state. */
  function SemanticId(p: Permutation, iv: Lanes, h: Header): Digest {
    Hash(p, iv, Stream(SemanticTranscript(h)))
  }

  /** What the permutation is fed is different for different headers. */
  lemma HashInputBinds(a: Header, b: Header)
    ensures Padded(Stream(Transcript(a))) == Padded(Stream(Transcript(b))) <==> a == b
    ensures Padded(Stream(SemanticTranscript(a))) == Padded(Stream(SemanticTranscript(b))) <==>
              a == b.(nonce := a.nonce)
  {
    hide Stream, Transcript, SemanticTranscript, Padded;
    TranscriptBinds(a, b);
    SemanticTranscriptBinds(a, b);
    if Padded(Stream(Transcript(a))) == Padded(Stream(Transcript(b))) {
      PaddingBinds(Stream(Transcript(a)), Stream(Transcript(b)));
      StreamBinds(Transcript(a), Transcript(b));
    }
    if Padded(Stream(SemanticTranscript(a))) == Padded(Stream(SemanticTranscript(b))) {
      PaddingBinds(Stream(SemanticTranscript(a)), Stream(SemanticTranscript(b)));
      StreamBinds(SemanticTranscript(a), SemanticTranscript(b));
    }
  }

  method AbsorbWord(s: Poseidon2bSponge, word: U128, ghost words: seq<U128>)
    requires s.Valid() && s.stream == Stream(words)
    modifies s
    ensures s.Valid() && s.stream == Stream(words + [word])
  {
    hide Poseidon2bSponge.Valid, Pow256, Le;
    assert (words + [word])[..|words|] == words;
    s.Update(Le(word, 16));
  }

  method AbsorbDigest(s: Poseidon2bSponge, d: Digest, ghost words: seq<U128>)
    requires s.Valid() && s.stream == Stream(words)
    modifies s
    ensures s.Valid() && s.stream == Stream(words + [First(d), Second(d)])
  {
    hide First, Second, Poseidon2bSponge.Valid, Pow256, Le;
    assert words + [First(d), Second(d)] == words + [First(d)] + [Second(d)];
    assert (words + [First(d)])[..|words|] == words;
    assert (words + [First(d)] + [Second(d)])[..|words| + 1] == words + [First(d)];
    s.Update(Le(First(d), 16) + Le(Second(d), 16));
  }

  method HashBlockHeader(p: Permutation, iv: Lanes, h: Header) returns (id: Digest)
    ensures id == BlockId(p, iv, h)
  {
    hide Stream, First, Second, Poseidon2bSponge.Valid, Pow256, Hash;
    var s := StartedSponge(p, iv);
    var words := AbsorbFront(s, h);
    AbsorbWord(s, h.nonce, words);
    words := AbsorbBack(s, h, words + [h.nonce]);
    assert words == Transcript(h);
    id := s.Finalize();
  }

  method SemanticHeaderId(p: Permutation, iv: Lanes, h: Header) returns (id: Digest)
    ensures id == SemanticId(p, iv, h)
  {
    hide Stream, First, Second, Poseidon2bSponge.Valid, Pow256, Hash;
    var s := StartedSponge(p, iv);
    var words := AbsorbFront(s, h);
    words := AbsorbBack(s, h, words);
    assert words == SemanticTranscript(h);
    id := s.Finalize();
  }

  method StartedSponge(p: Permutation, iv: Lanes) returns (s: Poseidon2bSponge)
    ensures fresh(s) && s.Valid() && s.p == p && s.iv == iv && s.stream == Stream([])
  {
    s := new Poseidon2bSponge.WithIv(p, iv);
  }

  /** The fields before the nonce, which both schedules share. */
  method AbsorbFront(s: Poseidon2bSponge, h: Header) returns (ghost words: seq<U128>)
    requires s.Valid() && s.stream == Stream([])
    modifies s
    ensures s.Valid() && s.stream == Stream(words)
    ensures words == [First(h.prevBlockHash), Second(h.prevBlockHash), First(h.stateRoot), Second(h.stateRoot),
                      First(h.txRoot), Second(h.txRoot), Widened64(h.timestamp), Widened64(h.height),
                      First(h.minerAddress), Second(h.minerAddress)]
  {
    hide Stream, First, Second, Poseidon2bSponge.Valid, Pow256, Hash;
    words := [];
    AbsorbDigest(s, h.prevBlockHash, words);
    words := words + [First(h.prevBlockHash), Second(h.prevBlockHash)];
    AbsorbDigest(s, h.stateRoot, words);
    words := words + [First(h.stateRoot), Second(h.stateRoot)];
    AbsorbDigest(s, h.txRoot, words);
    words := words + [First(h.txRoot), Second(h.txRoot)];
    AbsorbWord(s, Widened64(h.timestamp), words);
    words := words + [Widened64(h.timestamp)];
    AbsorbWord(s, Widened64(h.height), words);
    words := words + [Widened64(h.height)];
    AbsorbDigest(s, h.minerAddress, words);
    words := words + [First(h.minerAddress), Second(h.minerAddress)];
  }

  /** The fields after the nonce. */
  method AbsorbBack(s: Poseidon2bSponge, h: Header, ghost before: seq<U128>) returns (ghost words: seq<U128>)
    requires s.Valid() && s.stream == Stream(before)
    modifies s
    ensures s.Valid() && s.stream == Stream(words)
    ensures words == before + [First(h.difficultyTarget), Second(h.difficultyTarget), Widened32(h.logSlots),
                               Widened64(h.activeSlotCount), Widened64(h.allocCounter)]
  {
    hide Stream, First, Second, Poseidon2bSponge.Valid, Pow256, Hash;
    words := before;
    AbsorbDigest(s, h.difficultyTarget, words);
    words := words + [First(h.difficultyTarget), Second(h.difficultyTarget)];
    AbsorbWord(s, Widened32(h.logSlots), words);
    words := words + [Widened32(h.logSlots)];
    AbsorbWord(s, Widened64(h.activeSlotCount), words);
    words := words + [Widened64(h.activeSlotCount)];
    AbsorbWord(s, Widened64(h.allocCounter), words);
    words := words + [Widened64(h.allocCounter)];
  }
}

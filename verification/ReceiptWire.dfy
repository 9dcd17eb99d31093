/** The receipt's wire form: printing, parsing with a cursor, and what the two say about each other. */
module ReceiptWire {
  import opened Options
  import opened Bytes
  import opened RecordCodecs
  import opened TxTree
  import opened Receipt
  import opened PairHashing
  import H = BlockHeader

  // ---------------------------------------------------------------------
  // Checks
  // ---------------------------------------------------------------------

  predicate CheckSize(c: Chain, r: ObjectTransitionReceipt) {
    0 < |r.terminal| <= MAX_TERMINAL_BYTES && ProofHeader(c, r).Some?
  }

  predicate CheckInclusion(c: Chain, r: ObjectTransitionReceipt) {
    && r.header.height >= c.v2From
    && c.callOk(r.opening, r.page, r.header.height)
    && var id := c.spendId(r.page);
       id.Some? && Verifies(c.tx, id.value, r.path, r.txIndex, r.txCount, r.header.txRoot)
  }

  /**
   A receipt included under a block's transaction root names that block's transaction at its index, or a hash collides.
   */
  lemma ReceiptNamesBlockTransaction(c: Chain, r: ObjectTransitionReceipt, ids: seq<Digest>)
    returns (collision: Option<Colliding>)
    requires CheckInclusion(c, r) && 1 <= |ids| <= TX_TREE_LEAVES && r.header.txRoot == RootOf(c.tx, ids)
    ensures collision.Some? ==> Collides(c.tx, collision.value)
    ensures collision.None? ==> r.txCount == |ids| && r.txIndex < |ids| && c.spendId(r.page) == Some(ids[r.txIndex])
  {
    hide Verifies, RootOf, PathOf;
    VerifiedIsInRange(c, r);
    collision := InclusionIsSound(c.tx, ids, c.spendId(r.page).value, r.path, r.txIndex, r.txCount);
  }

  lemma VerifiedIsInRange(c: Chain, r: ObjectTransitionReceipt)
    requires CheckInclusion(c, r)
    ensures r.txIndex < r.txCount <= TX_TREE_LEAVES
  {
  }

  // ---------------------------------------------------------------------
  // Parts
  // ---------------------------------------------------------------------

  function HeaderFrom(bytes: seq<Byte>): Header {
    var decoded := H.FromBytes(Fit(bytes, HEADER_BYTES));
    HeaderDecodes(Fit(bytes, HEADER_BYTES));
    decoded.value
  }

  lemma HeaderDecodes(bytes: seq<Byte>)
    requires |bytes| == HEADER_BYTES
    ensures H.FromBytes(bytes).Ok?
  {
    H.WireSurvives(bytes);
  }

  function HeaderCodec(): Codec<Header> {
    Codec(HEADER_BYTES, H.ToBytes, HeaderFrom)
  }

  lemma HeadersAreLossless()
    ensures Lossless(HeaderCodec())
  {
    hide H.ToBytes, H.FromBytes;
    forall x: Header ensures HeaderFrom(H.ToBytes(x)) == x { H.HeaderSurvives(x); }
    forall b: seq<Byte> | |b| == HEADER_BYTES ensures H.ToBytes(HeaderFrom(b)) == b { H.WireSurvives(b); }
  }

  function PathBytes(path: Path): (bytes: seq<Byte>)
    ensures |bytes| == PATH_BYTES
  {
    DigestsAreLossless();
    ArraySurvives(DigestCodec(), path);
    SpanIsProduct(TX_TREE_DEPTH, 32);
    EncodeAll(DigestCodec(), path)
  }

  function PathFrom(bytes: seq<Byte>): Path
    requires |bytes| == PATH_BYTES
  {
    SpanIsProduct(TX_TREE_DEPTH, 32);
    DecodeAll(DigestCodec(), TX_TREE_DEPTH, bytes)
  }

  lemma PathSurvives(path: Path)
    ensures PathFrom(PathBytes(path)) == path
  {
    DigestsAreLossless();
    ArraySurvives(DigestCodec(), path);
    SpanIsProduct(TX_TREE_DEPTH, 32);
  }

  lemma PathBytesSurvive(bytes: seq<Byte>)
    requires |bytes| == PATH_BYTES
    ensures PathBytes(PathFrom(bytes)) == bytes
  {
    DigestsAreLossless();
    SpanIsProduct(TX_TREE_DEPTH, 32);
    ArrayBytesSurvive(DigestCodec(), TX_TREE_DEPTH, bytes);
  }

  // ---------------------------------------------------------------------
  // The head: everything both formats share
  // ---------------------------------------------------------------------

  datatype Head = Head(opening: Opening, page: Page, header: Header, epochAnchorHeader: Header, txIndex: U16,
                       txCount: U16, path: Path)

  const HEAD_WIDTHS: seq<nat> := [8, 699, 323, 212, 212, 2, 2, 256]

  lemma HeadWidthsAddUp()
    ensures Total(HEAD_WIDTHS) == HEAD_BYTES
  {
    hide Total;
    var w := HEAD_WIDTHS;
    assert w[0..] == w;
    TotalFrom(w, 0);
    TotalFrom(w, 1);
    TotalFrom(w, 2);
    TotalFrom(w, 3);
    TotalFrom(w, 4);
    TotalFrom(w, 5);
    TotalFrom(w, 6);
    TotalFrom(w, 7);
    TotalFrom(w, 8);
  }

  function HeadFields(magic: seq<Byte>, opening: seq<Byte>, page: seq<Byte>, d: Head): (fields: seq<seq<Byte>>)
    requires |magic| == 8 && |opening| == OPENING_BYTES && |page| == PAGE_BYTES
    ensures Shaped(fields, HEAD_WIDTHS)
  {
    [magic, opening, page, H.ToBytes(d.header), H.ToBytes(d.epochAnchorHeader), Le(d.txIndex, 2), Le(d.txCount, 2),
     PathBytes(d.path)]
  }

  lemma HeadShape(f: seq<seq<Byte>>)
    requires Shaped(f, HEAD_WIDTHS)
    ensures |f| == 8 && |f[1]| == OPENING_BYTES && |f[2]| == PAGE_BYTES && |f[3]| == |f[4]| == HEADER_BYTES
    ensures |f[5]| == |f[6]| == 2 && |f[7]| == PATH_BYTES
  {
  }

  function EncodeHead(c: Chain, magic: seq<Byte>, d: Head): (bytes: Option<seq<Byte>>)
    requires |magic| == 8
  {
    var opening, page := EncodeOpening(c.known, d.opening), EncodePage(d.page);
    if opening.None? || page.None? then None
    else Some(Join(HeadFields(magic, opening.value, page.value, d)))
  }

  function DecodeHead(c: Chain, bytes: seq<Byte>): Option<Head>
    requires |bytes| == HEAD_BYTES
  {
    HeadWidthsAddUp();
    var f := Split(HEAD_WIDTHS, bytes);
    HeadShape(f);
    var opening, page := DecodeOpening(c.known, f[1]), DecodePage(f[2]);
    if opening.None? || page.None? then None
    else Some(Head(opening.value, page.value, HeaderFrom(f[3]), HeaderFrom(f[4]), FromLe16(f[5]), FromLe16(f[6]),
                   PathFrom(f[7])))
  }

  /** The head survives both ways, marker included. */
  lemma HeadSurvives(c: Chain, magic: seq<Byte>, d: Head)
    requires |magic| == 8 && EncodeHead(c, magic, d).Some?
    ensures var bytes := EncodeHead(c, magic, d).value;
            |bytes| == HEAD_BYTES && bytes[..8] == magic && DecodeHead(c, bytes) == Some(d)
  {
    hide Total, Split, Join, EncodeOpening, DecodeOpening, EncodePage, DecodePage, H.ToBytes, HeaderFrom, PathBytes,
         PathFrom, Le, FromLe, Pow256;
    HeadWidthsAddUp();
    var opening, page := EncodeOpening(c.known, d.opening).value, EncodePage(d.page).value;
    OpeningCodecIsLossless(c.known, d.opening, opening);
    PageCodecIsLossless(d.page, page);
    var fields := HeadFields(magic, opening, page, d);
    FieldsSurvive(fields, HEAD_WIDTHS);
    FirstField(fields);
    H.HeaderSurvives(d.header);
    H.HeaderSurvives(d.epochAnchorHeader);
    HeaderFromWire(d.header);
    HeaderFromWire(d.epochAnchorHeader);
    IntegerSurvives(d.txIndex, 2);
    IntegerSurvives(d.txCount, 2);
    PathSurvives(d.path);
  }

  lemma HeaderFromWire(h: Header)
    ensures HeaderFrom(H.ToBytes(h)) == h
  {
    hide H.ToBytes, H.FromBytes;
    H.HeaderSurvives(h);
  }

  lemma FirstField(fields: seq<seq<Byte>>)
    requires fields != []
    ensures Join(fields)[..|fields[0]|] == fields[0]
  {
  }

  lemma HeadBytesSurvive(c: Chain, bytes: seq<Byte>)
    requires |bytes| == HEAD_BYTES && DecodeHead(c, bytes).Some?
    ensures EncodeHead(c, bytes[..8], DecodeHead(c, bytes).value) == Some(bytes)
  {
    hide Total, Split, Join, EncodeOpening, DecodeOpening, EncodePage, DecodePage, H.ToBytes, HeaderFrom, PathBytes,
         PathFrom, Le, FromLe, Pow256;
    HeadWidthsAddUp();
    var f, d := Split(HEAD_WIDTHS, bytes), DecodeHead(c, bytes).value;
    OpeningCodecIsLossless(c.known, d.opening, f[1]);
    PageCodecIsLossless(d.page, f[2]);
    WireFromHeader(f[3]);
    WireFromHeader(f[4]);
    BytesSurvive(f[5]);
    BytesSurvive(f[6]);
    PathBytesSurvive(f[7]);
    FramingSurvives(HEAD_WIDTHS, bytes);
    FirstField(f);
    assert HeadFields(f[0], f[1], f[2], d) == f;
  }

  lemma WireFromHeader(bytes: seq<Byte>)
    requires |bytes| == HEADER_BYTES
    ensures H.ToBytes(HeaderFrom(bytes)) == bytes
  {
    hide H.ToBytes, H.FromBytes;
    H.WireSurvives(bytes);
  }

  // ---------------------------------------------------------------------
  // The tail: ancestry, terminal length, terminal
  // ---------------------------------------------------------------------

  /** The ancestry part: absent when there are no descendants. */
  function AncestryBytes(descendants: seq<Header>): seq<Byte> {
    if descendants == [] then [] else Le(|descendants|, 2) + EncodeAll(HeaderCodec(), descendants)
  }

  function TailBytes(descendants: seq<Header>, terminal: seq<Byte>): seq<Byte> {
    AncestryBytes(descendants) + Le(|terminal|, 4) + terminal
  }

  function Marker(descendants: seq<Header>): (magic: seq<Byte>)
    ensures |magic| == 8
  {
    if descendants == [] then MAGIC else DESCENDANT_MAGIC
  }

  /** Descendant count and terminal offset, or nothing if the framing is off. */
  function Framing(bytes: seq<Byte>): Option<(nat, nat)> {
    if |bytes| <= FIXED_BYTES || |bytes| > MAX_RECEIPT_BYTES || (bytes[..8] != MAGIC && bytes[..8] != DESCENDANT_MAGIC)
    then None
    else
      var extended := bytes[..8] == DESCENDANT_MAGIC;
      var count := if extended then FromLe(bytes[FIXED_BYTES - 4..FIXED_BYTES - 2]) else 0;
      if extended && (count == 0 || count > MAX_RECEIPT_DESCENDANTS) then None
      else
        var prefix := PrefixFor(count);
        if |bytes| <= prefix then None
        else
          var len := FromLe(bytes[prefix - 4..prefix]);
          if len != |bytes| - prefix || len > MAX_TERMINAL_BYTES then None else Some((count, prefix))
  }

  /** Where the terminal starts. */
  function PrefixFor(count: nat): (prefix: nat)
    ensures prefix >= FIXED_BYTES
  {
    FIXED_BYTES + if count == 0 then 0 else 2 + count * HEADER_BYTES
  }

  /** What a framed string has where. */
  ghost predicate Framed(bytes: seq<Byte>, count: nat, prefix: nat) {
    && count <= MAX_RECEIPT_DESCENDANTS && prefix == PrefixFor(count) < |bytes| <= MAX_RECEIPT_BYTES
    && bytes[..8] == (if count == 0 then MAGIC else DESCENDANT_MAGIC)
    && (count > 0 ==> FromLe(bytes[FIXED_BYTES - 4..FIXED_BYTES - 2]) == count)
    && FromLe(bytes[prefix - 4..prefix]) == |bytes| - prefix <= MAX_TERMINAL_BYTES
  }

  lemma FramingIsFramed(bytes: seq<Byte>, count: nat, prefix: nat)
    ensures Framing(bytes) == Some((count, prefix)) <==> Framed(bytes, count, prefix)
  {
    hide FromLe;
    assert MAGIC[7] != DESCENDANT_MAGIC[7];
  }

  function DescendantsOf(bytes: seq<Byte>, count: nat, prefix: nat): (descendants: seq<Header>)
    requires prefix == PrefixFor(count) <= |bytes|
    ensures |descendants| == count
  {
    SpanIsProduct(count, HEADER_BYTES);
    if count == 0 then [] else DecodeAll(HeaderCodec(), count, bytes[HEAD_BYTES + 2..prefix - 4])
  }

  lemma AncestryLength(descendants: seq<Header>)
    ensures HEAD_BYTES + |AncestryBytes(descendants)| + 4 == PrefixFor(|descendants|)
    ensures descendants != [] ==> |EncodeAll(HeaderCodec(), descendants)| == |descendants| * HEADER_BYTES
  {
    hide H.ToBytes, HeaderFrom, Le;
    HeadersAreLossless();
    ArraySurvives(HeaderCodec(), descendants);
    SpanIsProduct(|descendants|, HEADER_BYTES);
  }

  /** Where the parts of a printed receipt stand. */
  lemma TailOffsets(head: seq<Byte>, descendants: seq<Header>, terminal: seq<Byte>)
    requires |head| == HEAD_BYTES
    ensures var bytes, prefix := head + TailBytes(descendants, terminal), PrefixFor(|descendants|);
            && |bytes| == prefix + |terminal|
            && bytes[..HEAD_BYTES] == head && bytes[prefix - 4..prefix] == Le(|terminal|, 4)
            && bytes[prefix..] == terminal
            && (descendants != [] ==>
                && bytes[HEAD_BYTES..HEAD_BYTES + 2] == Le(|descendants|, 2)
                && bytes[HEAD_BYTES + 2..prefix - 4] == EncodeAll(HeaderCodec(), descendants))
  {
    hide EncodeAll, Le;
    AncestryLength(descendants);
    var ancestry, len := AncestryBytes(descendants), Le(|terminal|, 4);
    var bytes, at := head + TailBytes(descendants, terminal), HEAD_BYTES + |ancestry|;
    assert bytes == head + ancestry + len + terminal;
    assert bytes[at..at + 4] == len && bytes[at + 4..] == terminal;
    if descendants != [] {
      assert bytes[HEAD_BYTES..at] == ancestry;
      assert bytes[HEAD_BYTES..HEAD_BYTES + 2] == ancestry[..2] && bytes[HEAD_BYTES + 2..at] == ancestry[2..];
    }
  }

  lemma CountsFit()
    ensures MAX_RECEIPT_DESCENDANTS < Pow256(2) && MAX_TERMINAL_BYTES < Pow256(4)
  {
    assert Pow256(2) == 65536;
  }

  lemma DescendantsSurvive(head: seq<Byte>, descendants: seq<Header>, terminal: seq<Byte>)
    requires |head| == HEAD_BYTES
    ensures var bytes, prefix := head + TailBytes(descendants, terminal), PrefixFor(|descendants|);
            prefix <= |bytes| && DescendantsOf(bytes, |descendants|, prefix) == descendants
  {
    hide EncodeAll, DecodeAll, Le, H.ToBytes, HeaderFrom, TailBytes;
    TailOffsets(head, descendants, terminal);
    HeadersAreLossless();
    ArraySurvives(HeaderCodec(), descendants);
  }

  lemma TailIsFramed(head: seq<Byte>, descendants: seq<Header>, terminal: seq<Byte>)
    requires |head| == HEAD_BYTES && head[..8] == Marker(descendants)
    requires |descendants| <= MAX_RECEIPT_DESCENDANTS && 0 < |terminal| <= MAX_TERMINAL_BYTES
    ensures Framed(head + TailBytes(descendants, terminal), |descendants|, PrefixFor(|descendants|))
  {
    hide EncodeAll, Le, FromLe, Pow256, TailBytes;
    CountsFit();
    TailOffsets(head, descendants, terminal);
    IntegerSurvives(|terminal|, 4);
    IntegerSurvives(|descendants|, 2);
    var bytes := head + TailBytes(descendants, terminal);
    assert bytes[..8] == bytes[..HEAD_BYTES][..8];
  }

  /** A printed tail is framed, and its descendants read back. */
  lemma TailSurvives(head: seq<Byte>, descendants: seq<Header>, terminal: seq<Byte>)
    requires |head| == HEAD_BYTES && head[..8] == Marker(descendants)
    requires |descendants| <= MAX_RECEIPT_DESCENDANTS && 0 < |terminal| <= MAX_TERMINAL_BYTES
    ensures var bytes, prefix := head + TailBytes(descendants, terminal), PrefixFor(|descendants|);
            && Framed(bytes, |descendants|, prefix)
            && bytes[..HEAD_BYTES] == head && bytes[prefix..] == terminal
            && DescendantsOf(bytes, |descendants|, prefix) == descendants
  {
    hide Framed, DescendantsOf, TailBytes, EncodeAll, Le;
    TailIsFramed(head, descendants, terminal);
    TailOffsets(head, descendants, terminal);
    DescendantsSurvive(head, descendants, terminal);
  }

  lemma Cut(bytes: seq<Byte>, i: nat, j: nat, k: nat)
    requires i <= j <= k <= |bytes|
    ensures bytes == bytes[..i] + (bytes[i..j] + bytes[j..k] + bytes[k..])
  {
  }

  /** The ancestry part is the printed form of the descendants it spells. */
  lemma AncestryBytesSurvive(bytes: seq<Byte>, count: nat, prefix: nat)
    requires Framed(bytes, count, prefix)
    ensures AncestryBytes(DescendantsOf(bytes, count, prefix)) == bytes[HEAD_BYTES..prefix - 4]
  {
    hide EncodeAll, DecodeAll, Le, FromLe, Pow256;
    if count > 0 {
      SpanIsProduct(count, HEADER_BYTES);
      CountedHeadersSurvive(bytes[HEAD_BYTES..HEAD_BYTES + 2], bytes[HEAD_BYTES + 2..prefix - 4], count);
      assert bytes[HEAD_BYTES..prefix - 4] == bytes[HEAD_BYTES..HEAD_BYTES + 2] + bytes[HEAD_BYTES + 2..prefix - 4];
    }
  }

  lemma CountedHeadersSurvive(two: seq<Byte>, headers: seq<Byte>, count: nat)
    requires |two| == 2 && FromLe(two) == count > 0 && |headers| == Span(count, HEADER_BYTES)
    ensures AncestryBytes(DecodeAll(HeaderCodec(), count, headers)) == two + headers
  {
    hide EncodeAll, DecodeAll, Le, FromLe, Span, H.ToBytes, HeaderFrom;
    BytesSurvive(two);
    HeadersAreLossless();
    ArrayBytesSurvive(HeaderCodec(), count, headers);
  }

  /** A framed string is the printed form of what it spells. */
  lemma TailBytesSurvive(bytes: seq<Byte>, count: nat, prefix: nat)
    requires Framed(bytes, count, prefix)
    ensures var descendants := DescendantsOf(bytes, count, prefix);
            && bytes[..8] == Marker(descendants)
            && bytes == bytes[..HEAD_BYTES] + TailBytes(descendants, bytes[prefix..])
  {
    hide AncestryBytes, DescendantsOf, Le, FromLe, Pow256;
    AncestryBytesSurvive(bytes, count, prefix);
    BytesSurvive(bytes[prefix - 4..prefix]);
    Cut(bytes, HEAD_BYTES, prefix - 4, prefix);
  }

  // ---------------------------------------------------------------------
  // The whole receipt
  // ---------------------------------------------------------------------

  function HeadOf(r: ObjectTransitionReceipt): Head {
    Head(r.opening, r.page, r.header, r.epochAnchorHeader, r.txIndex, r.txCount, r.path)
  }

  function ReceiptFrom(d: Head, descendants: seq<Header>, terminal: seq<Byte>): ObjectTransitionReceipt {
    ObjectTransitionReceipt(d.opening, d.page, d.header, d.epochAnchorHeader, d.txIndex, d.txCount, d.path, descendants,
                            terminal)
  }

  function ToBytes(c: Chain, r: ObjectTransitionReceipt): Option<seq<Byte>> {
    if !CheckSize(c, r) || !CheckInclusion(c, r) then None
    else
      var head := EncodeHead(c, Marker(r.descendants), HeadOf(r));
      if head.None? then None else Some(head.value + TailBytes(r.descendants, r.terminal))
  }

  function FromBytes(c: Chain, bytes: seq<Byte>): Option<ObjectTransitionReceipt> {
    var framing := Framing(bytes);
    if framing.None? then None
    else
      var (count, prefix) := framing.value;
      var head := DecodeHead(c, bytes[..HEAD_BYTES]);
      if head.None? then None
      else
        var r := ReceiptFrom(head.value, DescendantsOf(bytes, count, prefix), bytes[prefix..]);
        if CheckSize(c, r) && CheckInclusion(c, r) then Some(r) else None
  }

  /** Printing and parsing are inverse: a receipt prints to a string exactly when the string parses to the receipt. */
  lemma ReceiptCodecIsLossless(c: Chain, r: ObjectTransitionReceipt, bytes: seq<Byte>)
    ensures ToBytes(c, r) == Some(bytes) <==> FromBytes(c, bytes) == Some(r)
  {
    if ToBytes(c, r) == Some(bytes) {
      ReceiptSurvives(c, r);
    }
    if FromBytes(c, bytes) == Some(r) {
      ReceiptBytesSurvive(c, bytes);
    }
  }

  /**
   A receipt has a printed form, the only kind of string that parses, exactly if its records encode and every check
   holds: activation height, call, terminal size, linked and worked ancestry, and the path under the block's root.
   */
  lemma PrintsIffValid(c: Chain, r: ObjectTransitionReceipt)
    ensures ToBytes(c, r).Some? <==>
              && EncodeOpening(c.known, r.opening).Some? && EncodePage(r.page).Some?
              && 1 <= |r.terminal| <= 1_100_000 && |r.descendants| <= 42
              && (forall i :: 0 <= i < |r.descendants| ==> Descends(c, r.header, r.descendants, i))
              && c.v2From <= r.header.height && c.callOk(r.opening, r.page, r.header.height)
              && c.spendId(r.page).Some? && r.txIndex < r.txCount <= 256
              && r.header.txRoot == c.tx.tagged.f(Fold(c.tx.node, r.txIndex, c.spendId(r.page).value, r.path),
                                                  CountDigest(r.txCount))
  {
    hide EncodeOpening, EncodePage, Fold, Follow, Descends, CountDigest, TailBytes, HeadFields;
    FollowsIffDescends(c, r.header, r.descendants);
  }

  lemma ReceiptSurvives(c: Chain, r: ObjectTransitionReceipt)
    requires ToBytes(c, r).Some?
    ensures FromBytes(c, ToBytes(c, r).value) == Some(r)
  {
    hide EncodeHead, DecodeHead, TailBytes, Framing, Framed, CheckInclusion, DescendantsOf;
    var head := EncodeHead(c, Marker(r.descendants), HeadOf(r)).value;
    HeadSurvives(c, Marker(r.descendants), HeadOf(r));
    TailSurvives(head, r.descendants, r.terminal);
    FramingIsFramed(ToBytes(c, r).value, |r.descendants|, PrefixFor(|r.descendants|));
  }

  lemma ReceiptBytesSurvive(c: Chain, bytes: seq<Byte>)
    requires FromBytes(c, bytes).Some?
    ensures ToBytes(c, FromBytes(c, bytes).value) == Some(bytes)
  {
    hide EncodeHead, DecodeHead, TailBytes, CheckInclusion, DescendantsOf;
    var (count, prefix) := Framing(bytes).value;
    FramingIsFramed(bytes, count, prefix);
    TailBytesSurvive(bytes, count, prefix);
    HeadBytesSurvive(c, bytes[..HEAD_BYTES]);
    assert bytes[..HEAD_BYTES][..8] == bytes[..8];
  }

  /** Every printed receipt is within the advertised size. */
  lemma PrintedLengths(c: Chain, r: ObjectTransitionReceipt)
    requires ToBytes(c, r).Some?
    ensures FIXED_BYTES < |ToBytes(c, r).value| <= MAX_RECEIPT_BYTES
  {
    hide ToBytes, FromBytes, Framing;
    var bytes := ToBytes(c, r).value;
    ReceiptCodecIsLossless(c, r, bytes);
    AcceptedIsFramed(c, bytes);
  }

  lemma AcceptedIsFramed(c: Chain, bytes: seq<Byte>)
    requires FromBytes(c, bytes).Some?
    ensures Framing(bytes).Some? && Framed(bytes, Framing(bytes).value.0, Framing(bytes).value.1)
  {
    hide Framing, Framed, DecodeHead, CheckInclusion, DescendantsOf;
    var (count, prefix) := Framing(bytes).value;
    FramingIsFramed(bytes, count, prefix);
  }

  /** No accepted encoding is a proper prefix of another: the framing bytes already fix the length. */
  lemma AcceptedArePrefixFree(c: Chain, a: seq<Byte>, b: seq<Byte>)
    requires FromBytes(c, a).Some? && FromBytes(c, b).Some? && a <= b
    ensures a == b
  {
    hide FromBytes, Framing, FromLe;
    AcceptedIsFramed(c, a);
    AcceptedIsFramed(c, b);
    assert a[..8] == b[..8];
    assert MAGIC[7] != DESCENDANT_MAGIC[7];
    assert a[FIXED_BYTES - 4..FIXED_BYTES - 2] == b[FIXED_BYTES - 4..FIXED_BYTES - 2];
    var prefix := Framing(a).value.1;
    assert a[prefix - 4..prefix] == b[prefix - 4..prefix];
    assert a == b[..|a|];
  }

  // ---------------------------------------------------------------------
  // The loops
  // ---------------------------------------------------------------------

  /** The next `count` bytes and the cursor behind them. */
  method Take(bytes: seq<Byte>, at: nat, count: nat) returns (slice: seq<Byte>, next: nat)
    requires at + count <= |bytes|
    ensures slice == bytes[at..at + count] && next == at + count
  {
    return bytes[at..at + count], at + count;
  }

  lemma HeadSlices(bytes: seq<Byte>)
    requires |bytes| >= HEAD_BYTES
    ensures Total(HEAD_WIDTHS) == HEAD_BYTES
    ensures var f := Split(HEAD_WIDTHS, bytes[..HEAD_BYTES]);
            && f[1] == bytes[8..707] && f[2] == bytes[707..1030] && f[3] == bytes[1030..1242]
            && f[4] == bytes[1242..1454]
            && f[5] == bytes[1454..1456] && f[6] == bytes[1456..1458] && f[7] == bytes[1458..1714]
  {
    hide Total, Split;
    HeadWidthsAddUp();
    var head := bytes[..HEAD_BYTES];
    TotalFrom([], 0);
    assert HEAD_WIDTHS[..0] == [][0..];
    FieldIsSlice(HEAD_WIDTHS, head, 0, 0);
    FieldIsSlice(HEAD_WIDTHS, head, 1, 8);
    FieldIsSlice(HEAD_WIDTHS, head, 2, 707);
    FieldIsSlice(HEAD_WIDTHS, head, 3, 1030);
    FieldIsSlice(HEAD_WIDTHS, head, 4, 1242);
    FieldIsSlice(HEAD_WIDTHS, head, 5, 1454);
    FieldIsSlice(HEAD_WIDTHS, head, 6, 1456);
    FieldIsSlice(HEAD_WIDTHS, head, 7, 1458);
  }

  /** A run of fixed-width records at the cursor. */
  method TakeAll<T>(c: Codec<T>, bytes: seq<Byte>, from: nat, count: nat) returns (xs: seq<T>, at: nat)
    requires from + Span(count, c.width) <= |bytes|
    ensures at == from + Span(count, c.width) && xs == DecodeAll(c, count, bytes[from..at])
  {
    ghost var end := from + Span(count, c.width);
    xs, at := [], from;
    for i := 0 to count
      invariant from <= at && at + Span(count - i, c.width) == end
      invariant xs + DecodeAll(c, count - i, bytes[at..end]) == DecodeAll(c, count, bytes[from..end])
    {
      ghost var rest := bytes[at..end];
      var slice, next := Take(bytes, at, c.width);
      assert rest[..c.width] == slice && rest[c.width..] == bytes[next..end];
      xs := xs + [c.decode(slice)];
      at := next;
    }
  }

  /** Parses the head at the cursor; the cursor ends where the ancestry or the terminal length begins. */
  method ParseHead(c: Chain, bytes: seq<Byte>) returns (head: Option<Head>, at: nat)
    requires |bytes| >= HEAD_BYTES
    ensures head == DecodeHead(c, bytes[..HEAD_BYTES])
    ensures head.Some? ==> at == HEAD_BYTES
  {
    hide Split, DecodeOpening, DecodePage, HeaderFrom, FromLe, Pow256;
    HeadSlices(bytes);
    SpanIsProduct(TX_TREE_DEPTH, 32);
    var slice;
    slice, at := Take(bytes, 8, OPENING_BYTES);
    var opening := DecodeOpening(c.known, slice);
    if opening.None? {
      return None, at;
    }
    slice, at := Take(bytes, at, PAGE_BYTES);
    var page := DecodePage(slice);
    if page.None? {
      return None, at;
    }
    slice, at := Take(bytes, at, HEADER_BYTES);
    var header := HeaderFrom(slice);
    slice, at := Take(bytes, at, HEADER_BYTES);
    var anchor := HeaderFrom(slice);
    slice, at := Take(bytes, at, 2);
    var txIndex := FromLe16(slice);
    slice, at := Take(bytes, at, 2);
    var txCount := FromLe16(slice);
    var path;
    path, at := TakeAll(DigestCodec(), bytes, at, TX_TREE_DEPTH);
    return Some(Head(opening.value, page.value, header, anchor, txIndex, txCount, path)), at;
  }

  /** Parses a receipt; every slice is in bounds and the cursor ends exactly at the terminal length. */
  method Parse(c: Chain, bytes: seq<Byte>) returns (r: Option<ObjectTransitionReceipt>)
    ensures r == FromBytes(c, bytes)
  {
    hide DecodeHead, DecodeAll, FromLe, CheckInclusion;
    var framing := Framing(bytes);
    if framing.None? {
      return None;
    }
    var (count, prefix) := framing.value;
    FramingIsFramed(bytes, count, prefix);
    var head, at := ParseHead(c, bytes);
    if head.None? {
      return None;
    }
    var descendants: seq<Header> := [];
    if count != 0 {
      SpanIsProduct(count, HEADER_BYTES);
      descendants, at := TakeAll(HeaderCodec(), bytes, at + 2, count);
    }
    assert at == prefix - 4;
    var receipt := ReceiptFrom(head.value, descendants, bytes[prefix..]);
    if CheckSize(c, receipt) && CheckInclusion(c, receipt) {
      return Some(receipt);
    }
    return None;
  }

  /** Prints the head into a growing buffer. */
  method PrintHead(c: Chain, magic: seq<Byte>, d: Head) returns (bytes: Option<seq<Byte>>)
    requires |magic| == 8
    ensures bytes == EncodeHead(c, magic, d)
  {
    hide Join, EncodeOpening, EncodePage, H.ToBytes, Le, PathBytes;
    var opening, page := EncodeOpening(c.known, d.opening), EncodePage(d.page);
    if opening.None? || page.None? {
      return None;
    }
    ghost var fields := HeadFields(magic, opening.value, page.value, d);
    JoinOfEight(fields);
    var buffer := magic;
    buffer := buffer + opening.value;
    buffer := buffer + page.value;
    buffer := buffer + H.ToBytes(d.header);
    buffer := buffer + H.ToBytes(d.epochAnchorHeader);
    buffer := buffer + Le(d.txIndex, 2);
    buffer := buffer + Le(d.txCount, 2);
    buffer := buffer + PathBytes(d.path);
    return Some(buffer);
  }

  lemma JoinOfEight(f: seq<seq<Byte>>)
    requires |f| == 8
    ensures Join(f) == f[0] + f[1] + f[2] + f[3] + f[4] + f[5] + f[6] + f[7]
  {
    hide Join;
    JoinOfNone();
    assert f[..0] == [] && f[..8] == f;
    JoinStep(f, 0);
    JoinStep(f, 1);
    JoinStep(f, 2);
    JoinStep(f, 3);
    JoinStep(f, 4);
    JoinStep(f, 5);
    JoinStep(f, 6);
    JoinStep(f, 7);
  }

  lemma JoinOfNone()
    ensures Join([]) == []
  {
  }

  method Print(c: Chain, r: ObjectTransitionReceipt) returns (bytes: Option<seq<Byte>>)
    ensures bytes == ToBytes(c, r)
  {
    hide EncodeHead, CheckInclusion, Le;
    if !CheckSize(c, r) || !CheckInclusion(c, r) {
      return None;
    }
    var extended := r.descendants != [];
    var head := PrintHead(c, if extended then DESCENDANT_MAGIC else MAGIC, HeadOf(r));
    if head.None? {
      return None;
    }
    var buffer, tail := head.value, [];
    if extended {
      tail := Le(|r.descendants|, 2);
      for i := 0 to |r.descendants|
        invariant tail + EncodeAll(HeaderCodec(), r.descendants[i..])
               == Le(|r.descendants|, 2) + EncodeAll(HeaderCodec(), r.descendants)
      {
        assert r.descendants[i..][1..] == r.descendants[i + 1..];
        tail := tail + H.ToBytes(r.descendants[i]);
      }
    }
    assert tail == AncestryBytes(r.descendants);
    tail := tail + Le(|r.terminal|, 4) + r.terminal;
    return Some(buffer + tail);
  }
}

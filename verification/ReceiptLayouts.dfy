/** Where the parts of a printed receipt stand, byte by byte. */
module ReceiptLayouts {
  import opened Options
  import opened Bytes
  import opened RecordCodecs
  import opened RecordLayouts
  import opened Receipt
  import opened ReceiptWire
  import H = BlockHeader

  /** The path is its eight siblings, bottom up. */
  lemma PathLayout(path: Path, i: nat)
    requires i < 8
    ensures PathBytes(path)[32 * i..32 * i + 32] == path[i]
  {
    hide EncodeAll, Lossless;
    DigestsAreLossless();
    RecordAt(DigestCodec(), path, i);
  }

  lemma HeadLayout(c: Chain, magic: seq<Byte>, d: Head, b: seq<Byte>)
    requires |magic| == 8 && EncodeHead(c, magic, d) == Some(b)
    ensures |b| == HEAD_BYTES && StandsAt(b, 0, magic)
    ensures EncodeOpening(c.known, d.opening).Some? && StandsAt(b, 8, EncodeOpening(c.known, d.opening).value)
    ensures EncodePage(d.page).Some? && StandsAt(b, 707, EncodePage(d.page).value)
    ensures StandsAt(b, 1030, H.ToBytes(d.header)) && StandsAt(b, 1242, H.ToBytes(d.epochAnchorHeader))
    ensures StandsAt(b, 1454, Le(d.txIndex, 2)) && StandsAt(b, 1456, Le(d.txCount, 2))
    ensures StandsAt(b, 1458, PathBytes(d.path))
  {
    hide Total, Join, EncodeOpening, EncodePage, H.ToBytes, Le, Pow256, PathBytes, StandsAt;
    HeadWidthsAddUp();
    var f := HeadFields(magic, EncodeOpening(c.known, d.opening).value, EncodePage(d.page).value, d);
    var w := HEAD_WIDTHS;
    FieldsSurvive(f, w);
    NothingBefore(w);
    FieldStands(f, w, 0, 0);
    FieldStands(f, w, 1, 8);
    FieldStands(f, w, 2, 707);
    FieldStands(f, w, 3, 1030);
    FieldStands(f, w, 4, 1242);
    FieldStands(f, w, 5, 1454);
    FieldStands(f, w, 6, 1456);
    FieldStands(f, w, 7, 1458);
  }

  /** Where each part of a printed receipt stands, in either format. */
  lemma ReceiptLayout(c: Chain, r: ObjectTransitionReceipt, b: seq<Byte>, end: nat)
    requires ToBytes(c, r) == Some(b)
    requires end == 1714 + if r.descendants == [] then 0 else 2 + 212 * |r.descendants|
    ensures |b| == end + 4 + |r.terminal|
    ensures StandsAt(b, 0, [0x4F, 0x31, 0x4F, 0x42, 0x4A, 0x52, 0x43, if r.descendants == [] then 0x34 else 0x35])
    ensures EncodeOpening(c.known, r.opening).Some? && StandsAt(b, 8, EncodeOpening(c.known, r.opening).value)
    ensures EncodePage(r.page).Some? && StandsAt(b, 707, EncodePage(r.page).value)
    ensures StandsAt(b, 1030, H.ToBytes(r.header)) && StandsAt(b, 1242, H.ToBytes(r.epochAnchorHeader))
    ensures StandsAt(b, 1454, Le(r.txIndex, 2)) && StandsAt(b, 1456, Le(r.txCount, 2))
    ensures StandsAt(b, 1458, PathBytes(r.path))
    ensures r.descendants != [] ==> StandsAt(b, 1714, Le(|r.descendants|, 2))
    ensures forall i :: 0 <= i < |r.descendants| ==> StandsAt(b, 1716 + 212 * i, H.ToBytes(r.descendants[i]))
    ensures StandsAt(b, end, Le(|r.terminal|, 4)) && StandsAt(b, end + 4, r.terminal)
  {
    hide EncodeHead, EncodeOpening, EncodePage, H.ToBytes, Le, Pow256, PathBytes, TailBytes, EncodeAll, CheckSize,
         CheckInclusion;
    var head := EncodeHead(c, Marker(r.descendants), HeadOf(r)).value;
    HeadLayout(c, Marker(r.descendants), HeadOf(r), head);
    TailOffsets(head, r.descendants, r.terminal);
    forall at: nat, part: seq<Byte> | StandsAt(head, at, part)
      ensures StandsAt(b, at, part)
    {
      assert b[at..at + |part|] == head[at..at + |part|];
    }
    forall i | 0 <= i < |r.descendants|
      ensures StandsAt(b, 1716 + 212 * i, H.ToBytes(r.descendants[i]))
    {
      DescendantAt(r.descendants, i);
      var part := EncodeAll(HeaderCodec(), r.descendants);
      assert b[1716 + 212 * i..1928 + 212 * i] == part[212 * i..212 * i + 212];
    }
  }

  lemma DescendantAt(descendants: seq<Header>, i: nat)
    requires i < |descendants|
    ensures 212 * i + 212 <= |EncodeAll(HeaderCodec(), descendants)|
    ensures EncodeAll(HeaderCodec(), descendants)[212 * i..212 * i + 212] == H.ToBytes(descendants[i])
  {
    hide EncodeAll, Lossless;
    HeadersAreLossless();
    RecordAt(HeaderCodec(), descendants, i);
  }
}

/** Where the fields of the encoded records stand, byte by byte, and which records encode at all. */
module RecordLayouts {
  import opened Options
  import opened Bytes
  import opened Powers
  import opened RecordCodecs

  /** Record `i` of an encoded array. */
  lemma {:induction false} RecordAt<T(!new)>(c: Codec<T>, xs: seq<T>, i: nat)
    requires Lossless(c) && i < |xs|
    ensures i * c.width + c.width <= |EncodeAll(c, xs)|
    ensures EncodeAll(c, xs)[i * c.width..i * c.width + c.width] == c.encode(xs[i])
  {
    hide EncodeAll;
    EncodeFirst(c, xs);
    var bytes, rest, w := EncodeAll(c, xs), EncodeAll(c, xs[1..]), c.width;
    if i > 0 {
      RecordAt(c, xs[1..], i - 1);
      assert i * w == (i - 1) * w + w;
      assert bytes[i * w..i * w + w] == rest[(i - 1) * w..(i - 1) * w + w];
    }
  }

  lemma EncodeFirst<T(!new)>(c: Codec<T>, xs: seq<T>)
    requires xs != [] && Lossless(c)
    ensures EncodeAll(c, xs) == c.encode(xs[0]) + EncodeAll(c, xs[1..]) && |c.encode(xs[0])| == c.width
  {
  }

  // ---------------------------------------------------------------------
  // Transaction pages
  // ---------------------------------------------------------------------

  /** A bit is the parity of the bitmap shifted down to it. */
  lemma {:induction false} BitIsShift(bitmap: nat, index: nat)
    ensures Bit(bitmap, index) <==> Shr(bitmap, index) % 2 == 1
    decreases index
  {
    if index > 0 {
      BitIsShift(bitmap / 2, index - 1);
      ShrOfHalf(bitmap, index);
    }
  }

  /** A page encodes exactly if it is no coinbase, defines no further bit, and is zero wherever its bits are clear. */
  lemma PageEncodesIff(p: Page)
    ensures EncodePage(p).Some? <==>
              && p.validityBitmap < 16384 && !p.isCoinbase
              && (forall i: nat :: i < 8 && Shr(p.validityBitmap, i) % 2 == 0 ==> p.inputs[i] == TxInput(0, 0, 0))
              && (forall i: nat :: i < 2 && Shr(p.validityBitmap, 8 + i) % 2 == 0 ==>
                    p.outputs[i] == TxOutput(0, 0, Zeros(32)))
  {
    hide Shr, Bit, Zeros;
    forall i: nat
      ensures Bit(p.validityBitmap, i) <==> Shr(p.validityBitmap, i) % 2 == 1
    {
      BitIsShift(p.validityBitmap, i);
    }
  }

  /** Where each field of a page stands. */
  lemma PageLayout(p: Page)
    requires PageShape(p)
    ensures var b := EncodePage(p).value;
            && b[0..32] == p.epochAnchor && b[32..40] == Le(p.fee, 8) && b[40..72] == p.inputOwner
            && b[72..232] == InputsBytes(p.inputs) && b[232..320] == OutputsBytes(p.outputs)
            && b[320..322] == Le(p.validityBitmap, 2) && b[322] == 0
  {
    hide Total, Join, Le, Pow256, InputsBytes, OutputsBytes;
    var f, w := PageFields(p), PAGE_WIDTHS;
    NothingBefore(w);
    JoinedField(f, w, 0, 0);
    JoinedField(f, w, 1, 32);
    JoinedField(f, w, 2, 40);
    JoinedField(f, w, 3, 72);
    JoinedField(f, w, 4, 232);
    JoinedField(f, w, 5, 320);
    JoinedField(f, w, 6, 322);
    var b := EncodePage(p).value;
    assert b[322..323] == f[6];
    assert b[322..323][0] == b[322];
  }

  /** Where each input stands, and its fields in it. */
  lemma InputsLayout(inputs: Inputs, i: nat)
    requires i < 8
    ensures InputsBytes(inputs)[20 * i..20 * i + 20] == EncodeInput(inputs[i])
  {
    hide EncodeAll, EncodeInput, Lossless;
    InputsAreLossless();
    RecordAt(InputCodec(), inputs, i);
  }

  lemma OutputsLayout(outputs: Outputs, i: nat)
    requires i < 2
    ensures OutputsBytes(outputs)[44 * i..44 * i + 44] == EncodeOutput(outputs[i])
  {
    hide EncodeAll, EncodeOutput, Lossless;
    OutputsAreLossless();
    RecordAt(OutputCodec(), outputs, i);
  }

  lemma InputLayout(x: TxInput)
    ensures var b := EncodeInput(x);
            b[0..4] == Le(x.slotIndex, 4) && b[4..12] == Le(x.amount, 8) && b[12..20] == Le(x.creationId, 8)
  {
    hide Total, Join, Le, Pow256;
    var f, w := [Le(x.slotIndex, 4), Le(x.amount, 8), Le(x.creationId, 8)], INPUT_WIDTHS;
    NothingBefore(w);
    JoinedField(f, w, 0, 0);
    JoinedField(f, w, 1, 4);
    JoinedField(f, w, 2, 12);
  }

  lemma OutputLayout(x: TxOutput)
    ensures var b := EncodeOutput(x);
            b[0..4] == Le(x.slotIndex, 4) && b[4..12] == Le(x.amount, 8) && b[12..44] == x.owner
  {
    hide Total, Join, Le, Pow256;
    var f, w := [Le(x.slotIndex, 4), Le(x.amount, 8), x.owner], OUTPUT_WIDTHS;
    NothingBefore(w);
    JoinedField(f, w, 0, 0);
    JoinedField(f, w, 1, 4);
    JoinedField(f, w, 2, 12);
  }

  // ---------------------------------------------------------------------
  // Contract openings
  // ---------------------------------------------------------------------

  /** An opening encodes exactly if it uses no mode past the five defined ones and all sixteen instructions decode. */
  lemma OpeningEncodesIff(known: InstructionSet, o: Opening)
    ensures EncodeOpening(known, o).Some? <==>
              && o.rules.modes < 32
              && forall step :: 0 <= step < 16 ==> known(o.program[2 * step], o.program[2 * step + 1])
  {
  }

  /** Where each field of an opening stands. */
  lemma OpeningLayout(known: InstructionSet, o: Opening)
    requires OpeningOk(known, o)
    ensures var b := EncodeOpening(known, o).value;
            && b[0..8] == [0x4E, 0x4F, 0x49, 0x44, 0x4F, 0x42, 0x4A, 0x33] && b[8..10] == Le(3, 2)
            && b[10..522] == ProgramBytes(o.program) && b[522..538] == Le(o.state, 16)
            && b[538..570] == o.claimAuthority && b[570..602] == o.recoveryAuthority
            && b[602..610] == Le(o.deadline, 8) && b[610..642] == o.claimRecipient
            && b[642..674] == o.recoveryRecipient && b[674..699] == RulesBytes(o.rules)
  {
    hide Total, Join, Le, Pow256, ProgramBytes, RulesBytes;
    var f, w := OpeningFields(o), OPENING_WIDTHS;
    NothingBefore(w);
    JoinedField(f, w, 0, 0);
    JoinedField(f, w, 1, 8);
    JoinedField(f, w, 2, 10);
    JoinedField(f, w, 3, 522);
    JoinedField(f, w, 4, 538);
    JoinedField(f, w, 5, 570);
    JoinedField(f, w, 6, 602);
    JoinedField(f, w, 7, 610);
    JoinedField(f, w, 8, 642);
    JoinedField(f, w, 9, 674);
  }

  /** Where each rule and each program word stands inside its part. */
  lemma RulesLayout(r: ObjectRules, p: Program, i: nat)
    ensures var b := RulesBytes(r);
            && b[0..8] == Le(r.maxFee, 8) && b[8..16] == Le(r.minRetained, 8) && b[16..24] == Le(r.maxPayout, 8)
            && b[24..25] == [r.modes]
    ensures i < 32 ==> ProgramBytes(p)[16 * i..16 * i + 16] == Le(p[i], 16)
  {
    hide Total, Join, Le, Pow256, EncodeAll, Lossless;
    var f, w := RulesFields(r), RULE_WIDTHS;
    NothingBefore(w);
    JoinedField(f, w, 0, 0);
    JoinedField(f, w, 1, 8);
    JoinedField(f, w, 2, 16);
    JoinedField(f, w, 3, 24);
    if i < 32 {
      WordsAreLossless();
      RecordAt(WordCodec(), p, i);
    }
  }
}

/** Fixed-width codecs of the records a receipt carries: contract openings and transaction pages. */
module RecordCodecs {
  import opened Options
  import opened Bytes

  // ---------------------------------------------------------------------
  // Lossless codecs and arrays of them
  // ---------------------------------------------------------------------

  datatype Codec<!T> = Codec(width: nat, encode: T -> seq<Byte>, decode: seq<Byte> -> T)

  /** Values survive encoding, and strings of the right width survive decoding. */
  ghost predicate Lossless<T(!new)>(c: Codec<T>) {
    && (forall x :: |c.encode(x)| == c.width && c.decode(c.encode(x)) == x)
    && (forall b: seq<Byte> :: |b| == c.width ==> c.encode(c.decode(b)) == b)
  }

  /** `count` records of `width` bytes. */
  function Span(count: nat, width: nat): nat
    decreases count
  {
    if count == 0 then 0 else width + Span(count - 1, width)
  }

  lemma {:induction false} SpanIsProduct(count: nat, width: nat)
    ensures Span(count, width) == count * width
    decreases count
  {
    if count > 0 {
      SpanIsProduct(count - 1, width);
      assert count * width == (count - 1) * width + width;
    }
  }

  function EncodeAll<T>(c: Codec<T>, xs: seq<T>): seq<Byte> {
    if xs == [] then [] else c.encode(xs[0]) + EncodeAll(c, xs[1..])
  }

  function DecodeAll<T>(c: Codec<T>, count: nat, bytes: seq<Byte>): (xs: seq<T>)
    requires |bytes| == Span(count, c.width)
    ensures |xs| == count
    decreases count
  {
    if count == 0 then [] else [c.decode(bytes[..c.width])] + DecodeAll(c, count - 1, bytes[c.width..])
  }

  lemma {:induction false} ArraySurvives<T(!new)>(c: Codec<T>, xs: seq<T>)
    requires Lossless(c)
    ensures |EncodeAll(c, xs)| == Span(|xs|, c.width) && DecodeAll(c, |xs|, EncodeAll(c, xs)) == xs
  {
    if xs != [] {
      ArraySurvives(c, xs[1..]);
      var bytes := EncodeAll(c, xs);
      assert bytes[..c.width] == c.encode(xs[0]) && bytes[c.width..] == EncodeAll(c, xs[1..]);
      assert xs == [xs[0]] + xs[1..];
    }
  }

  lemma {:induction false} ArrayBytesSurvive<T(!new)>(c: Codec<T>, count: nat, bytes: seq<Byte>)
    requires Lossless(c) && |bytes| == Span(count, c.width)
    ensures EncodeAll(c, DecodeAll(c, count, bytes)) == bytes
    decreases count
  {
    if count > 0 {
      ArrayBytesSurvive(c, count - 1, bytes[c.width..]);
      var xs := DecodeAll(c, count, bytes);
      assert xs[1..] == DecodeAll(c, count - 1, bytes[c.width..]);
      assert bytes == bytes[..c.width] + bytes[c.width..];
    }
  }

  /** A string of the given width, whatever is passed. */
  function Fit(bytes: seq<Byte>, width: nat): (fit: seq<Byte>)
    ensures |fit| == width && (|bytes| == width ==> fit == bytes)
  {
    if |bytes| == width then bytes else Zeros(width)
  }

  // ---------------------------------------------------------------------
  // Words and digests
  // ---------------------------------------------------------------------

  function WordCodec(): Codec<U128> {
    Codec(16, (n: U128) => Le(n, 16), (b: seq<Byte>) => FromLe128(Fit(b, 16)))
  }

  lemma WordsAreLossless()
    ensures Lossless(WordCodec())
  {
    hide Pow256, Le, FromLe;
    forall n: U128 ensures FromLe128(Fit(Le(n, 16), 16)) == n { IntegerSurvives(n, 16); }
    forall b: seq<Byte> | |b| == 16 ensures Le(FromLe128(Fit(b, 16)), 16) == b { BytesSurvive(b); }
  }

  function FitDigest(b: seq<Byte>): (d: Digest)
    ensures |b| == 32 ==> d == b
  {
    Fit(b, 32)
  }

  function DigestBytes(d: Digest): (b: seq<Byte>)
    ensures |b| == 32 && b == d
  {
    d
  }

  function DigestCodec(): Codec<Digest> {
    Codec<Digest>.Codec(32, DigestBytes, FitDigest)
  }

  lemma DigestsAreLossless()
    ensures Lossless(DigestCodec())
  {
  }

  // ---------------------------------------------------------------------
  // Transaction pages
  // ---------------------------------------------------------------------

  const TX_INPUTS: nat := 8
  const TX_OUTPUTS: nat := 2
  const INPUT_WIDTHS: seq<nat> := [4, 8, 8]
  const OUTPUT_WIDTHS: seq<nat> := [4, 8, 32]
  const INPUT_BYTES: nat := 20
  const OUTPUT_BYTES: nat := 44
  const PAGE_WIDTHS: seq<nat> := [32, 8, 32, 160, 88, 2, 1]
  const PAGE_BYTES: nat := 323

  datatype TxInput = TxInput(slotIndex: U32, amount: U64, creationId: U64)
  datatype TxOutput = TxOutput(slotIndex: U32, amount: U64, owner: Digest)

  type Inputs = xs: seq<TxInput> | |xs| == TX_INPUTS witness seq(TX_INPUTS, _ => TxInput(0, 0, 0))
  type Outputs = xs: seq<TxOutput> | |xs| == TX_OUTPUTS witness seq(TX_OUTPUTS, _ => TxOutput(0, 0, Zeros(32)))

  datatype Page = Page(epochAnchor: Digest, fee: U64, inputOwner: Digest, inputs: Inputs, outputs: Outputs,
                       validityBitmap: U16, isCoinbase: bool)

  lemma TotalOf3(w: seq<nat>)
    requires |w| == 3
    ensures Total(w) == w[0] + w[1] + w[2]
  {
    hide Total;
    assert w[0..] == w;
    TotalFrom(w, 0);
    TotalFrom(w, 1);
    TotalFrom(w, 2);
    TotalFrom(w, 3);
  }

  function EncodeInput(x: TxInput): (bytes: seq<Byte>)
    ensures |bytes| == INPUT_BYTES
  {
    var fields := [Le(x.slotIndex, 4), Le(x.amount, 8), Le(x.creationId, 8)];
    FieldsSurvive(fields, INPUT_WIDTHS);
    TotalOf3(INPUT_WIDTHS);
    Join(fields)
  }

  function DecodeInput(bytes: seq<Byte>): TxInput {
    TotalOf3(INPUT_WIDTHS);
    var f := Split(INPUT_WIDTHS, Fit(bytes, INPUT_BYTES));
    TxInput(FromLe32(f[0]), FromLe64(f[1]), FromLe64(f[2]))
  }

  function InputCodec(): Codec<TxInput> {
    Codec(INPUT_BYTES, EncodeInput, DecodeInput)
  }

  lemma InputSurvives(x: TxInput)
    ensures DecodeInput(EncodeInput(x)) == x
  {
    hide Pow256, Le, FromLe, Join, Split;
    FieldsSurvive([Le(x.slotIndex, 4), Le(x.amount, 8), Le(x.creationId, 8)], INPUT_WIDTHS);
    IntegerSurvives(x.slotIndex, 4);
    IntegerSurvives(x.amount, 8);
    IntegerSurvives(x.creationId, 8);
  }

  lemma InputBytesSurvive(bytes: seq<Byte>)
    requires |bytes| == INPUT_BYTES
    ensures EncodeInput(DecodeInput(bytes)) == bytes
  {
    hide Pow256, Le, FromLe, Join, Split;
    TotalOf3(INPUT_WIDTHS);
    var f := Split(INPUT_WIDTHS, bytes);
    BytesSurvive(f[0]);
    BytesSurvive(f[1]);
    BytesSurvive(f[2]);
    assert [f[0], f[1], f[2]] == f;
    FramingSurvives(INPUT_WIDTHS, bytes);
  }

  lemma InputsAreLossless()
    ensures Lossless(InputCodec())
  {
    hide EncodeInput, DecodeInput;
    forall x: TxInput ensures DecodeInput(EncodeInput(x)) == x { InputSurvives(x); }
    forall b: seq<Byte> | |b| == INPUT_BYTES ensures EncodeInput(DecodeInput(b)) == b { InputBytesSurvive(b); }
  }

  function EncodeOutput(x: TxOutput): (bytes: seq<Byte>)
    ensures |bytes| == OUTPUT_BYTES
  {
    var fields := [Le(x.slotIndex, 4), Le(x.amount, 8), x.owner];
    FieldsSurvive(fields, OUTPUT_WIDTHS);
    TotalOf3(OUTPUT_WIDTHS);
    Join(fields)
  }

  function DecodeOutput(bytes: seq<Byte>): TxOutput {
    TotalOf3(OUTPUT_WIDTHS);
    var f := Split(OUTPUT_WIDTHS, Fit(bytes, OUTPUT_BYTES));
    TxOutput(FromLe32(f[0]), FromLe64(f[1]), f[2])
  }

  function OutputCodec(): Codec<TxOutput> {
    Codec(OUTPUT_BYTES, EncodeOutput, DecodeOutput)
  }

  lemma OutputSurvives(x: TxOutput)
    ensures DecodeOutput(EncodeOutput(x)) == x
  {
    hide Pow256, Le, FromLe, Join, Split;
    FieldsSurvive([Le(x.slotIndex, 4), Le(x.amount, 8), x.owner], OUTPUT_WIDTHS);
    IntegerSurvives(x.slotIndex, 4);
    IntegerSurvives(x.amount, 8);
  }

  lemma OutputBytesSurvive(bytes: seq<Byte>)
    requires |bytes| == OUTPUT_BYTES
    ensures EncodeOutput(DecodeOutput(bytes)) == bytes
  {
    hide Pow256, Le, FromLe, Join, Split;
    TotalOf3(OUTPUT_WIDTHS);
    var f := Split(OUTPUT_WIDTHS, bytes);
    BytesSurvive(f[0]);
    BytesSurvive(f[1]);
    assert [f[0], f[1], f[2]] == f;
    FramingSurvives(OUTPUT_WIDTHS, bytes);
  }

  lemma OutputsAreLossless()
    ensures Lossless(OutputCodec())
  {
    hide EncodeOutput, DecodeOutput;
    forall x: TxOutput ensures DecodeOutput(EncodeOutput(x)) == x { OutputSurvives(x); }
    forall b: seq<Byte> | |b| == OUTPUT_BYTES ensures EncodeOutput(DecodeOutput(b)) == b { OutputBytesSurvive(b); }
  }

  function InputsBytes(xs: Inputs): (bytes: seq<Byte>)
    ensures |bytes| == 160
  {
    InputsAreLossless();
    ArraySurvives(InputCodec(), xs);
    EncodeAll(InputCodec(), xs)
  }

  function InputsFrom(bytes: seq<Byte>): Inputs
    requires |bytes| == 160
  {
    DecodeAll(InputCodec(), TX_INPUTS, bytes)
  }

  lemma InputsSurvive(xs: Inputs)
    ensures InputsFrom(InputsBytes(xs)) == xs
  {
    InputsAreLossless();
    ArraySurvives(InputCodec(), xs);
  }

  lemma InputsBytesSurvive(bytes: seq<Byte>)
    requires |bytes| == 160
    ensures InputsBytes(InputsFrom(bytes)) == bytes
  {
    InputsAreLossless();
    ArrayBytesSurvive(InputCodec(), TX_INPUTS, bytes);
  }

  function OutputsBytes(xs: Outputs): (bytes: seq<Byte>)
    ensures |bytes| == 88
  {
    OutputsAreLossless();
    ArraySurvives(OutputCodec(), xs);
    EncodeAll(OutputCodec(), xs)
  }

  function OutputsFrom(bytes: seq<Byte>): Outputs
    requires |bytes| == 88
  {
    DecodeAll(OutputCodec(), TX_OUTPUTS, bytes)
  }

  lemma OutputsSurvive(xs: Outputs)
    ensures OutputsFrom(OutputsBytes(xs)) == xs
  {
    OutputsAreLossless();
    ArraySurvives(OutputCodec(), xs);
  }

  lemma OutputsBytesSurvive(bytes: seq<Byte>)
    requires |bytes| == 88
    ensures OutputsBytes(OutputsFrom(bytes)) == bytes
  {
    OutputsAreLossless();
    ArrayBytesSurvive(OutputCodec(), TX_OUTPUTS, bytes);
  }

  predicate Bit(bitmap: nat, index: nat) {
    if index == 0 then bitmap % 2 == 1 else Bit(bitmap / 2, index - 1)
  }

  /** Bits past the 14 defined ones are clear, it is no coinbase, and every dead input and output is zero. */
  predicate PageShape(p: Page) {
    && p.validityBitmap < 0x4000
    && !p.isCoinbase
    && (forall i :: 0 <= i < TX_INPUTS ==> Bit(p.validityBitmap, i) || p.inputs[i] == TxInput(0, 0, 0))
    && (forall i :: 0 <= i < TX_OUTPUTS ==>
          Bit(p.validityBitmap, TX_INPUTS + i) || p.outputs[i] == TxOutput(0, 0, Zeros(32)))
  }

  function PageFields(p: Page): (fields: seq<seq<Byte>>)
    ensures Shaped(fields, PAGE_WIDTHS)
  {
    [p.epochAnchor, Le(p.fee, 8), p.inputOwner, InputsBytes(p.inputs), OutputsBytes(p.outputs),
     Le(p.validityBitmap, 2), [if p.isCoinbase then 1 else 0]]
  }

  function PageFrom(f: seq<seq<Byte>>): Page
    requires Shaped(f, PAGE_WIDTHS)
  {
    Page(f[0], FromLe64(f[1]), f[2], InputsFrom(f[3]), OutputsFrom(f[4]), FromLe16(f[5]), f[6][0] == 1)
  }

  lemma PageWidthsAddUp()
    ensures Total(PAGE_WIDTHS) == PAGE_BYTES
  {
    hide Total;
    var w := PAGE_WIDTHS;
    assert w[0..] == w;
    TotalFrom(w, 0);
    TotalFrom(w, 1);
    TotalFrom(w, 2);
    TotalFrom(w, 3);
    TotalFrom(w, 4);
    TotalFrom(w, 5);
    TotalFrom(w, 6);
    TotalFrom(w, 7);
  }

  /** Encoding refuses a page of the wrong shape. */
  function EncodePage(p: Page): (bytes: Option<seq<Byte>>)
    ensures bytes.Some? <==> PageShape(p)
    ensures bytes.Some? ==> |bytes.value| == PAGE_BYTES
  {
    PageWidthsAddUp();
    FieldsSurvive(PageFields(p), PAGE_WIDTHS);
    if PageShape(p) then Some(Join(PageFields(p))) else None
  }

  /** Decoding refuses another length, a flag byte other than 0 or 1, and a page of the wrong shape. */
  function DecodePage(bytes: seq<Byte>): Option<Page> {
    PageWidthsAddUp();
    if |bytes| != PAGE_BYTES then None
    else
      var f := Split(PAGE_WIDTHS, bytes);
      if f[6][0] > 1 then None
      else if PageShape(PageFrom(f)) then Some(PageFrom(f))
      else None
  }

  lemma PageFieldsRoundTrip(p: Page)
    ensures PageFrom(PageFields(p)) == p && PageFields(p)[6][0] <= 1
  {
    hide Pow256, Le, FromLe, InputsBytes, InputsFrom, OutputsBytes, OutputsFrom;
    IntegerSurvives(p.fee, 8);
    IntegerSurvives(p.validityBitmap, 2);
    InputsSurvive(p.inputs);
    OutputsSurvive(p.outputs);
  }

  lemma PageFieldsOfRecord(f: seq<seq<Byte>>)
    requires Shaped(f, PAGE_WIDTHS) && f[6][0] <= 1
    ensures PageFields(PageFrom(f)) == f
  {
    hide Pow256, Le, FromLe, InputsBytes, InputsFrom, OutputsBytes, OutputsFrom;
    BytesSurvive(f[1]);
    BytesSurvive(f[5]);
    InputsBytesSurvive(f[3]);
    OutputsBytesSurvive(f[4]);
    assert f[6] == [f[6][0]];
  }

  /** The page codec is a bijection between well-shaped pages and accepted strings. */
  lemma PageCodecIsLossless(p: Page, bytes: seq<Byte>)
    ensures EncodePage(p) == Some(bytes) <==> DecodePage(bytes) == Some(p)
  {
    hide Total, Split, Join, PageFields, PageFrom, PageShape;
    PageWidthsAddUp();
    FieldsSurvive(PageFields(p), PAGE_WIDTHS);
    PageFieldsRoundTrip(p);
    if DecodePage(bytes) == Some(p) {
      FramingSurvives(PAGE_WIDTHS, bytes);
      PageFieldsOfRecord(Split(PAGE_WIDTHS, bytes));
    }
  }

  // ---------------------------------------------------------------------
  // Contract openings
  // ---------------------------------------------------------------------

  const OPENING_MAGIC: seq<Byte> := [0x4E, 0x4F, 0x49, 0x44, 0x4F, 0x42, 0x4A, 0x33]
  const OBJECT_VERSION: U16 := 3
  const PROGRAM_WORDS: nat := 32
  const VALID_MODES: nat := 31
  const OPENING_FRONT: seq<nat> := [8, 2, 512, 16, 32]
  const OPENING_BACK: seq<nat> := [32, 8, 32, 32, 25]
  const OPENING_WIDTHS: seq<nat> := OPENING_FRONT + OPENING_BACK
  const OPENING_BYTES: nat := 699
  const RULE_WIDTHS: seq<nat> := [8, 8, 8, 1]
  const RULE_BYTES: nat := 25

  type Program = xs: seq<U128> | |xs| == PROGRAM_WORDS witness seq(PROGRAM_WORDS, _ => 0)

  datatype ObjectRules = ObjectRules(maxFee: U64, minRetained: U64, maxPayout: U64, modes: Byte)

  datatype Opening = Opening(program: Program, state: U128, claimAuthority: Digest, recoveryAuthority: Digest,
                             deadline: U64, claimRecipient: Digest, recoveryRecipient: Digest, rules: ObjectRules)

  /** Whether two words decode to an instruction; the instruction set itself is not modelled. */
  type InstructionSet = (U128, U128) -> bool

  /** No undefined mode, and every instruction decodes. */
  predicate OpeningOk(known: InstructionSet, o: Opening) {
    && o.rules.modes <= VALID_MODES
    && forall step :: 0 <= step < PROGRAM_WORDS / 2 ==> known(o.program[2 * step], o.program[2 * step + 1])
  }

  function ProgramBytes(p: Program): (bytes: seq<Byte>)
    ensures |bytes| == 512
  {
    WordsAreLossless();
    ArraySurvives(WordCodec(), p);
    SpanIsProduct(PROGRAM_WORDS, 16);
    EncodeAll(WordCodec(), p)
  }

  function ProgramFrom(bytes: seq<Byte>): Program
    requires |bytes| == 512
  {
    SpanIsProduct(PROGRAM_WORDS, 16);
    DecodeAll(WordCodec(), PROGRAM_WORDS, bytes)
  }

  lemma ProgramSurvives(p: Program)
    ensures ProgramFrom(ProgramBytes(p)) == p
  {
    WordsAreLossless();
    ArraySurvives(WordCodec(), p);
    SpanIsProduct(PROGRAM_WORDS, 16);
  }

  lemma ProgramBytesSurvive(bytes: seq<Byte>)
    requires |bytes| == 512
    ensures ProgramBytes(ProgramFrom(bytes)) == bytes
  {
    WordsAreLossless();
    SpanIsProduct(PROGRAM_WORDS, 16);
    ArrayBytesSurvive(WordCodec(), PROGRAM_WORDS, bytes);
  }

  lemma RuleWidthsAddUp()
    ensures Total(RULE_WIDTHS) == RULE_BYTES
  {
    hide Total;
    var w := RULE_WIDTHS;
    assert w[0..] == w;
    TotalFrom(w, 0);
    TotalFrom(w, 1);
    TotalFrom(w, 2);
    TotalFrom(w, 3);
    TotalFrom(w, 4);
  }

  function RulesFields(r: ObjectRules): (fields: seq<seq<Byte>>)
    ensures Shaped(fields, RULE_WIDTHS)
  {
    [Le(r.maxFee, 8), Le(r.minRetained, 8), Le(r.maxPayout, 8), [r.modes]]
  }

  function RulesBytes(r: ObjectRules): (bytes: seq<Byte>)
    ensures |bytes| == RULE_BYTES
  {
    FieldsSurvive(RulesFields(r), RULE_WIDTHS);
    RuleWidthsAddUp();
    Join(RulesFields(r))
  }

  function RulesFrom(bytes: seq<Byte>): ObjectRules
    requires |bytes| == RULE_BYTES
  {
    RuleWidthsAddUp();
    var f := Split(RULE_WIDTHS, bytes);
    ObjectRules(FromLe64(f[0]), FromLe64(f[1]), FromLe64(f[2]), f[3][0])
  }

  lemma RulesSurvive(r: ObjectRules)
    ensures RulesFrom(RulesBytes(r)) == r
  {
    hide Pow256, Le, FromLe, Join, Split;
    FieldsSurvive(RulesFields(r), RULE_WIDTHS);
    IntegerSurvives(r.maxFee, 8);
    IntegerSurvives(r.minRetained, 8);
    IntegerSurvives(r.maxPayout, 8);
  }

  lemma RulesBytesSurvive(bytes: seq<Byte>)
    requires |bytes| == RULE_BYTES
    ensures RulesBytes(RulesFrom(bytes)) == bytes
  {
    hide Pow256, Le, FromLe, Join, Split;
    RuleWidthsAddUp();
    var f := Split(RULE_WIDTHS, bytes);
    BytesSurvive(f[0]);
    BytesSurvive(f[1]);
    BytesSurvive(f[2]);
    assert f[3] == [f[3][0]];
    assert RulesFields(RulesFrom(bytes)) == f;
    FramingSurvives(RULE_WIDTHS, bytes);
  }

  function OpeningFields(o: Opening): (fields: seq<seq<Byte>>)
    ensures Shaped(fields, OPENING_WIDTHS)
  {
    OpeningFront(o) + OpeningBack(o)
  }

  function OpeningFront(o: Opening): (fields: seq<seq<Byte>>)
    ensures Shaped(fields, OPENING_FRONT)
  {
    [OPENING_MAGIC, Le(OBJECT_VERSION, 2), ProgramBytes(o.program), Le(o.state, 16), o.claimAuthority]
  }

  function OpeningBack(o: Opening): (fields: seq<seq<Byte>>)
    ensures Shaped(fields, OPENING_BACK)
  {
    [o.recoveryAuthority, Le(o.deadline, 8), o.claimRecipient, o.recoveryRecipient, RulesBytes(o.rules)]
  }

  function OpeningFrom(f: seq<seq<Byte>>): Opening
    requires Shaped(f, OPENING_WIDTHS)
  {
    Opening(ProgramFrom(f[2]), FromLe128(f[3]), f[4], f[5], FromLe64(f[6]), f[7], f[8], RulesFrom(f[9]))
  }

  lemma OpeningWidthsAddUp()
    ensures Total(OPENING_WIDTHS) == OPENING_BYTES
  {
    hide Total;
    var w := OPENING_WIDTHS;
    assert w[0..] == w;
    TotalFrom(w, 0);
    TotalFrom(w, 1);
    TotalFrom(w, 2);
    TotalFrom(w, 3);
    TotalFrom(w, 4);
    TotalFrom(w, 5);
    TotalFrom(w, 6);
    TotalFrom(w, 7);
    TotalFrom(w, 8);
    TotalFrom(w, 9);
    TotalFrom(w, 10);
  }

  function EncodeOpening(known: InstructionSet, o: Opening): (bytes: Option<seq<Byte>>)
    ensures bytes.Some? <==> OpeningOk(known, o)
    ensures bytes.Some? ==> |bytes.value| == OPENING_BYTES
  {
    OpeningWidthsAddUp();
    FieldsSurvive(OpeningFields(o), OPENING_WIDTHS);
    if OpeningOk(known, o) then Some(Join(OpeningFields(o))) else None
  }

  /** Decoding refuses another length, marker or version, and an opening that does not validate. */
  function DecodeOpening(known: InstructionSet, bytes: seq<Byte>): Option<Opening> {
    OpeningWidthsAddUp();
    if |bytes| != OPENING_BYTES then None
    else
      var f := Split(OPENING_WIDTHS, bytes);
      if f[0] != OPENING_MAGIC || FromLe16(f[1]) != OBJECT_VERSION then None
      else if OpeningOk(known, OpeningFrom(f)) then Some(OpeningFrom(f))
      else None
  }

  lemma OpeningFieldsRoundTrip(o: Opening)
    ensures OpeningFrom(OpeningFields(o)) == o
    ensures OpeningFields(o)[0] == OPENING_MAGIC && OpeningFields(o)[1] == Le(OBJECT_VERSION, 2)
  {
    hide Pow256, Le, FromLe, ProgramBytes, ProgramFrom, RulesBytes, RulesFrom;
    RulesSurvive(o.rules);
    ProgramSurvives(o.program);
    IntegerSurvives(o.state, 16);
    IntegerSurvives(o.deadline, 8);
  }

  lemma OpeningFieldsOfRecord(f: seq<seq<Byte>>)
    requires Shaped(f, OPENING_WIDTHS) && f[0] == OPENING_MAGIC && FromLe16(f[1]) == OBJECT_VERSION
    ensures OpeningFields(OpeningFrom(f)) == f
  {
    hide Pow256, Le, FromLe, ProgramBytes, ProgramFrom, RulesBytes, RulesFrom;
    BytesSurvive(f[1]);
    ProgramBytesSurvive(f[2]);
    BytesSurvive(f[3]);
    BytesSurvive(f[6]);
    RulesBytesSurvive(f[9]);
  }

  /** The opening codec is a bijection between valid openings and accepted strings. */
  lemma OpeningCodecIsLossless(known: InstructionSet, o: Opening, bytes: seq<Byte>)
    ensures EncodeOpening(known, o) == Some(bytes) <==> DecodeOpening(known, bytes) == Some(o)
  {
    hide Total, Split, Join, OpeningFields, OpeningFrom, OpeningOk, Le, FromLe, Pow256;
    OpeningWidthsAddUp();
    IntegerSurvives(OBJECT_VERSION, 2);
    FieldsSurvive(OpeningFields(o), OPENING_WIDTHS);
    OpeningFieldsRoundTrip(o);
    if DecodeOpening(known, bytes) == Some(o) {
      FramingSurvives(OPENING_WIDTHS, bytes);
      OpeningFieldsOfRecord(Split(OPENING_WIDTHS, bytes));
    }
  }
}

/**
 The quirky multilinear evaluation: a Lagrange fold of every block, then pairwise folding, over any field of
 characteristic two.
 */
module QuirkyEval {
  import opened Powers

  datatype Field<!T> = Field(zero: T, one: T, plus: (T, T) -> T, times: (T, T) -> T)

  function Add<T>(f: Field<T>, a: T, b: T): T {
    f.plus(a, b)
  }

  function Mul<T>(f: Field<T>, a: T, b: T): T {
    f.times(a, b)
  }

  ghost predicate AddLaws<T>(f: Field<T>, a: T, b: T, c: T) {
    && Add(f, a, b) == Add(f, b, a)
    && Add(f, Add(f, a, b), c) == Add(f, a, Add(f, b, c))
    && Add(f, f.zero, a) == a
    && Add(f, a, a) == f.zero
  }

  ghost predicate MulLaws<T>(f: Field<T>, a: T, b: T, c: T) {
    && Mul(f, a, b) == Mul(f, b, a)
    && Mul(f, Mul(f, a, b), c) == Mul(f, a, Mul(f, b, c))
    && Mul(f, f.one, a) == a
    && Mul(f, Add(f, a, b), c) == Add(f, Mul(f, a, c), Mul(f, b, c))
  }

  /** Commutative ring laws, and `a + a == 0`. */
  ghost predicate Laws<T(!new)>(f: Field<T>) {
    && (forall a, b, c :: AddLaws(f, a, b, c))
    && (forall a, b, c :: MulLaws(f, a, b, c))
  }

  function TwoElements(): Field<bool> {
    Field(false, true, (a: bool, b: bool) => a != b, (a: bool, b: bool) => a && b)
  }

  /** The laws are satisfiable: the field of two elements. */
  lemma TwoElementsAreAField()
    ensures Laws(TwoElements())
  {
  }

  // ---------------------------------------------------------------------
  // The evaluation
  // ---------------------------------------------------------------------

  const BLOCK: nat := 64

  /** Sum of the first `n` products. */
  function Dot<T>(f: Field<T>, u: seq<T>, w: seq<T>, n: nat): T
    requires n <= |u| && n <= |w|
  {
    if n == 0 then f.zero else Add(f, Dot(f, u, w, n - 1), Mul(f, u[n - 1], w[n - 1]))
  }

  function Halve<T>(f: Field<T>, folded: seq<T>, x: T): (next: seq<T>)
    ensures |next| == |folded| / 2
  {
    seq(|folded| / 2, i requires 0 <= i < |folded| / 2 => Pair(f, folded[2 * i], folded[2 * i + 1], x))
  }

  /** `low * (1 + x) + high * x`. */
  function Pair<T>(f: Field<T>, low: T, high: T, x: T): T {
    Add(f, Mul(f, low, Add(f, f.one, x)), Mul(f, high, x))
  }

  /** Pairwise folding, one point at a time. */
  function Fold<T>(f: Field<T>, folded: seq<T>, xs: seq<T>): T
    requires |folded| == Pow2(|xs|)
    decreases |xs|
  {
    if xs == [] then folded[0] else Fold(f, Halve(f, folded, xs[0]), xs[1..])
  }

  /** One block against the Lagrange weights. */
  function BlockDot<T>(f: Field<T>, values: seq<T>, lagrange: seq<T>, b: nat): T
    requires |lagrange| == BLOCK && BLOCK * b + BLOCK <= |values|
  {
    Dot(f, values[BLOCK * b..BLOCK * b + BLOCK], lagrange, BLOCK)
  }

  function FoldBlocks<T>(f: Field<T>, values: seq<T>, lagrange: seq<T>): (folded: seq<T>)
    requires |lagrange| == BLOCK
    ensures |folded| == |values| / BLOCK
  {
    seq(|values| / BLOCK, b requires 0 <= b < |values| / BLOCK => BlockDot(f, values, lagrange, b))
  }

  function Eval<T>(f: Field<T>, values: seq<T>, lagrange: seq<T>, xs: seq<T>): T
    requires |lagrange| == BLOCK && |values| == BLOCK * Pow2(|xs|)
  {
    Fold(f, FoldBlocks(f, values, lagrange), xs)
  }

  // ---------------------------------------------------------------------
  // Closed form
  // ---------------------------------------------------------------------

  /** The product, over the bits of `b`, of `x` for a set bit and `1 + x` for a clear one. */
  function Monomial<T>(f: Field<T>, xs: seq<T>, b: nat): T
    decreases |xs|
  {
    if xs == [] then f.one
    else Mul(f, if b % 2 == 1 then xs[0] else Add(f, f.one, xs[0]), Monomial(f, xs[1..], b / 2))
  }

  function Monomials<T>(f: Field<T>, xs: seq<T>): (ms: seq<T>)
    ensures |ms| == Pow2(|xs|)
  {
    seq(Pow2(|xs|), b requires 0 <= b => Monomial(f, xs, b))
  }

  /** The weight of every values index: Lagrange weight of its low bits times monomial of its block. */
  function Weights<T>(f: Field<T>, lagrange: seq<T>, xs: seq<T>): (ws: seq<T>)
    requires |lagrange| == BLOCK
    ensures |ws| == BLOCK * Pow2(|xs|)
  {
    seq(BLOCK * Pow2(|xs|), i requires 0 <= i => Mul(f, lagrange[i % BLOCK], Monomial(f, xs, i / BLOCK)))
  }

  lemma HalveAt<T>(f: Field<T>, folded: seq<T>, x: T, i: nat)
    requires i < |folded| / 2
    ensures Halve(f, folded, x)[i] == Pair(f, folded[2 * i], folded[2 * i + 1], x)
  {
  }

  lemma MonomialsAt<T>(f: Field<T>, xs: seq<T>, b: nat)
    requires b < Pow2(|xs|)
    ensures Monomials(f, xs)[b] == Monomial(f, xs, b)
  {
  }

  lemma DotStep<T>(f: Field<T>, u: seq<T>, w: seq<T>, n: nat)
    requires n < |u| && n < |w|
    ensures Dot(f, u, w, n + 1) == Add(f, Dot(f, u, w, n), Mul(f, u[n], w[n]))
  {
  }

  /** Neighbouring blocks carry the two values of the first bit. */
  lemma MonomialPair<T>(f: Field<T>, xs: seq<T>, i: nat)
    requires xs != []
    ensures Monomial(f, xs, 2 * i) == Mul(f, Add(f, f.one, xs[0]), Monomial(f, xs[1..], i))
    ensures Monomial(f, xs, 2 * i + 1) == Mul(f, xs[0], Monomial(f, xs[1..], i))
  {
    assert (2 * i) / 2 == i && (2 * i + 1) / 2 == i;
  }

  /** A folded pair times a monomial is the pair's own two terms. */
  lemma PairDistributes<T(!new)>(f: Field<T>, sum: T, low: T, high: T, x: T, m: T)
    requires Laws(f)
    ensures Add(f, sum, Mul(f, Pair(f, low, high, x), m))
         == Add(f, Add(f, sum, Mul(f, low, Mul(f, Add(f, f.one, x), m))), Mul(f, high, Mul(f, x, m)))
  {
    var a, b := Mul(f, low, Add(f, f.one, x)), Mul(f, high, x);
    assert MulLaws(f, a, b, m) && MulLaws(f, low, Add(f, f.one, x), m) && MulLaws(f, high, x, m);
    assert AddLaws(f, sum, Mul(f, a, m), Mul(f, b, m));
  }

  /** Halving keeps the weighted sum. */
  lemma {:induction false} HalvingKeepsSum<T(!new)>(f: Field<T>, folded: seq<T>, xs: seq<T>, n: nat)
    requires Laws(f) && xs != [] && |folded| == Pow2(|xs|) && n <= Pow2(|xs| - 1)
    ensures Dot(f, folded, Monomials(f, xs), 2 * n)
         == Dot(f, Halve(f, folded, xs[0]), Monomials(f, xs[1..]), n)
  {
    hide Laws, Dot, Monomial, Pair, Halve, Monomials;
    if n == 0 {
      DotNone(f, folded, Monomials(f, xs));
      DotNone(f, Halve(f, folded, xs[0]), Monomials(f, xs[1..]));
    } else {
      HalvingKeepsSum(f, folded, xs, n - 1);
      var i, ms := n - 1, Monomials(f, xs);
      HalveAt(f, folded, xs[0], i);
      MonomialsAt(f, xs, 2 * i);
      MonomialsAt(f, xs, 2 * i + 1);
      MonomialsAt(f, xs[1..], i);
      DotStep(f, folded, ms, 2 * i);
      DotStep(f, folded, ms, 2 * i + 1);
      DotStep(f, Halve(f, folded, xs[0]), Monomials(f, xs[1..]), i);
      MonomialPair(f, xs, i);
      PairDistributes(f, Dot(f, folded, ms, 2 * i), folded[2 * i], folded[2 * i + 1], xs[0], Monomial(f, xs[1..], i));
    }
  }

  lemma {:induction false} FoldIsSum<T(!new)>(f: Field<T>, folded: seq<T>, xs: seq<T>)
    requires Laws(f) && |folded| == Pow2(|xs|)
    ensures Fold(f, folded, xs) == Dot(f, folded, Monomials(f, xs), |folded|)
    decreases |xs|
  {
    hide Laws;
    if xs == [] {
      assert Monomials(f, xs)[0] == f.one;
      DotNone(f, folded, Monomials(f, xs));
      OneIsNeutral(f, folded[0]);
      NeutralZero(f, folded[0]);
    } else {
      FoldIsSum(f, Halve(f, folded, xs[0]), xs[1..]);
      HalvingKeepsSum(f, folded, xs, Pow2(|xs| - 1));
    }
  }

  /** A block's dot product times a monomial, term by term. */
  lemma {:induction false} BlockDistributes<T(!new)>(f: Field<T>, values: seq<T>, lagrange: seq<T>, ws: seq<T>, b: nat,
                                              m: T, start: T, n: nat)
    requires Laws(f) && |lagrange| == BLOCK && BLOCK * b + BLOCK <= |values| && |ws| >= BLOCK * b + BLOCK && n <= BLOCK
    requires forall j :: 0 <= j < BLOCK ==> ws[BLOCK * b + j] == Mul(f, lagrange[j], m)
    requires start == Dot(f, values, ws, BLOCK * b)
    ensures Dot(f, values, ws, BLOCK * b + n)
         == Add(f, start, Mul(f, Dot(f, values[BLOCK * b..BLOCK * b + BLOCK], lagrange, n), m))
  {
    hide Dot, Laws;
    var block := values[BLOCK * b..BLOCK * b + BLOCK];
    if n == 0 {
      DotNone(f, block, lagrange);
      ZeroAbsorbs(f, m);
      ZeroIsNeutral(f, start);
    } else {
      BlockDistributes(f, values, lagrange, ws, b, m, start, n - 1);
      DotStep(f, values, ws, BLOCK * b + n - 1);
      DotStep(f, block, lagrange, n - 1);
      TermJoins(f, start, Dot(f, block, lagrange, n - 1), block[n - 1], lagrange[n - 1], m);
    }
  }

  lemma DotNone<T>(f: Field<T>, u: seq<T>, w: seq<T>)
    ensures Dot(f, u, w, 0) == f.zero
  {
  }

  lemma ZeroAbsorbs<T(!new)>(f: Field<T>, m: T)
    requires Laws(f)
    ensures Mul(f, f.zero, m) == f.zero
  {
    assert MulLaws(f, f.zero, f.zero, m) && AddLaws(f, f.zero, f.zero, m);
    assert AddLaws(f, Mul(f, f.zero, m), m, m);
  }

  lemma ZeroIsNeutral<T(!new)>(f: Field<T>, a: T)
    requires Laws(f)
    ensures Add(f, a, f.zero) == a
  {
    assert AddLaws(f, a, f.zero, a);
  }

  lemma TermJoins<T(!new)>(f: Field<T>, start: T, dot: T, v: T, l: T, m: T)
    requires Laws(f)
    ensures Add(f, Add(f, start, Mul(f, dot, m)), Mul(f, v, Mul(f, l, m)))
         == Add(f, start, Mul(f, Add(f, dot, Mul(f, v, l)), m))
  {
    assert MulLaws(f, v, l, m) && MulLaws(f, dot, Mul(f, v, l), m);
    assert AddLaws(f, start, Mul(f, dot, m), Mul(f, Mul(f, v, l), m));
  }

  /** Block by block, the folded blocks against the monomials are the values against the weights. */
  lemma {:induction false} BlocksAreWeights<T(!new)>(f: Field<T>, values: seq<T>, lagrange: seq<T>, xs: seq<T>, n: nat)
    requires Laws(f) && |lagrange| == BLOCK && |values| == BLOCK * Pow2(|xs|) && n <= Pow2(|xs|)
    ensures Dot(f, FoldBlocks(f, values, lagrange), Monomials(f, xs), n)
         == Dot(f, values, Weights(f, lagrange, xs), BLOCK * n)
  {
    hide Laws, Dot, Monomial, Monomials, Weights, FoldBlocks, Pow2;
    var folded, ms, ws := FoldBlocks(f, values, lagrange), Monomials(f, xs), Weights(f, lagrange, xs);
    if n == 0 {
      DotNone(f, folded, ms);
      DotNone(f, values, ws);
    } else {
      var b := n - 1;
      BlocksAreWeights(f, values, lagrange, xs, b);
      DotStep(f, folded, ms, b);
      MonomialsAt(f, xs, b);
      FoldBlocksAt(f, values, lagrange, b);
      WeightsOfBlock(f, lagrange, xs, b);
      BlockDistributes(f, values, lagrange, ws, b, Monomial(f, xs, b), Dot(f, values, ws, BLOCK * b), BLOCK);
    }
  }

  lemma FoldBlocksAt<T>(f: Field<T>, values: seq<T>, lagrange: seq<T>, b: nat)
    requires |lagrange| == BLOCK && b < |values| / BLOCK
    ensures FoldBlocks(f, values, lagrange)[b] == BlockDot(f, values, lagrange, b)
  {
  }

  lemma BlockIndex(b: nat, j: nat)
    requires j < BLOCK
    ensures (BLOCK * b + j) % BLOCK == j && (BLOCK * b + j) / BLOCK == b
  {
  }

  lemma WeightsAt<T>(f: Field<T>, lagrange: seq<T>, xs: seq<T>, i: nat)
    requires |lagrange| == BLOCK && i < BLOCK * Pow2(|xs|)
    ensures Weights(f, lagrange, xs)[i] == Mul(f, lagrange[i % BLOCK], Monomial(f, xs, i / BLOCK))
  {
  }

  lemma WeightsOfBlock<T>(f: Field<T>, lagrange: seq<T>, xs: seq<T>, b: nat)
    requires |lagrange| == BLOCK && b < Pow2(|xs|)
    ensures forall j :: 0 <= j < BLOCK ==>
              Weights(f, lagrange, xs)[BLOCK * b + j] == Mul(f, lagrange[j], Monomial(f, xs, b))
  {
    hide Monomial, Weights, Pow2;
    forall j | 0 <= j < BLOCK
      ensures Weights(f, lagrange, xs)[BLOCK * b + j] == Mul(f, lagrange[j], Monomial(f, xs, b))
    {
      BlockIndex(b, j);
      WeightsAt(f, lagrange, xs, BLOCK * b + j);
    }
  }

  /** The evaluation is the sum over every index of value times Lagrange weight times monomial. */
  lemma EvalIsWeightedSum<T(!new)>(f: Field<T>, values: seq<T>, lagrange: seq<T>, xs: seq<T>)
    requires Laws(f) && |lagrange| == BLOCK && |values| == BLOCK * Pow2(|xs|)
    ensures Eval(f, values, lagrange, xs) == Dot(f, values, Weights(f, lagrange, xs), |values|)
  {
    hide Laws, Dot, Monomial, Fold;
    FoldIsSum(f, FoldBlocks(f, values, lagrange), xs);
    BlocksAreWeights(f, values, lagrange, xs, Pow2(|xs|));
  }

  // ---------------------------------------------------------------------
  // Linearity and Boolean points
  // ---------------------------------------------------------------------

  /** `c * u + v`, pointwise. */
  function Combination<T>(f: Field<T>, c: T, u: seq<T>, v: seq<T>): (w: seq<T>)
    requires |u| == |v|
    ensures |w| == |u|
  {
    seq(|u|, i requires 0 <= i < |u| => Add(f, Mul(f, c, u[i]), v[i]))
  }

  lemma {:induction false} DotIsLinear<T(!new)>(f: Field<T>, c: T, u: seq<T>, v: seq<T>, w: seq<T>, n: nat)
    requires Laws(f) && |u| == |v| && n <= |u| && n <= |w|
    ensures Dot(f, Combination(f, c, u, v), w, n) == Add(f, Mul(f, c, Dot(f, u, w, n)), Dot(f, v, w, n))
  {
    hide Dot, Laws;
    if n == 0 {
      DotNone(f, Combination(f, c, u, v), w);
      DotNone(f, u, w);
      DotNone(f, v, w);
      AbsorbsZero(f, c);
      NeutralZero(f, f.zero);
    } else {
      DotIsLinear(f, c, u, v, w, n - 1);
      DotStep(f, Combination(f, c, u, v), w, n - 1);
      DotStep(f, u, w, n - 1);
      DotStep(f, v, w, n - 1);
      LinearTerm(f, c, Dot(f, u, w, n - 1), Dot(f, v, w, n - 1), u[n - 1], v[n - 1], w[n - 1]);
    }
  }

  lemma LinearTerm<T(!new)>(f: Field<T>, c: T, du: T, dv: T, x: T, y: T, w: T)
    requires Laws(f)
    ensures Add(f, Add(f, Mul(f, c, du), dv), Mul(f, Add(f, Mul(f, c, x), y), w))
         == Add(f, Mul(f, c, Add(f, du, Mul(f, x, w))), Add(f, dv, Mul(f, y, w)))
  {
    var a, b, xw := Mul(f, c, du), Mul(f, c, Mul(f, x, w)), Mul(f, x, w);
    assert MulLaws(f, c, x, w) && MulLaws(f, Mul(f, c, x), y, w);
    assert MulLaws(f, du, xw, c) && MulLaws(f, c, Add(f, du, xw), c);
    assert MulLaws(f, du, c, c) && MulLaws(f, xw, c, c);
    Regroup(f, a, dv, b, Mul(f, y, w));
  }

  lemma Regroup<T(!new)>(f: Field<T>, a: T, b: T, c: T, d: T)
    requires Laws(f)
    ensures Add(f, Add(f, a, b), Add(f, c, d)) == Add(f, Add(f, a, c), Add(f, b, d))
  {
    assert AddLaws(f, b, c, d) && AddLaws(f, c, b, d);
    assert AddLaws(f, a, b, Add(f, c, d)) && AddLaws(f, a, c, Add(f, b, d));
  }

  /** The evaluation is linear in the values. */
  lemma EvalIsLinear<T(!new)>(f: Field<T>, c: T, u: seq<T>, v: seq<T>, lagrange: seq<T>, xs: seq<T>)
    requires Laws(f) && |lagrange| == BLOCK && |u| == |v| == BLOCK * Pow2(|xs|)
    ensures Eval(f, Combination(f, c, u, v), lagrange, xs)
         == Add(f, Mul(f, c, Eval(f, u, lagrange, xs)), Eval(f, v, lagrange, xs))
  {
    hide Laws, Dot, Eval, Weights;
    EvalIsWeightedSum(f, Combination(f, c, u, v), lagrange, xs);
    EvalIsWeightedSum(f, u, lagrange, xs);
    EvalIsWeightedSum(f, v, lagrange, xs);
    DotIsLinear(f, c, u, v, Weights(f, lagrange, xs), |u|);
  }

  /** The block a Boolean point names, first coordinate lowest. */
  function Selected(bits: seq<bool>): (b: nat)
    ensures b < Pow2(|bits|)
  {
    if bits == [] then 0 else 2 * Selected(bits[1..]) + if bits[0] then 1 else 0
  }

  function Point<T>(f: Field<T>, bits: seq<bool>): (xs: seq<T>)
    ensures |xs| == |bits|
  {
    seq(|bits|, i requires 0 <= i < |bits| => if bits[i] then f.one else f.zero)
  }

  lemma OneIsNeutral<T(!new)>(f: Field<T>, a: T)
    requires Laws(f)
    ensures Mul(f, a, f.one) == a
  {
    assert MulLaws(f, a, f.one, a) && MulLaws(f, f.one, a, a);
  }

  lemma AbsorbsZero<T(!new)>(f: Field<T>, a: T)
    requires Laws(f)
    ensures Mul(f, a, f.zero) == f.zero
  {
    ZeroAbsorbs(f, a);
    assert MulLaws(f, a, f.zero, a);
  }

  lemma NeutralZero<T(!new)>(f: Field<T>, a: T)
    requires Laws(f)
    ensures Add(f, f.zero, a) == a && Add(f, a, a) == f.zero
  {
    assert AddLaws(f, a, a, a);
  }

  lemma PairSelects<T(!new)>(f: Field<T>, low: T, high: T)
    requires Laws(f)
    ensures Pair(f, low, high, f.zero) == low && Pair(f, low, high, f.one) == high
  {
    hide Laws;
    ZeroIsNeutral(f, f.one);
    OneIsNeutral(f, low);
    AbsorbsZero(f, high);
    ZeroIsNeutral(f, low);
    NeutralZero(f, f.one);
    AbsorbsZero(f, low);
    OneIsNeutral(f, high);
    NeutralZero(f, high);
  }

  lemma {:induction false} FoldSelects<T(!new)>(f: Field<T>, folded: seq<T>, bits: seq<bool>)
    requires Laws(f) && |folded| == Pow2(|bits|)
    ensures Fold(f, folded, Point(f, bits)) == folded[Selected(bits)]
    decreases |bits|
  {
    hide Laws, Pair, Halve;
    if bits != [] {
      var xs, i := Point(f, bits), Selected(bits[1..]);
      assert xs[1..] == Point(f, bits[1..]);
      FoldSelects(f, Halve(f, folded, xs[0]), bits[1..]);
      HalveAt(f, folded, xs[0], i);
      PairSelects(f, folded[2 * i], folded[2 * i + 1]);
    }
  }

  /** At a Boolean point the evaluation is one block against the Lagrange weights. */
  lemma BooleanPointSelectsBlock<T(!new)>(f: Field<T>, values: seq<T>, lagrange: seq<T>, bits: seq<bool>)
    requires Laws(f) && |lagrange| == BLOCK && |values| == BLOCK * Pow2(|bits|)
    ensures BLOCK * Selected(bits) + BLOCK <= |values|
    ensures Eval(f, values, lagrange, Point(f, bits)) == BlockDot(f, values, lagrange, Selected(bits))
  {
    hide Laws, Dot, Fold;
    FoldSelects(f, FoldBlocks(f, values, lagrange), bits);
  }

  // ---------------------------------------------------------------------
  // The loops
  // ---------------------------------------------------------------------

  method FoldOneBlock<T>(f: Field<T>, block: seq<T>, lagrange: seq<T>) returns (sum: T)
    requires |block| == |lagrange| == BLOCK
    ensures sum == Dot(f, block, lagrange, BLOCK)
  {
    sum := f.zero;
    for j := 0 to BLOCK
      invariant sum == Dot(f, block, lagrange, j)
    {
      sum := Add(f, sum, Mul(f, block[j], lagrange[j]));
    }
  }

  /** Folds every block, then halves once per point. */
  method Evaluate<T>(f: Field<T>, values: seq<T>, lagrange: seq<T>, xs: seq<T>) returns (result: T)
    requires |lagrange| == BLOCK && |values| == BLOCK * Pow2(|xs|)
    ensures result == Eval(f, values, lagrange, xs)
  {
    hide Dot, Halve, FoldBlocks;
    var folded := FoldAllBlocks(f, values, lagrange);
    assert xs[0..] == xs;
    for t := 0 to |xs|
      invariant |folded| == Pow2(|xs| - t)
      invariant Fold(f, folded, xs[t..]) == Eval(f, values, lagrange, xs)
    {
      assert xs[t..][1..] == xs[t + 1..];
      folded := HalveOnce(f, folded, xs[t]);
    }
    return folded[0];
  }

  method FoldAllBlocks<T>(f: Field<T>, values: seq<T>, lagrange: seq<T>) returns (folded: seq<T>)
    requires |lagrange| == BLOCK
    ensures folded == FoldBlocks(f, values, lagrange)
  {
    hide Dot;
    folded := [];
    for b := 0 to |values| / BLOCK
      invariant folded == FoldBlocks(f, values, lagrange)[..b]
    {
      var block := FoldOneBlock(f, values[BLOCK * b..BLOCK * b + BLOCK], lagrange);
      folded := folded + [block];
    }
  }

  method HalveOnce<T>(f: Field<T>, folded: seq<T>, x: T) returns (next: seq<T>)
    ensures next == Halve(f, folded, x)
  {
    var onePlus := Add(f, f.one, x);
    next := [];
    for i := 0 to |folded| / 2
      invariant next == Halve(f, folded, x)[..i]
    {
      next := next + [Add(f, Mul(f, folded[2 * i], onePlus), Mul(f, folded[2 * i + 1], x))];
    }
  }
}

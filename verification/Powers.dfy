/** Powers of two and left shifts, the sizes and offsets of every perfect binary tree in this project. */
module Powers {

  function Pow2(n: nat): (p: nat)
    ensures p >= 1
  {
    if n == 0 then 1 else 2 * Pow2(n - 1)
  }

  lemma {:induction false} Pow2Monotone(a: nat, b: nat)
    requires a <= b
    ensures Pow2(a) <= Pow2(b)
    decreases b
  {
    if a < b {
      Pow2Monotone(a, b - 1);
    }
  }

  /** `index << level`: where block `index` of `2^level` slots starts. */
  function Shl(index: nat, level: nat): nat
    decreases level
  {
    if level == 0 then index else Shl(2 * index, level - 1)
  }

  lemma {:induction false} ShlZero(level: nat)
    ensures Shl(0, level) == 0
    decreases level
  {
    if level > 0 {
      ShlZero(level - 1);
    }
  }

  lemma {:induction false} ShlNext(index: nat, level: nat)
    ensures Shl(index + 1, level) == Shl(index, level) + Pow2(level)
    decreases level
  {
    if level > 0 {
      ShlNext(2 * index, level - 1);
      ShlNext(2 * index + 1, level - 1);
    }
  }

  /** Of the `2^log` slots, block `index` at `level` is inside exactly when the level has that block. */
  lemma {:induction false} ShlInRange(log: nat, level: nat, index: nat)
    requires level <= log
    ensures Shl(index, level) + Pow2(level) <= Pow2(log) <==> index < Pow2(log - level)
    decreases level
  {
    if level > 0 {
      ShlInRange(log, level - 1, 2 * index + 1);
      ShlNext(2 * index, level - 1);
      assert Pow2(log - (level - 1)) == 2 * Pow2(log - level);
    }
  }

  lemma {:induction false} ShlAdds(a: nat, b: nat, level: nat)
    ensures Shl(a + b, level) == Shl(a, level) + Shl(b, level)
    decreases level
  {
    if level > 0 {
      ShlAdds(2 * a, 2 * b, level - 1);
    }
  }

  lemma {:induction false} ShlPow2(n: nat, level: nat)
    ensures Shl(Pow2(n), level) == Pow2(n + level)
    decreases level
  {
    if level > 0 {
      ShlPow2(n + 1, level - 1);
    }
  }

  /** `index >> level`. */
  function Shr(index: nat, level: nat): nat
    decreases level
  {
    if level == 0 then index else Shr(index, level - 1) / 2
  }

  /** An index is its block's start plus an offset inside the block. */
  lemma {:induction false} ShrBlock(index: nat, level: nat)
    ensures Shl(Shr(index, level), level) <= index < Shl(Shr(index, level), level) + Pow2(level)
    decreases level
  {
    if level > 0 {
      var q := Shr(index, level - 1);
      ShrBlock(index, level - 1);
      ShlAdds(2 * (q / 2), q % 2, level - 1);
      ShlNext(0, level - 1);
      ShlZero(level - 1);
    }
  }

  lemma {:induction false} ShrOfHalf(p: nat, log: nat)
    requires log > 0
    ensures Shr(p, log) == Shr(p / 2, log - 1)
    decreases log
  {
    if log > 1 {
      ShrOfHalf(p, log - 1);
    }
  }

  lemma {:induction false} ShrTwice(p: nat, a: nat, b: nat)
    ensures Shr(Shr(p, a), b) == Shr(p, a + b)
    decreases b
  {
    if b > 0 {
      ShrTwice(p, a, b - 1);
    }
  }
}

/** Two-to-one hashing over any node type: siblings, folding up a path, and collisions. */
module PairHashing {

  datatype Compressor<!T> = Compressor(f: (T, T) -> T)

  function Compress<T>(h: Compressor<T>, left: T, right: T): T {
    h.f(left, right)
  }

  /** Two different pairs with one hash. */
  datatype PairCollision<T> = PairCollision(left: T, right: T, otherLeft: T, otherRight: T) {
    ghost predicate Holds(h: Compressor<T>) {
      && (left, right) != (otherLeft, otherRight)
      && h.f(left, right) == h.f(otherLeft, otherRight)
    }
  }

  ghost predicate Injective<T(!new)>(h: Compressor<T>) {
    forall a, b, c, d :: h.f(a, b) == h.f(c, d) ==> a == c && b == d
  }

  /** An injective hash has no collision, and a hash without one is injective. */
  lemma InjectiveIffNoCollision<T(!new)>(h: Compressor<T>)
    ensures Injective(h) <==> forall pair: PairCollision<T> :: !pair.Holds(h)
  {
    if forall pair: PairCollision<T> :: !pair.Holds(h) {
      forall a, b, c, d | h.f(a, b) == h.f(c, d)
        ensures a == c && b == d
      {
        assert !PairCollision(a, b, c, d).Holds(h);
      }
    }
  }

  /** The position beside: the other child of the same parent. */
  function Sibling(p: nat): nat {
    if p % 2 == 0 then p + 1 else p - 1
  }

  /** A node hashed with its sibling, on the side its position says. */
  function Joined<T>(h: Compressor<T>, position: nat, hash: T, sibling: T): T {
    if position % 2 == 0 then Compress(h, hash, sibling) else Compress(h, sibling, hash)
  }

  /** Folds a leaf up a directed path. */
  function Fold<T>(h: Compressor<T>, position: nat, leaf: T, path: seq<T>): T
    decreases |path|
  {
    if path == [] then leaf else Fold(h, position / 2, Joined(h, position, leaf, path[0]), path[1..])
  }

  lemma FoldNone<T>(h: Compressor<T>, position: nat, leaf: T)
    ensures Fold(h, position, leaf, []) == leaf
  {
  }

  lemma FoldStep<T>(h: Compressor<T>, position: nat, leaf: T, path: seq<T>)
    requires path != []
    ensures Fold(h, position, leaf, path) == Fold(h, position / 2, Joined(h, position, leaf, path[0]), path[1..])
  {
  }
}

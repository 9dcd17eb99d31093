/** Trees hashed layer by layer, over any node type and any two-to-one hash. */
module HashLayers {
  import opened Options
  import opened Powers
  import opened PairHashing

  /** The layer above: adjacent pairs compressed. */
  function Halved<T>(h: Compressor<T>, layer: seq<T>): (above: seq<T>)
    ensures |above| == |layer| / 2
    ensures forall i :: 0 <= i < |above| ==> above[i] == Compress(h, layer[2 * i], layer[2 * i + 1])
  {
    seq(|layer| / 2, i requires 0 <= i < |layer| / 2 => Compress(h, layer[2 * i], layer[2 * i + 1]))
  }

  function LayerRoot<T>(h: Compressor<T>, layer: seq<T>, depth: nat): T
    requires |layer| == Pow2(depth)
    decreases depth
  {
    if depth == 0 then layer[0] else LayerRoot(h, Halved(h, layer), depth - 1)
  }

  function LayerPath<T>(h: Compressor<T>, layer: seq<T>, index: nat, depth: nat): (path: seq<T>)
    requires |layer| == Pow2(depth) && index < |layer|
    ensures |path| == depth
    decreases depth
  {
    if depth == 0 then [] else [layer[Sibling(index)]] + LayerPath(h, Halved(h, layer), index / 2, depth - 1)
  }

  lemma HalvedSlices<T>(h: Compressor<T>, layer: seq<T>, n: nat)
    requires 2 * n <= |layer| && |layer| % 2 == 0
    ensures Halved(h, layer[..2 * n]) == Halved(h, layer)[..n]
    ensures Halved(h, layer[2 * n..]) == Halved(h, layer)[n..]
  {
    var above, right := Halved(h, layer), layer[2 * n..];
    forall i | 0 <= i < |right| / 2
      ensures Halved(h, right)[i] == above[n..][i]
    {
      assert right[2 * i] == layer[2 * (n + i)] && right[2 * i + 1] == layer[2 * (n + i) + 1];
    }
  }

  lemma HalvedAt<T>(h: Compressor<T>, layer: seq<T>, index: nat)
    requires |layer| % 2 == 0 && index < |layer|
    ensures Sibling(index) < |layer| && index / 2 < |Halved(h, layer)|
    ensures Halved(h, layer)[index / 2] == Joined(h, index, layer[index], layer[Sibling(index)])
  {
  }

  /** The layered root is the recursive one: the root of a tree is the hash of the roots of its halves. */
  lemma {:induction false} LayerRootIsRecursive<T>(h: Compressor<T>, layer: seq<T>, depth: nat)
    requires |layer| == Pow2(depth + 1)
    ensures LayerRoot(h, layer, depth + 1)
         == Compress(h, LayerRoot(h, layer[..Pow2(depth)], depth), LayerRoot(h, layer[Pow2(depth)..], depth))
    decreases depth
  {
    hide LayerRoot, Halved;
    var above, left, right := Halved(h, layer), layer[..Pow2(depth)], layer[Pow2(depth)..];
    Shrink(h, layer, depth + 1);
    Shrink(h, left, depth);
    Shrink(h, right, depth);
    if depth == 0 {
      Shrink(h, above, 0);
    } else {
      LayerRootIsRecursive(h, above, depth - 1);
      HalvedSlices(h, layer, Pow2(depth - 1));
    }
  }

  lemma Shrink<T>(h: Compressor<T>, layer: seq<T>, depth: nat)
    requires |layer| == Pow2(depth)
    ensures LayerRoot(h, layer, depth) == if depth == 0 then layer[0] else LayerRoot(h, Halved(h, layer), depth - 1)
  {
  }

  lemma ShrinkPath<T>(h: Compressor<T>, layer: seq<T>, index: nat, depth: nat)
    requires |layer| == Pow2(depth) && index < |layer|
    ensures depth == 0 ==> LayerPath(h, layer, index, depth) == []
    ensures depth > 0 ==>
              && Sibling(index) < |layer| && index / 2 < |Halved(h, layer)| == Pow2(depth - 1)
              && LayerPath(h, layer, index, depth)
                 == [layer[Sibling(index)]] + LayerPath(h, Halved(h, layer), index / 2, depth - 1)
  {
  }

  /** Folding a leaf up its own path gives the root. */
  lemma {:induction false} PathFoldsToRoot<T>(h: Compressor<T>, layer: seq<T>, index: nat, depth: nat)
    requires |layer| == Pow2(depth) && index < |layer|
    ensures Fold(h, index, layer[index], LayerPath(h, layer, index, depth)) == LayerRoot(h, layer, depth)
    decreases depth
  {
    if depth > 0 {
      hide LayerRoot, LayerPath, Fold, Halved, Joined;
      Shrink(h, layer, depth);
      ShrinkPath(h, layer, index, depth);
      HalvedAt(h, layer, index);
      FoldStep(h, index, layer[index], LayerPath(h, layer, index, depth));
      PathFoldsToRoot(h, Halved(h, layer), index / 2, depth - 1);
    }
  }

  /** A leaf and path that fold to the root are the tree's own, or exhibit a collision. */
  lemma {:induction false} FoldBinds<T>(h: Compressor<T>, layer: seq<T>, index: nat, depth: nat, leaf: T, path: seq<T>)
    returns (c: Option<PairCollision<T>>)
    requires |layer| == Pow2(depth) && index < |layer| && |path| == depth
    requires Fold(h, index, leaf, path) == LayerRoot(h, layer, depth)
    ensures c.Some? ==> c.value.Holds(h)
    ensures c.None? ==> leaf == layer[index] && path == LayerPath(h, layer, index, depth)
    decreases depth
  {
    hide LayerRoot, LayerPath, Fold, Halved;
    c := None;
    Shrink(h, layer, depth);
    ShrinkPath(h, layer, index, depth);
    if depth == 0 {
      assert path == [];
      FoldNone(h, index, leaf);
    } else {
      var above := Halved(h, layer);
      HalvedAt(h, layer, index);
      FoldStep(h, index, leaf, path);
      c := FoldBinds(h, above, index / 2, depth - 1, Joined(h, index, leaf, path[0]), path[1..]);
      var own := layer[Sibling(index)];
      var pair := if index % 2 == 0 then PairCollision(leaf, path[0], layer[index], own)
                  else PairCollision(path[0], leaf, own, layer[index]);
      if pair.Holds(h) {
        c := Some(pair);
      } else if c.None? {
        assert path == [path[0]] + path[1..];
      }
    }
  }

  lemma DifferenceCollides<T>(h: Compressor<T>, a: seq<T>, b: seq<T>) returns (c: PairCollision<T>)
    requires |a| == |b| && |a| % 2 == 0 && Halved(h, a) == Halved(h, b) && a != b
    ensures c.Holds(h)
  {
    var k :| 0 <= k < |a| && a[k] != b[k];
    var i := k / 2;
    assert Halved(h, a)[i] == Halved(h, b)[i];
    c := PairCollision(a[2 * i], a[2 * i + 1], b[2 * i], b[2 * i + 1]);
  }

  /** Two layers with one root are the same layer, or exhibit a collision. */
  lemma {:induction false} LayerRootBinds<T>(h: Compressor<T>, a: seq<T>, b: seq<T>, depth: nat)
    returns (c: Option<PairCollision<T>>)
    requires |a| == |b| == Pow2(depth) && LayerRoot(h, a, depth) == LayerRoot(h, b, depth)
    ensures c.Some? ==> c.value.Holds(h)
    ensures c.None? ==> a == b
    decreases depth
  {
    hide LayerRoot, Halved;
    c := None;
    Shrink(h, a, depth);
    Shrink(h, b, depth);
    if depth == 0 {
      assert a == [a[0]] && b == [b[0]];
    } else {
      c := LayerRootBinds(h, Halved(h, a), Halved(h, b), depth - 1);
      if c.None? && a != b {
        var pair := DifferenceCollides(h, a, b);
        c := Some(pair);
      }
    }
  }
}

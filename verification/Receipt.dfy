/** The contract transition receipt: two framed binary formats and a hash-linked ancestry. */
module Receipt {
  import opened Options
  import opened Bytes
  import opened RecordCodecs
  import opened TxTree
  import H = BlockHeader

  type Header = H.Header

  const MAGIC: seq<Byte> := [0x4F, 0x31, 0x4F, 0x42, 0x4A, 0x52, 0x43, 0x34]
  const DESCENDANT_MAGIC: seq<Byte> := [0x4F, 0x31, 0x4F, 0x42, 0x4A, 0x52, 0x43, 0x35]
  const HEADER_BYTES: nat := 212
  const PATH_BYTES: nat := 256
  const MAX_RECEIPT_DESCENDANTS: nat := 42
  const MAX_TERMINAL_BYTES: nat := 1_100_000
  /** Everything before the ancestry or, without one, before the terminal length. */
  const HEAD_BYTES: nat := 1714
  const FIXED_BYTES: nat := 1718
  const MAX_RECEIPT_BYTES: nat := FIXED_BYTES + 2 + MAX_RECEIPT_DESCENDANTS * HEADER_BYTES + MAX_TERMINAL_BYTES

  function ZeroPath(): (path: seq<Digest>)
    ensures |path| == TX_TREE_DEPTH
  {
    Namespace([])[..TX_TREE_DEPTH]
  }

  type Path = xs: seq<Digest> | |xs| == TX_TREE_DEPTH witness ZeroPath()

  datatype ObjectTransitionReceipt = ObjectTransitionReceipt(
    opening: Opening, page: Page, header: Header, epochAnchorHeader: Header, txIndex: U16, txCount: U16, path: Path,
    descendants: seq<Header>, terminal: seq<Byte>)

  /** What the chain says about calls, page ids, header ids and proof of work. Nothing here looks inside. */
  datatype Chain = Chain(
    known: InstructionSet, callOk: (Opening, Page, U64) -> bool, spendId: Page -> Option<Digest>,
    blockId: Header -> Digest, powOk: Header -> bool, tx: TxHasher, v2From: nat)

  // ---------------------------------------------------------------------
  // Ancestry
  // ---------------------------------------------------------------------

  /** A header that may follow `parent`: next height, hash link, valid work. */
  predicate Links(c: Chain, parent: Header, child: Header) {
    && parent.height + 1 < Pow256(8) && child.height == parent.height + 1
    && child.prevBlockHash == c.blockId(parent)
    && c.powOk(child)
  }

  /** The last of a linked run of headers. */
  function Follow(c: Chain, parent: Header, descendants: seq<Header>): Option<Header>
    decreases |descendants|
  {
    if descendants == [] then Some(parent)
    else if Links(c, parent, descendants[0]) then Follow(c, descendants[0], descendants[1..])
    else None
  }

  /** What the chain asks of descendant `i` of a run that starts at `parent`. */
  ghost predicate Descends(c: Chain, parent: Header, descendants: seq<Header>, i: nat)
    requires i < |descendants|
  {
    var above := ([parent] + descendants)[i];
    && descendants[i].height == above.height + 1
    && descendants[i].prevBlockHash == c.blockId(above)
    && c.powOk(descendants[i])
  }

  /** A run links exactly if every header is one higher than the one before, names it, and carries valid work. */
  lemma {:induction false} FollowsIffDescends(c: Chain, parent: Header, descendants: seq<Header>)
    ensures Follow(c, parent, descendants).Some? <==>
              forall i :: 0 <= i < |descendants| ==> Descends(c, parent, descendants, i)
    ensures Follow(c, parent, descendants).Some? ==>
              Follow(c, parent, descendants).value == ([parent] + descendants)[|descendants|]
    decreases |descendants|
  {
    hide Pow256;
    if descendants != [] {
      var first, rest := descendants[0], descendants[1..];
      FollowsIffDescends(c, first, rest);
      assert [first] + rest == descendants;
      assert Descends(c, parent, descendants, 0) <==> Links(c, parent, first);
      forall i | 0 <= i < |rest|
        ensures Descends(c, first, rest, i) <==> Descends(c, parent, descendants, i + 1)
      {
      }
      if forall i :: 0 <= i < |rest| ==> Descends(c, first, rest, i) {
        forall i | 0 < i < |descendants|
          ensures Descends(c, parent, descendants, i)
        {
          assert Descends(c, first, rest, i - 1);
        }
      }
    }
  }

  function ProofHeader(c: Chain, r: ObjectTransitionReceipt): Option<Header> {
    if |r.descendants| > MAX_RECEIPT_DESCENDANTS then None else Follow(c, r.header, r.descendants)
  }

  /** The header the terminal proves, or nothing if the ancestry does not link. */
  method FindProofHeader(c: Chain, r: ObjectTransitionReceipt) returns (last: Option<Header>)
    ensures last == ProofHeader(c, r)
    ensures last.Some? <==>
              && |r.descendants| <= 42
              && forall i :: 0 <= i < |r.descendants| ==> Descends(c, r.header, r.descendants, i)
    ensures last.Some? ==> last.value == if r.descendants == [] then r.header else r.descendants[|r.descendants| - 1]
  {
    FollowsIffDescends(c, r.header, r.descendants);
    if |r.descendants| > MAX_RECEIPT_DESCENDANTS {
      return None;
    }
    var parent := r.header;
    for i := 0 to |r.descendants|
      invariant Follow(c, parent, r.descendants[i..]) == Follow(c, r.header, r.descendants)
    {
      assert r.descendants[i..][1..] == r.descendants[i + 1..];
      if !Links(c, parent, r.descendants[i]) {
        return None;
      }
      parent := r.descendants[i];
    }
    return Some(parent);
  }

  /** The proof header stands as many blocks above the call as there are descendants. */
  lemma {:induction false} ProofHeightIsCallHeightPlusDescendants(c: Chain, parent: Header, descendants: seq<Header>)
    requires Follow(c, parent, descendants).Some?
    ensures Follow(c, parent, descendants).value.height == parent.height + |descendants|
    decreases |descendants|
  {
    hide Pow256;
    if descendants != [] {
      ProofHeightIsCallHeightPlusDescendants(c, descendants[0], descendants[1..]);
    }
  }

  /** Two different headers with one id. */
  datatype HeaderCollision = HeaderCollision(a: Header, b: Header) {
    ghost predicate Holds(c: Chain) {
      a != b && c.blockId(a) == c.blockId(b)
    }
  }

  /** Ids without a collision tell headers apart, and only they do. */
  lemma DistinctIdsIffNoCollision(c: Chain)
    ensures (forall a, b :: c.blockId(a) == c.blockId(b) ==> a == b) <==>
              forall pair: HeaderCollision :: !pair.Holds(c)
  {
    if forall pair: HeaderCollision :: !pair.Holds(c) {
      forall a, b | c.blockId(a) == c.blockId(b)
        ensures a == b
      {
        assert !HeaderCollision(a, b).Holds(c);
      }
    }
  }

  /** Splits a linked run at its last link. */
  lemma {:induction false} FollowLast(c: Chain, parent: Header, descendants: seq<Header>)
    requires descendants != [] && Follow(c, parent, descendants).Some?
    ensures var n := |descendants| - 1;
            && Follow(c, parent, descendants).value == descendants[n]
            && Follow(c, parent, descendants[..n]).Some?
            && Links(c, Follow(c, parent, descendants[..n]).value, descendants[n])
    decreases |descendants|
  {
    hide Links;
    var n := |descendants| - 1;
    if n > 0 {
      FollowLast(c, descendants[0], descendants[1..]);
      assert descendants[1..][..n - 1] == descendants[..n][1..];
    }
  }

  function Run(r: ObjectTransitionReceipt): seq<Header> {
    [r.header] + r.descendants
  }

  /** Runs that end in one header: the shorter is a suffix of the longer, or two headers collide. */
  lemma {:induction false} RunsShareSuffix(c: Chain, p: Header, ds: seq<Header>, q: Header, es: seq<Header>)
    returns (collision: Option<HeaderCollision>)
    requires Follow(c, p, ds).Some? && Follow(c, p, ds) == Follow(c, q, es) && |ds| <= |es|
    ensures collision.Some? ==> collision.value.Holds(c)
    ensures collision.None? ==> [p] + ds == ([q] + es)[|es| - |ds|..]
    decreases |ds|
  {
    hide Links, Follow;
    collision := None;
    if ds == [] {
      FollowNone(c, p);
      LastOfRun(c, q, es);
    } else {
      FollowLast(c, p, ds);
      FollowLast(c, q, es);
      var n, m := |ds| - 1, |es| - 1;
      var a, b := Follow(c, p, ds[..n]).value, Follow(c, q, es[..m]).value;
      LinkedById(c, a, b, ds[n]);
      if a != b {
        collision := Some(HeaderCollision(a, b));
      } else {
        collision := RunsShareSuffix(c, p, ds[..n], q, es[..m]);
        if collision.None? {
          SuffixGrows(p, ds, q, es);
        }
      }
    }
  }

  lemma SuffixGrows<T>(p: T, ds: seq<T>, q: T, es: seq<T>)
    requires 0 < |ds| <= |es| && ds[|ds| - 1] == es[|es| - 1]
    requires [p] + ds[..|ds| - 1] == ([q] + es[..|es| - 1])[|es| - |ds|..]
    ensures [p] + ds == ([q] + es)[|es| - |ds|..]
  {
    var front, last, from := [q] + es[..|es| - 1], es[|es| - 1], |es| - |ds|;
    assert [q] + es == front + [last];
    assert (front + [last])[from..] == front[from..] + [last];
    assert [p] + ds == [p] + ds[..|ds| - 1] + [last];
  }

  lemma LastOfRun(c: Chain, q: Header, es: seq<Header>)
    requires Follow(c, q, es).Some?
    ensures ([q] + es)[|es|..] == [Follow(c, q, es).value]
  {
    if es != [] {
      FollowLast(c, q, es);
    }
  }

  lemma FollowNone(c: Chain, p: Header)
    ensures Follow(c, p, []) == Some(p)
  {
  }

  lemma LinkedById(c: Chain, a: Header, b: Header, child: Header)
    requires Links(c, a, child) && Links(c, b, child)
    ensures c.blockId(a) == c.blockId(b)
  {
  }

  /** Two receipts under one proof header tell of one chain, or two headers collide. */
  lemma ReceiptsShareAncestry(c: Chain, r: ObjectTransitionReceipt, s: ObjectTransitionReceipt)
    returns (collision: Option<HeaderCollision>)
    requires ProofHeader(c, r).Some? && ProofHeader(c, r) == ProofHeader(c, s) && |r.descendants| <= |s.descendants|
    ensures r.header.height + |r.descendants| == s.header.height + |s.descendants|
    ensures collision.Some? ==> collision.value.Holds(c)
    ensures collision.None? ==> Run(r) == Run(s)[|s.descendants| - |r.descendants|..]
  {
    ProofHeightIsCallHeightPlusDescendants(c, r.header, r.descendants);
    ProofHeightIsCallHeightPlusDescendants(c, s.header, s.descendants);
    collision := RunsShareSuffix(c, r.header, r.descendants, s.header, s.descendants);
  }
}

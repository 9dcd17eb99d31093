/** Nonce search: the batched scan, and the parallel miner whose answer does not depend on its lane count. */
module PowSearch {
  import opened Options
  import opened Bytes

  const NONCES: nat := 0x1_0000_0000_0000_0000_0000_0000_0000_0000
  const LAST_NONCE: nat := NONCES - 1
  const DIGEST_BATCH: nat := 64

  function Saturating(n: nat): nat {
    if n < NONCES then n else LAST_NONCE
  }

  /** A header template: the work digest of every nonce, and the target. */
  datatype Puzzle = Puzzle(digest: nat -> Digest, target: Digest)

  predicate Wins(p: Puzzle, nonce: nat) {
    FromLe(p.digest(nonce)) < FromLe(p.target)
  }

  // ---------------------------------------------------------------------
  // Comparing 256-bit little-endian numbers
  // ---------------------------------------------------------------------

  /** The value of the first `i` bytes, by their most significant one. */
  lemma {:induction false} TopByte(bytes: seq<Byte>, i: nat)
    requires 0 < i <= |bytes|
    ensures FromLe(bytes[..i]) == FromLe(bytes[..i - 1]) + bytes[i - 1] * Pow256(i - 1)
    decreases i
  {
    hide Pow256;
    var all, front := bytes[..i], bytes[..i - 1];
    if i == 1 {
      PowZero();
      assert all[1..] == [] && front == [];
    } else {
      TopByte(bytes[1..], i - 1);
      assert all[1..] == bytes[1..][..i - 1] && front[1..] == bytes[1..][..i - 2];
      assert bytes[1..][i - 2] == bytes[i - 1];
      Shifted(bytes[i - 1], i - 2);
    }
  }

  lemma PowZero()
    ensures Pow256(0) == 1
  {
  }

  lemma Shifted(top: nat, n: nat)
    ensures 256 * (top * Pow256(n)) == top * Pow256(n + 1)
  {
    var p := Pow256(n);
    assert 256 * (top * p) == top * (256 * p);
  }

  /** A larger top byte decides, whatever is below it. */
  lemma TopByteDecides(a: seq<Byte>, b: seq<Byte>, i: nat)
    requires 0 < i <= |a| && i <= |b| && a[i - 1] < b[i - 1]
    ensures FromLe(a[..i]) < FromLe(b[..i])
  {
    hide FromLe, Pow256;
    TopByte(a, i);
    TopByte(b, i);
    Outweighs(a[i - 1], b[i - 1], Pow256(i - 1));
  }

  lemma Outweighs(x: nat, y: nat, p: nat)
    requires x < y
    ensures x * p + p <= y * p
  {
    var gap := y - x - 1;
    assert y * p == (x + 1 + gap) * p == x * p + p + gap * p;
  }

  /** Byte by byte from the top, it compares the two numbers. */
  method LessThan(a: Digest, b: Digest) returns (less: bool)
    ensures less == (FromLe(a) < FromLe(b))
  {
    hide FromLe;
    assert a[..32] == a && b[..32] == b;
    for i := 32 downto 0
      invariant (FromLe(a) < FromLe(b)) == (FromLe(a[..i]) < FromLe(b[..i]))
    {
      TopByte(a, i + 1);
      TopByte(b, i + 1);
      if a[i] < b[i] {
        TopByteDecides(a, b, i + 1);
        return true;
      }
      if a[i] > b[i] {
        TopByteDecides(b, a, i + 1);
        return false;
      }
    }
    assert a[..0] == b[..0];
    return false;
  }

  // ---------------------------------------------------------------------
  // The batched scan
  // ---------------------------------------------------------------------

  /** No nonce in `from..to` wins. */
  ghost predicate NoWinner(p: Puzzle, from: nat, to: nat) {
    forall n :: from <= n < to && n < NONCES ==> !Wins(p, n)
  }

  /** Scans one batch of digests. */
  method ScanBatch(p: Puzzle, base: nat, len: nat) returns (hit: Option<nat>)
    requires base < NONCES
    ensures hit.Some? ==> base <= hit.value <= LAST_NONCE && Wins(p, hit.value) && NoWinner(p, base, hit.value)
    ensures hit.Some? ==> hit.value < base + len
    ensures hit.None? ==> NoWinner(p, base, base + len)
  {
    hide FromLe;
    for i := 0 to len
      invariant NoWinner(p, base, base + i)
    {
      var nonce := Saturating(base + i);
      var less := LessThan(p.digest(nonce), p.target);
      if less {
        return Some(nonce);
      }
    }
    return None;
  }

  /** The least winner at or after `start` within `range` nonces; nonces past the last one repeat it. */
  method SearchPow(p: Puzzle, start: nat, range: nat) returns (hit: Option<nat>)
    requires start < NONCES
    ensures hit.Some? ==> start <= hit.value <= LAST_NONCE && Wins(p, hit.value) && NoWinner(p, start, hit.value)
    ensures hit.Some? ==> hit.value < start + range
    ensures hit.None? ==> NoWinner(p, start, start + range)
  {
    var done := 0;
    while done < range
      invariant done <= range && NoWinner(p, start, start + done)
    {
      var len := if range - done < DIGEST_BATCH then range - done else DIGEST_BATCH;
      var base := Saturating(start + done);
      hit := ScanBatch(p, base, len);
      if hit.Some? {
        return;
      }
      done := done + len;
    }
    return None;
  }

  // ---------------------------------------------------------------------
  // The parallel miner
  // ---------------------------------------------------------------------

  const NONCES_PER_LANE: nat := 65_536

  /** Where a lane starts; the addition wraps at the end of the nonce space. */
  function LaneStart(batchStart: nat, lane: nat): (start: nat)
    ensures start < NONCES
  {
    (batchStart + NONCES_PER_LANE * lane) % NONCES
  }

  /** `nonce` is the least winner of all. */
  ghost predicate LeastWinner(p: Puzzle, nonce: nat) {
    nonce < NONCES && Wins(p, nonce) && NoWinner(p, 0, nonce)
  }

  lemma LeastWinnerIsUnique(p: Puzzle, a: nat, b: nat)
    requires LeastWinner(p, a) && LeastWinner(p, b)
    ensures a == b
  {
    hide Wins;
  }

  /** A wrapped lane only searches nonces that earlier batches already ruled out. */
  lemma WrappedLaneIsBehind(batchStart: nat, lane: nat, lanes: nat)
    requires lane < lanes && NONCES_PER_LANE * lanes <= NONCES && batchStart < NONCES
    ensures var start := LaneStart(batchStart, lane);
            || start == batchStart + NONCES_PER_LANE * lane
            || start + NONCES_PER_LANE <= batchStart
  {
  }

  /** What one lane's answer says about the nonces from the batch start. */
  ghost predicate LaneSays(p: Puzzle, batchStart: nat, lane: nat, hit: Option<nat>) {
    var start := batchStart + NONCES_PER_LANE * lane;
    && (hit.Some? ==> start <= hit.value < NONCES && Wins(p, hit.value) && NoWinner(p, start, hit.value))
    && (hit.Some? ==> hit.value < start + NONCES_PER_LANE)
    && (hit.None? ==> NoWinner(p, start, start + NONCES_PER_LANE))
  }

  method SearchLane(p: Puzzle, batchStart: nat, lane: nat, lanes: nat) returns (hit: Option<nat>)
    requires lane < lanes && NONCES_PER_LANE * lanes <= NONCES && batchStart < NONCES && NoWinner(p, 0, batchStart)
    ensures LaneSays(p, batchStart, lane, hit)
  {
    hide Wins;
    WrappedLaneIsBehind(batchStart, lane, lanes);
    hit := SearchPow(p, LaneStart(batchStart, lane), NONCES_PER_LANE);
  }

  /** The least answer of the first `lanes` lanes. */
  method SearchLanes(p: Puzzle, batchStart: nat, lanes: nat) returns (hit: Option<nat>)
    requires NONCES_PER_LANE * lanes <= NONCES && batchStart < NONCES && NoWinner(p, 0, batchStart)
    ensures hit.Some? ==> LeastWinner(p, hit.value)
    ensures hit.None? ==> NoWinner(p, 0, batchStart + NONCES_PER_LANE * lanes)
  {
    hide Wins;
    hit := None;
    for lane := 0 to lanes
      invariant hit.Some? ==> LeastWinner(p, hit.value) && hit.value < batchStart + NONCES_PER_LANE * lane
      invariant hit.None? ==> NoWinner(p, 0, batchStart + NONCES_PER_LANE * lane)
    {
      var answer := SearchLane(p, batchStart, lane, lanes);
      if answer.Some? && (hit.None? || answer.value < hit.value) {
        hit := answer;
      }
    }
  }

  /**
   The miner returns the least winning nonce of the whole space, and gives up only when there is none. Neither
   depends on the number of lanes.
   */
  method MineFixtureHeader(p: Puzzle, threads: nat) returns (hit: Option<nat>)
    requires NONCES_PER_LANE * threads <= NONCES
    ensures hit.Some? ==> LeastWinner(p, hit.value)
    ensures hit.None? <==> NoWinner(p, 0, NONCES)
  {
    hide Wins;
    var lanes := if threads < 1 then 1 else threads;
    var batchWidth := NONCES_PER_LANE * lanes;
    var batchStart := 0;
    while true
      invariant batchStart < NONCES && NoWinner(p, 0, batchStart)
      decreases NONCES - batchStart
    {
      hit := SearchLanes(p, batchStart, lanes);
      if hit.Some? {
        return;
      }
      if batchStart + batchWidth >= NONCES {
        return None;
      }
      batchStart := batchStart + batchWidth;
    }
  }
}

/** The byte sponge behind every header hash: what it returns depends on the absorbed byte stream alone. */
module Sponge {
  import opened Bytes

  const RATE_BYTES: nat := 32
  const PADDING_START: Byte := 0x80
  const PADDING_END: Byte := 0x01

  /** The four-lane permutation state. */
  type Lanes(==, 0, !new)

  /** The permutation after mixing in one rate block, and the 32-byte read-out. Both are arbitrary here. */
  datatype Permutation = Permutation(mix: (Lanes, seq<Byte>) -> Lanes, squeeze: Lanes -> Digest)

  function Mix(p: Permutation, lanes: Lanes, block: seq<Byte>): Lanes {
    p.mix(lanes, block)
  }

  /** The lanes after every whole block of `data`. */
  function Absorbed(p: Permutation, lanes: Lanes, data: seq<Byte>): Lanes
    decreases |data|
  {
    if |data| < RATE_BYTES then lanes
    else Absorbed(p, Mix(p, lanes, data[..RATE_BYTES]), data[RATE_BYTES..])
  }

  /** What is left after every whole block. */
  function Pending(data: seq<Byte>): (rest: seq<Byte>)
    ensures |rest| < RATE_BYTES && |rest| <= |data| && rest == data[|data| - |rest|..]
    decreases |data|
  {
    if |data| < RATE_BYTES then data else Pending(data[RATE_BYTES..])
  }

  /** `0x80`, zeros, and `0x01` in the last byte; both marks meet when a single byte is left. */
  function Padding(length: nat): (padding: seq<Byte>)
    requires 1 <= length
    ensures |padding| == length
  {
    if length == 1 then [PADDING_START + PADDING_END]
    else [PADDING_START] + Zeros(length - 2) + [PADDING_END]
  }

  /** The digest of a byte stream under an initial state. */
  function Hash(p: Permutation, iv: Lanes, data: seq<Byte>): Digest {
    var rest := Pending(data);
    p.squeeze(Mix(p, Absorbed(p, iv, data), rest + Padding(RATE_BYTES - |rest|)))
  }

  /** Absorbing more continues from the pending bytes. */
  lemma {:induction false} AbsorbContinues(p: Permutation, lanes: Lanes, before: seq<Byte>, more: seq<Byte>)
    ensures Absorbed(p, lanes, before + more) == Absorbed(p, Absorbed(p, lanes, before), Pending(before) + more)
    ensures Pending(before + more) == Pending(Pending(before) + more)
    decreases |before|
  {
    if |before| >= RATE_BYTES {
      var rest := before[RATE_BYTES..];
      assert (before + more)[..RATE_BYTES] == before[..RATE_BYTES];
      assert (before + more)[RATE_BYTES..] == rest + more;
      AbsorbContinues(p, Mix(p, lanes, before[..RATE_BYTES]), rest, more);
    }
  }

  /** The stream as the permutation sees it. */
  function Padded(data: seq<Byte>): seq<Byte> {
    data + Padding(RATE_BYTES - |Pending(data)|)
  }

  /** Padding fills the last block: `0x80` behind the data, `0x01` added to the last byte, zeros between. */
  lemma PaddedBytes(data: seq<Byte>)
    ensures |Padded(data)| == 32 * (|data| / 32 + 1)
    ensures Padded(data)[..|data|] == data
    ensures forall i :: |data| <= i < |Padded(data)| ==>
              Padded(data)[i] == (if i == |data| then 0x80 else 0) + (if i == |Padded(data)| - 1 then 0x01 else 0)
  {
    hide Pending;
    PendingLength(data);
  }

  lemma {:induction false} PendingLength(data: seq<Byte>)
    ensures |Pending(data)| == |data| % RATE_BYTES
    decreases |data|
  {
    hide Pending;
    PendingStep(data);
    if |data| >= RATE_BYTES {
      PendingLength(data[RATE_BYTES..]);
      OneBlockLess(|data|);
    }
  }

  lemma PendingStep(data: seq<Byte>)
    ensures Pending(data) == if |data| < RATE_BYTES then data else Pending(data[RATE_BYTES..])
  {
  }

  lemma OneBlockLess(n: nat)
    requires n >= RATE_BYTES
    ensures (n - RATE_BYTES) % RATE_BYTES == n % RATE_BYTES
  {
  }

  /** The lanes after the first `n` blocks of a stream, mixed in one after the other. */
  function AfterBlocks(p: Permutation, iv: Lanes, stream: seq<Byte>, n: nat): Lanes
    requires 32 * n <= |stream|
    decreases n
  {
    if n == 0 then iv else p.mix(AfterBlocks(p, iv, stream, n - 1), stream[32 * (n - 1)..32 * n])
  }

  /** The digest reads out the lanes after every block of the padded stream. */
  lemma HashMixesPaddedBlocks(p: Permutation, iv: Lanes, data: seq<Byte>)
    ensures 32 * (|data| / 32 + 1) == |Padded(data)|
    ensures Hash(p, iv, data) == p.squeeze(AfterBlocks(p, iv, Padded(data), |data| / 32 + 1))
  {
    hide Absorbed, Pending, Padding, AfterBlocks;
    PaddedBytes(data);
    PendingLength(data);
    var n, padded := |data| / 32, Padded(data);
    AbsorbedIsBlocks(p, iv, data, padded, n);
    OneMore(p, iv, padded, n + 1);
    var rest := Pending(data);
    assert padded[32 * n..32 * n + 32] == rest + Padding(RATE_BYTES - |rest|);
  }

  lemma OneMore(p: Permutation, iv: Lanes, stream: seq<Byte>, n: nat)
    requires 0 < n && 32 * n <= |stream|
    ensures AfterBlocks(p, iv, stream, n) == p.mix(AfterBlocks(p, iv, stream, n - 1), stream[32 * (n - 1)..32 * n])
  {
  }

  lemma {:induction false} AbsorbedIsBlocks(p: Permutation, iv: Lanes, data: seq<Byte>, stream: seq<Byte>, n: nat)
    requires n == |data| / 32 && data <= stream
    ensures Absorbed(p, iv, data) == AfterBlocks(p, iv, stream, n)
    decreases n
  {
    hide Pending;
    if n == 0 {
      ShortIsPending(p, iv, data);
    } else {
      var m := 32 * (n - 1);
      var front, more := data[..m], data[m..];
      AbsorbedIsBlocks(p, iv, front, stream, n - 1);
      AbsorbContinues(p, iv, front, more);
      assert data == front + more;
      PendingLength(front);
      assert Pending(front) + more == more;
      var lanes := Absorbed(p, iv, front);
      ShortIsPending(p, lanes, more);
      ShortIsPending(p, p.mix(lanes, more[..32]), more[32..]);
      assert more[..32] == stream[m..m + 32];
    }
  }

  /** Padding loses nothing: different streams are different padded streams. */
  lemma PaddingBinds(a: seq<Byte>, b: seq<Byte>)
    requires Padded(a) == Padded(b)
    ensures a == b
  {
    var whole := Padded(a);
    PaddingMarks(a);
    PaddingMarks(b);
    assert |a| == |b|;
    assert a == whole[..|a|] && b == whole[..|b|];
  }

  /** Past the data there is one marked byte and then nothing above the end mark. */
  lemma PaddingMarks(data: seq<Byte>)
    ensures |data| < |Padded(data)| && Padded(data)[|data|] >= PADDING_START
    ensures forall i :: |data| < i < |Padded(data)| ==> Padded(data)[i] < PADDING_START
  {
    hide Pending;
  }

  /** One unfolding of the block recursion. */
  lemma ShortIsPending(p: Permutation, lanes: Lanes, data: seq<Byte>)
    ensures |data| < RATE_BYTES ==> Absorbed(p, lanes, data) == lanes && Pending(data) == data
    ensures |data| >= RATE_BYTES ==>
              && Absorbed(p, lanes, data) == Absorbed(p, Mix(p, lanes, data[..RATE_BYTES]), data[RATE_BYTES..])
              && Pending(data) == Pending(data[RATE_BYTES..])
  {
  }

  class Poseidon2bSponge {
    const p: Permutation
    ghost const iv: Lanes
    var state: Lanes
    var buffer: seq<Byte>
    var filled: nat
    /** Every byte absorbed so far. */
    ghost var stream: seq<Byte>

    ghost predicate Valid()
      reads this
    {
      && |buffer| == RATE_BYTES && filled < RATE_BYTES
      && state == Absorbed(p, iv, stream)
      && buffer[..filled] == Pending(stream)
    }

    constructor WithIv(p: Permutation, iv: Lanes)
      ensures Valid() && this.p == p && this.iv == iv && stream == []
    {
      this.p := p;
      this.iv := iv;
      state := iv;
      buffer := Zeros(RATE_BYTES);
      filled := 0;
      stream := [];
    }

    /** Tops up a part-filled buffer first, then takes whole blocks, then keeps the remainder. */
    method Update(data: seq<Byte>)
      requires Valid()
      modifies this
      ensures Valid() && stream == old(stream) + data
    {
      hide Absorbed, Pending;
      AbsorbContinues(p, iv, stream, data);
      ShortIsPending(p, state, buffer[..filled] + data);
      var rest := data;
      if filled != 0 {
        rest := TopUp(data);
      } else {
        assert buffer[..filled] + data == data;
      }
      if filled == 0 {
        AbsorbBlocks(rest);
      }
      stream := stream + data;
    }

    /** Fills the buffer from the front of `data`; a full buffer is mixed in at once. */
    method TopUp(data: seq<Byte>) returns (rest: seq<Byte>)
      requires |buffer| == RATE_BYTES && 0 < filled < RATE_BYTES
      modifies this`state, this`buffer, this`filled
      ensures |buffer| == RATE_BYTES && filled < RATE_BYTES
      ensures var joined := old(buffer[..filled]) + data;
              if |joined| >= RATE_BYTES then
                filled == 0 && state == Mix(p, old(state), joined[..RATE_BYTES]) && rest == joined[RATE_BYTES..]
              else
                buffer[..filled] == joined && state == old(state) && rest == []
    {
      ghost var joined := buffer[..filled] + data;
      var copied := if |data| < RATE_BYTES - filled then |data| else RATE_BYTES - filled;
      buffer := buffer[..filled] + data[..copied] + buffer[filled + copied..];
      filled := filled + copied;
      rest := data[copied..];
      if filled == RATE_BYTES {
        assert buffer == joined[..RATE_BYTES];
        state := Mix(p, state, buffer);
        filled := 0;
      } else {
        assert buffer[..filled] == joined;
      }
    }

    /** Whole blocks straight from the input, then the remainder into the buffer. */
    method AbsorbBlocks(data: seq<Byte>)
      requires |buffer| == RATE_BYTES && filled == 0
      modifies this`state, this`buffer, this`filled
      ensures |buffer| == RATE_BYTES && filled < RATE_BYTES
      ensures state == Absorbed(p, old(state), data) && buffer[..filled] == Pending(data)
    {
      hide Absorbed, Pending;
      var rest := data;
      while |rest| >= RATE_BYTES
        invariant |buffer| == RATE_BYTES && filled == 0
        invariant Absorbed(p, state, rest) == Absorbed(p, old(state), data) && Pending(rest) == Pending(data)
        decreases |rest|
      {
        ShortIsPending(p, state, rest);
        buffer := rest[..RATE_BYTES];
        state := Mix(p, state, buffer);
        rest := rest[RATE_BYTES..];
      }
      ShortIsPending(p, state, rest);
      if rest != [] {
        buffer := rest + buffer[|rest|..];
        filled := |rest|;
      }
    }

    method Finalize() returns (digest: Digest)
      requires Valid()
      modifies this
      ensures digest == Hash(p, iv, old(stream))
    {
      hide Absorbed, Pending, Padding;
      buffer := buffer[..filled] + Padding(RATE_BYTES - filled);
      state := Mix(p, state, buffer);
      digest := p.squeeze(state);
    }
  }
}

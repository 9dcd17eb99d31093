/** The benchmark's nonce sweep, split over threads in wrapping 64-bit arithmetic. */
module PowSweep {

  const TWO_32: nat := 0x1_0000_0000
  const TWO_64: nat := 0x1_0000_0000_0000_0000

  function Min(a: nat, b: nat): nat {
    if a <= b then a else b
  }

  /** Attempts per thread, rounded up. */
  function PerThread(attempts: nat, threads: nat): nat
    requires threads > 0
  {
    (attempts + threads - 1) / threads
  }

  /** `count` shares of `per` nonces. */
  function Shares(count: nat, per: nat): nat {
    count * per
  }

  /** First nonce of a thread; the product wraps. */
  function StartNonce(attempts: nat, threads: nat, thread: nat): nat
    requires threads > 0
  {
    Shares(thread, PerThread(attempts, threads)) % TWO_64
  }

  /** First nonce past a thread's share; the sum wraps before it is clipped. */
  function EndNonce(attempts: nat, threads: nat, thread: nat): nat
    requires threads > 0
  {
    Min((StartNonce(attempts, threads, thread) + PerThread(attempts, threads)) % TWO_64, attempts)
  }

  /** What the sweep needs: the last share ends inside 64 bits, or there is nothing left for it anyway. */
  predicate Splits(attempts: nat, threads: nat)
    requires threads > 0
  {
    var per := PerThread(attempts, threads);
    Shares(threads, per) < TWO_64 || Shares(threads - 1, per) >= attempts
  }

  /** The arguments a caller can have: a 64-bit count and a machine's worth of threads. */
  predicate Callable(attempts: nat, threads: nat) {
    attempts < TWO_64 && 1 <= threads <= TWO_32
  }

  // ---------------------------------------------------------------------
  // The shares
  // ---------------------------------------------------------------------

  lemma Step(t: nat, per: nat)
    ensures Shares(t + 1, per) == Shares(t, per) + per
  {
  }

  lemma OneShare(per: nat)
    ensures Shares(0, per) == 0 && Shares(1, per) == per
  {
  }

  lemma {:induction false} Monotone(t: nat, u: nat, per: nat)
    requires t <= u
    ensures Shares(t, per) <= Shares(u, per)
    decreases u
  {
    if t < u {
      Monotone(t, u - 1, per);
      Step(u - 1, per);
    }
  }

  /** Rounding up covers every attempt and overshoots by less than the number of threads. */
  lemma SharesCover(attempts: nat, threads: nat)
    requires threads > 0
    ensures attempts <= Shares(threads, PerThread(attempts, threads)) < attempts + threads
  {
    var per, sum := PerThread(attempts, threads), attempts + threads - 1;
    assert sum == threads * per + sum % threads;
  }

  /** Only the last share can reach the end of 64 bits. */
  lemma EarlierSharesFit(attempts: nat, threads: nat)
    requires Callable(attempts, threads)
    ensures Shares(threads - 1, PerThread(attempts, threads)) < TWO_64
    ensures Shares(threads, PerThread(attempts, threads)) >= TWO_64 ==>
              && PerThread(attempts, threads) >= threads > 1
              && Shares(threads, PerThread(attempts, threads)) - TWO_64 < threads
  {
    var per := PerThread(attempts, threads);
    SharesCover(attempts, threads);
    Step(threads - 1, per);
    if Shares(threads, per) >= TWO_64 && per < threads {
      Monotone(per, threads - 1, threads);
      Monotone(threads - 1, TWO_32 - 1, threads);
    }
  }

  /** A share as it is meant: consecutive, clipped at the end. */
  function IdealStart(attempts: nat, threads: nat, thread: nat): nat
    requires threads > 0
  {
    Min(Shares(thread, PerThread(attempts, threads)), attempts)
  }

  /** A share as the code computes it against the share as it is meant. */
  ghost predicate ShareIsIdeal(attempts: nat, threads: nat, thread: nat)
    requires threads > 0
  {
    var start, end := StartNonce(attempts, threads, thread), EndNonce(attempts, threads, thread);
    var low, high := IdealStart(attempts, threads, thread), IdealStart(attempts, threads, thread + 1);
    if low < high then start == low && end == high else start >= end
  }

  ghost predicate ShareIsLost(attempts: nat, threads: nat, thread: nat)
    requires threads > 0
  {
    && StartNonce(attempts, threads, thread) >= EndNonce(attempts, threads, thread)
    && IdealStart(attempts, threads, thread) < IdealStart(attempts, threads, thread + 1)
  }

  /** Every share but the last is what it is meant to be; so is the last, exactly when the split is sound. */
  lemma SharesAreIdeal(attempts: nat, threads: nat, thread: nat)
    requires Callable(attempts, threads) && thread < threads
    ensures if thread < threads - 1 || Splits(attempts, threads) then ShareIsIdeal(attempts, threads, thread)
            else ShareIsLost(attempts, threads, thread)
  {
    hide ShareIsIdeal, ShareIsLost, Shares, PerThread;
    var per := PerThread(attempts, threads);
    EarlierSharesFit(attempts, threads);
    Step(thread, per);
    if thread < threads - 1 {
      Monotone(thread + 1, threads - 1, per);
      FittingShareIsIdeal(attempts, threads, thread);
    } else if Shares(threads, per) < TWO_64 {
      FittingShareIsIdeal(attempts, threads, thread);
    } else {
      LastShareWraps(attempts, threads);
    }
  }

  lemma FittingShareIsIdeal(attempts: nat, threads: nat, thread: nat)
    requires threads > 0 && Shares(thread + 1, PerThread(attempts, threads)) < TWO_64
    ensures ShareIsIdeal(attempts, threads, thread)
  {
    hide Shares, PerThread;
    var per := PerThread(attempts, threads);
    Step(thread, per);
    ShareFits(attempts, per, Shares(thread, per));
  }

  lemma LastShareWraps(attempts: nat, threads: nat)
    requires Callable(attempts, threads) && Shares(threads, PerThread(attempts, threads)) >= TWO_64
    ensures if Splits(attempts, threads) then ShareIsIdeal(attempts, threads, threads - 1)
            else ShareIsLost(attempts, threads, threads - 1)
  {
    hide Shares, PerThread;
    var per := PerThread(attempts, threads);
    EarlierSharesFit(attempts, threads);
    SharesCover(attempts, threads);
    Step(threads - 1, per);
    OneShare(per);
    Monotone(1, threads - 1, per);
    ShareWraps(attempts, per, threads, Shares(threads - 1, per));
  }

  lemma ShareFits(attempts: nat, per: nat, at: nat)
    requires at + per < TWO_64
    ensures at % TWO_64 == at && (at % TWO_64 + per) % TWO_64 == at + per
    ensures Min(at, attempts) < Min(at + per, attempts) ==> Min(at, attempts) == at
    ensures Min(at, attempts) >= Min(at + per, attempts) ==> at >= Min(at + per, attempts)
  {
  }

  lemma ShareWraps(attempts: nat, per: nat, threads: nat, at: nat)
    requires at < TWO_64 <= at + per < TWO_64 + threads && at >= per >= threads && attempts <= at + per
    ensures at % TWO_64 == at && (at % TWO_64 + per) % TWO_64 < at
    ensures at < attempts ==> Min(at, attempts) < Min(at + per, attempts)
  {
  }

  /** The thread that owns a nonce. */
  function Owner(attempts: nat, threads: nat, nonce: nat): nat
    requires threads > 0 && nonce < attempts
  {
    SharesCover(attempts, threads);
    nonce / PerThread(attempts, threads)
  }

  lemma OwnerShare(attempts: nat, threads: nat, nonce: nat)
    requires threads > 0 && nonce < attempts
    ensures var per, owner := PerThread(attempts, threads), Owner(attempts, threads, nonce);
            Shares(owner, per) <= nonce < Shares(owner + 1, per)
  {
    SharesCover(attempts, threads);
    var per, owner := PerThread(attempts, threads), Owner(attempts, threads, nonce);
    Step(owner, per);
    assert nonce == owner * per + nonce % per;
  }

  /** A sound split partitions the nonces: each belongs to its owner's range and to no other. */
  lemma SharesPartition(attempts: nat, threads: nat, thread: nat, nonce: nat)
    requires Callable(attempts, threads) && Splits(attempts, threads) && thread < threads && nonce < attempts
    ensures Owner(attempts, threads, nonce) < threads
    ensures StartNonce(attempts, threads, thread) <= nonce < EndNonce(attempts, threads, thread)
       <==> thread == Owner(attempts, threads, nonce)
  {
    hide StartNonce, EndNonce, Splits, Shares, PerThread, Owner;
    var per, owner := PerThread(attempts, threads), Owner(attempts, threads, nonce);
    SharesCover(attempts, threads);
    SharesAreIdeal(attempts, threads, thread);
    OwnerShare(attempts, threads, nonce);
    if owner >= threads {
      Monotone(threads, owner, per);
    }
    if thread < owner {
      Monotone(thread + 1, owner, per);
    } else if owner < thread {
      Monotone(owner + 1, thread, per);
    }
  }

  /** The thread's range, wrapped as the code computes it, holds the nonce. */
  predicate Sweeps(attempts: nat, threads: nat, thread: nat, nonce: nat)
    requires threads > 0
  {
    StartNonce(attempts, threads, thread) <= nonce < EndNonce(attempts, threads, thread)
  }

  /** An unsound split loses its tail: those nonces, and there are some, belong to no thread's range. */
  lemma TailBelongsToNoThread(attempts: nat, threads: nat, thread: nat, nonce: nat)
    requires Callable(attempts, threads) && !Splits(attempts, threads) && thread < threads
    requires Shares(threads - 1, PerThread(attempts, threads)) <= nonce < attempts
    ensures !Sweeps(attempts, threads, thread, nonce)
  {
    hide StartNonce, EndNonce, Splits, Shares, PerThread;
    SharesAreIdeal(attempts, threads, thread);
    if thread < threads - 1 {
      Monotone(thread + 1, threads - 1, PerThread(attempts, threads));
    }
  }

  ghost predicate Owned(attempts: nat, threads: nat, nonce: nat)
    requires threads > 0
  {
    exists thread :: 0 <= thread < threads && Sweeps(attempts, threads, thread, nonce)
  }

  /** Every nonce below the count belongs to some thread's range exactly when the split is sound. */
  lemma PartitionIffSplits(attempts: nat, threads: nat)
    requires Callable(attempts, threads)
    ensures Splits(attempts, threads)
       <==> forall nonce :: 0 <= nonce < attempts ==> Owned(attempts, threads, nonce)
  {
    hide StartNonce, EndNonce, Shares, PerThread, Owner;
    if Splits(attempts, threads) {
      forall nonce | 0 <= nonce < attempts
        ensures Owned(attempts, threads, nonce)
      {
        SharesPartition(attempts, threads, 0, nonce);
        var owner := Owner(attempts, threads, nonce);
        SharesPartition(attempts, threads, owner, nonce);
        assert Sweeps(attempts, threads, owner, nonce);
      }
    } else {
      var nonce := Shares(threads - 1, PerThread(attempts, threads));
      forall thread | 0 <= thread < threads
        ensures !Sweeps(attempts, threads, thread, nonce)
      {
        TailBelongsToNoThread(attempts, threads, thread, nonce);
      }
      assert !Owned(attempts, threads, nonce);
    }
  }

  // ---------------------------------------------------------------------
  // Sweeping
  // ---------------------------------------------------------------------

  /** Work digests by nonce, and the exclusive-or they are summed with. */
  datatype Digests<!T> = Digests(zero: T, xor: (T, T) -> T, at: nat -> T)

  function Xor<T>(d: Digests<T>, a: T, b: T): T {
    d.xor(a, b)
  }

  ghost predicate Laws<T(!new)>(d: Digests<T>) {
    && (forall a, b, c :: Xor(d, Xor(d, a, b), c) == Xor(d, a, Xor(d, b, c)))
    && (forall a :: Xor(d, a, d.zero) == a)
    && (forall a :: Xor(d, d.zero, a) == a)
  }

  /** The laws are satisfiable: one bit. */
  lemma OneBit(at: nat -> bool)
    ensures Laws(Digests(false, (a: bool, b: bool) => a != b, at))
  {
  }

  /** The checksum of a run of nonces. */
  function Checksum<T>(d: Digests<T>, low: nat, high: nat): T
    decreases high
  {
    if low >= high then d.zero else Xor(d, Checksum(d, low, high - 1), d.at(high - 1))
  }

  lemma Associates<T(!new)>(d: Digests<T>, a: T, b: T, c: T)
    requires Laws(d)
    ensures Xor(d, Xor(d, a, b), c) == Xor(d, a, Xor(d, b, c))
  {
  }

  lemma Neutral<T(!new)>(d: Digests<T>, a: T)
    requires Laws(d)
    ensures Xor(d, a, d.zero) == a
  {
  }

  /** One nonce's checksum is its digest; with the split below this fixes every run's. */
  lemma ChecksumOfOne<T(!new)>(d: Digests<T>, nonce: nat)
    requires Laws(d)
    ensures Checksum(d, nonce, nonce + 1) == d.at(nonce)
  {
    assert Checksum(d, nonce, nonce) == d.zero;
  }

  lemma {:induction false} ChecksumSplits<T(!new)>(d: Digests<T>, low: nat, mid: nat, high: nat)
    requires Laws(d) && low <= mid <= high
    ensures Checksum(d, low, high) == Xor(d, Checksum(d, low, mid), Checksum(d, mid, high))
    decreases high
  {
    hide Laws;
    if mid < high {
      Associates(d, Checksum(d, low, mid), Checksum(d, mid, high - 1), d.at(high - 1));
      ChecksumSplits(d, low, mid, high - 1);
    } else {
      Neutral(d, Checksum(d, low, mid));
    }
  }

  /** Sweeps a range in batches; an empty or inverted range does nothing. */
  method SweepRange<T>(d: Digests<T>, low: nat, high: nat, batch: nat) returns (sink: T, done: nat)
    requires batch > 0
    ensures sink == Checksum(d, low, high) && done == if low < high then high - low else 0
  {
    var nonce := low;
    sink, done := d.zero, 0;
    while nonce < high
      invariant low <= nonce <= high || (nonce == low && high < low)
      invariant sink == Checksum(d, low, nonce) && done == nonce - low
    {
      var n := Min(high - nonce, batch);
      for i := 0 to n
        invariant sink == Checksum(d, low, nonce + i)
      {
        sink := Xor(d, sink, d.at(nonce + i));
      }
      done := done + n;
      nonce := nonce + n;
    }
  }

  /** How a reduction may bracket the threads' results; identities may appear anywhere. */
  datatype Bracketing = Identity | One(thread: nat) | Both(left: Bracketing, right: Bracketing)

  /** The bracketing holds exactly the threads `low..high`, in order. */
  ghost predicate Spans(b: Bracketing, low: nat, high: nat) {
    match b
    case Identity => low == high
    case One(thread) => thread == low && high == low + 1
    case Both(left, right) => exists mid: nat :: low <= mid <= high && Spans(left, low, mid) && Spans(right, mid, high)
  }

  function Reduced<T>(d: Digests<T>, b: Bracketing, sinks: seq<T>): T {
    match b
    case Identity => d.zero
    case One(thread) => if thread < |sinks| then sinks[thread] else d.zero
    case Both(left, right) => Xor(d, Reduced(d, left, sinks), Reduced(d, right, sinks))
  }

  /** Left to right over a run of threads. */
  function InOrder<T>(d: Digests<T>, sinks: seq<T>, low: nat, high: nat): T
    requires high <= |sinks|
    decreases high
  {
    if low >= high then d.zero else Xor(d, InOrder(d, sinks, low, high - 1), sinks[high - 1])
  }

  lemma {:induction false} InOrderSplits<T(!new)>(d: Digests<T>, sinks: seq<T>, low: nat, mid: nat, high: nat)
    requires Laws(d) && low <= mid <= high <= |sinks|
    ensures InOrder(d, sinks, low, high) == Xor(d, InOrder(d, sinks, low, mid), InOrder(d, sinks, mid, high))
    decreases high
  {
    if mid < high {
      InOrderSplits(d, sinks, low, mid, high - 1);
    }
  }

  /** Every bracketing reduces to the same checksum. */
  lemma {:induction false} BracketingIsIrrelevant<T(!new)>(d: Digests<T>, b: Bracketing, sinks: seq<T>, low: nat,
                                                    high: nat)
    requires Laws(d) && low <= high <= |sinks| && Spans(b, low, high)
    ensures Reduced(d, b, sinks) == InOrder(d, sinks, low, high)
    decreases b
  {
    match b
    case Identity =>
    case One(thread) =>
      assert InOrder(d, sinks, low, high) == Xor(d, d.zero, sinks[low]);
    case Both(left, right) =>
      var mid: nat :| low <= mid <= high && Spans(left, low, mid) && Spans(right, mid, high);
      BracketingIsIrrelevant(d, left, sinks, low, mid);
      BracketingIsIrrelevant(d, right, sinks, mid, high);
      InOrderSplits(d, sinks, low, mid, high);
  }

  /** Every thread sweeps its share; the counter is shared, wrapping, and order-free. */
  method SweepThreads<T>(d: Digests<T>, attempts: nat, threads: nat, batch: nat) returns (sinks: seq<T>, done: nat)
    requires Callable(attempts, threads) && batch > 0
    ensures |sinks| == threads
    ensures forall t :: 0 <= t < threads ==>
              sinks[t] == Checksum(d, StartNonce(attempts, threads, t), EndNonce(attempts, threads, t))
    ensures done == DoneCount(attempts, threads)
    ensures done == attempts <==> Splits(attempts, threads)
  {
    hide StartNonce, EndNonce, Splits, PerThread, Shares, Counted, Checksum;
    sinks, done := [], 0;
    for t := 0 to threads
      invariant |sinks| == t
      invariant forall k :: 0 <= k < t ==>
                  sinks[k] == Checksum(d, StartNonce(attempts, threads, k), EndNonce(attempts, threads, k))
      invariant done == Swept(attempts, threads, t) < TWO_64
    {
      SweptIsCounted(attempts, threads, t + 1);
      var sink, n := SweepRange(d, StartNonce(attempts, threads, t), EndNonce(attempts, threads, t), batch);
      sinks := sinks + [sink];
      done := (done + n) % TWO_64;
    }
    DoneCountIsExactIffSplits(attempts, threads);
  }

  /** Nonces in a thread's range as the code computes it; an inverted range holds none. */
  function RangeSize(attempts: nat, threads: nat, thread: nat): nat
    requires threads > 0
  {
    var start, end := StartNonce(attempts, threads, thread), EndNonce(attempts, threads, thread);
    if start < end then end - start else 0
  }

  /** Nonces swept by the first `t` threads. */
  function Swept(attempts: nat, threads: nat, t: nat): nat
    requires threads > 0
  {
    if t == 0 then 0 else Swept(attempts, threads, t - 1) + RangeSize(attempts, threads, t - 1)
  }

  /** The counter a finished sweep shows. */
  function DoneCount(attempts: nat, threads: nat): nat
    requires threads > 0
  {
    Swept(attempts, threads, threads) % TWO_64
  }

  /** Where the first `t` threads' work ends. */
  function Counted(attempts: nat, threads: nat, t: nat): nat
    requires threads > 0
  {
    IdealStart(attempts, threads, if t < threads || Splits(attempts, threads) then t else threads - 1)
  }

  lemma CountedStep(attempts: nat, threads: nat, t: nat)
    requires Callable(attempts, threads) && t < threads
    ensures Counted(attempts, threads, t + 1) == Counted(attempts, threads, t) + RangeSize(attempts, threads, t)
    ensures Counted(attempts, threads, t + 1) <= attempts
  {
    hide StartNonce, EndNonce, Splits;
    SharesAreIdeal(attempts, threads, t);
    Monotone(t, t + 1, PerThread(attempts, threads));
  }

  lemma CountedAll(attempts: nat, threads: nat)
    requires Callable(attempts, threads)
    ensures Counted(attempts, threads, threads)
         == if Splits(attempts, threads) then attempts else Shares(threads - 1, PerThread(attempts, threads))
  {
    SharesCover(attempts, threads);
  }

  // ---------------------------------------------------------------------
  // What the parallel sweep reports
  // ---------------------------------------------------------------------

  lemma {:induction false} SweptIsCounted(attempts: nat, threads: nat, t: nat)
    requires Callable(attempts, threads) && t <= threads
    ensures Swept(attempts, threads, t) == Counted(attempts, threads, t) <= attempts
  {
    hide RangeSize, Splits, PerThread;
    if t == 0 {
      OneShare(PerThread(attempts, threads));
    } else {
      SweptIsCounted(attempts, threads, t - 1);
      CountedStep(attempts, threads, t - 1);
    }
  }

  /** The sweep counts every attempt exactly when the split is sound; otherwise the last share is missing. */
  lemma DoneCountIsExactIffSplits(attempts: nat, threads: nat)
    requires Callable(attempts, threads)
    ensures DoneCount(attempts, threads) == attempts <==> Splits(attempts, threads)
    ensures !Splits(attempts, threads) ==>
              DoneCount(attempts, threads) == Shares(threads - 1, PerThread(attempts, threads)) < attempts
  {
    hide Shares, PerThread, Swept;
    SweptIsCounted(attempts, threads, threads);
    CountedAll(attempts, threads);
  }

  /** The largest count on two threads: the second range starts half way, wraps to end at zero, and is lost. */
  lemma WrapLosesWork()
    ensures Callable(TWO_64 - 1, 2) && !Splits(TWO_64 - 1, 2)
    ensures StartNonce(TWO_64 - 1, 2, 1) == 0x8000_0000_0000_0000 && EndNonce(TWO_64 - 1, 2, 1) == 0
    ensures DoneCount(TWO_64 - 1, 2) == 0x8000_0000_0000_0000
  {
    assert PerThread(TWO_64 - 1, 2) == 0x8000_0000_0000_0000;
    DoneCountIsExactIffSplits(TWO_64 - 1, 2);
  }

  lemma {:induction false} InOrderIsChecksum<T(!new)>(d: Digests<T>, attempts: nat, threads: nat, sinks: seq<T>, t: nat)
    requires Laws(d) && Callable(attempts, threads) && t <= threads == |sinks|
    requires forall k :: 0 <= k < threads ==>
               sinks[k] == Checksum(d, StartNonce(attempts, threads, k), EndNonce(attempts, threads, k))
    ensures InOrder(d, sinks, 0, t) == Checksum(d, 0, Counted(attempts, threads, t))
  {
    hide Laws, Shares, PerThread, StartNonce, EndNonce, Splits;
    if t == 0 {
      OneShare(PerThread(attempts, threads));
    } else {
      InOrderIsChecksum(d, attempts, threads, sinks, t - 1);
      SharesAreIdeal(attempts, threads, t - 1);
      Monotone(t - 1, t, PerThread(attempts, threads));
      var low, high := Counted(attempts, threads, t - 1), Counted(attempts, threads, t);
      ChecksumSplits(d, 0, low, high);
      Neutral(d, Checksum(d, 0, low));
    }
  }

  /**
   However the reduction is bracketed, the parallel checksum is the sequential one over the nonces that were counted.
   */
  lemma ParallelIsPrefix<T(!new)>(d: Digests<T>, attempts: nat, threads: nat, sinks: seq<T>, b: Bracketing)
    requires Laws(d) && Callable(attempts, threads) && |sinks| == threads && Spans(b, 0, threads)
    requires forall k :: 0 <= k < threads ==>
               sinks[k] == Checksum(d, StartNonce(attempts, threads, k), EndNonce(attempts, threads, k))
    ensures Reduced(d, b, sinks) == Checksum(d, 0, DoneCount(attempts, threads))
  {
    hide Laws, Spans, StartNonce, EndNonce, Splits, Shares, PerThread, Counted;
    BracketingIsIrrelevant(d, b, sinks, 0, threads);
    InOrderIsChecksum(d, attempts, threads, sinks, threads);
    SweptIsCounted(attempts, threads, threads);
  }

  /** On a sound split the parallel checksum is the sequential one. */
  lemma ParallelIsSequential<T(!new)>(d: Digests<T>, attempts: nat, threads: nat, sinks: seq<T>, b: Bracketing)
    requires Laws(d) && Callable(attempts, threads) && Splits(attempts, threads) && |sinks| == threads
    requires forall k :: 0 <= k < threads ==>
               sinks[k] == Checksum(d, StartNonce(attempts, threads, k), EndNonce(attempts, threads, k))
    requires Spans(b, 0, threads)
    ensures Reduced(d, b, sinks) == Checksum(d, 0, attempts)
  {
    ParallelIsPrefix(d, attempts, threads, sinks, b);
    DoneCountIsExactIffSplits(attempts, threads);
  }
}

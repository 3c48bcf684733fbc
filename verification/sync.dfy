/** Synchronisation sampling: pair a cycle-counter reading with a system-clock
    reading taken at the same instant, as precisely as two separate reads
    allow.

    The clocks are not read here: the readings are injected, in the order the
    sampler takes them. `tscReads[0]` is the first counter read; in round i
    (1 <= i <= N) the system clock is read, giving `nsReads[i - 1]`, and then
    the counter, giving `tscReads[i]`. Round i's system reading is therefore
    bracketed by the counter reads `tscReads[i - 1]` and `tscReads[i]`. */
module Sync {
  import opened Words

  /** Number of sampling rounds. */
  const N: nat := 10

  /** A (counter, nanoseconds) pair taken to describe one instant. */
  datatype SyncSample = SyncSample(tsc: u64, ns: u64)

  /** Width of round i's bracket: the counter ticks between the two reads
      around it, as an unsigned 64-bit difference. */
  function Delta(tscs: seq<u64>, i: nat): u64
    requires 1 <= i < |tscs|
  {
    Sub(tscs[i], tscs[i - 1])
  }

  /** Round a's bracket is no wider than round b's. */
  ghost predicate NoWider(tscs: seq<u64>, a: nat, b: nat) {
    1 <= a < |tscs| && 1 <= b < |tscs| && Delta(tscs, a) <= Delta(tscs, b)
  }

  /** Round a's bracket is strictly narrower than round b's. */
  ghost predicate Narrower(tscs: seq<u64>, a: nat, b: nat) {
    1 <= a < |tscs| && 1 <= b < |tscs| && Delta(tscs, a) < Delta(tscs, b)
  }

  /** `best` is the earliest round whose bracket is the narrowest of all
      rounds 1 .. |tscs| - 1. */
  ghost predicate IsFirstNarrowest(tscs: seq<u64>, best: nat) {
    1 <= best < |tscs| &&
    (forall i :: 1 <= i < |tscs| ==> NoWider(tscs, best, i)) &&
    (forall i :: 1 <= i < best ==> Narrower(tscs, best, i))
  }

  /** The round a strict-`<` scan of rounds 1 .. k settles on: round 1, then
      each later round that is strictly narrower than the one kept. */
  function BestRound(tscs: seq<u64>, k: nat): (best: nat)
    requires 1 <= k < |tscs|
    ensures 1 <= best <= k
    decreases k
  {
    if k == 1 then 1
    else
      var b := BestRound(tscs, k - 1);
      if Delta(tscs, k) < Delta(tscs, b) then k else b
  }

  /** The scan over rounds 1 .. k keeps a round whose bracket is no wider than
      any of them, and strictly narrower than every earlier one. */
  lemma {:induction false} BestRoundIsFirstNarrowest(tscs: seq<u64>, k: nat)
    requires 1 <= k < |tscs|
    ensures forall i :: 1 <= i <= k ==> Delta(tscs, BestRound(tscs, k)) <= Delta(tscs, i)
    ensures forall i :: 1 <= i < BestRound(tscs, k) ==> Delta(tscs, BestRound(tscs, k)) < Delta(tscs, i)
    decreases k
  {
    if k > 1 {
      BestRoundIsFirstNarrowest(tscs, k - 1);
    }
  }

  /** The earliest narrowest round is unique, so the scan finds exactly it:
      not merely some round below a threshold, nor a later round of equal
      width. */
  lemma FirstNarrowestIsBestRound(tscs: seq<u64>, best: nat)
    requires |tscs| >= 2
    ensures IsFirstNarrowest(tscs, best) <==> best == BestRound(tscs, |tscs| - 1)
  {
    var b := BestRound(tscs, |tscs| - 1);
    BestRoundIsFirstNarrowest(tscs, |tscs| - 1);
    if IsFirstNarrowest(tscs, best) {
      if best < b {
        ghost var bestNoWider := NoWider(tscs, best, b);
        assert false;
      } else if b < best {
        ghost var bestNarrower := Narrower(tscs, best, b);
        assert false;
      }
    }
    if best == b {
      assert forall i :: 1 <= i < |tscs| ==> NoWider(tscs, best, i);
      assert forall i :: 1 <= i < best ==> Narrower(tscs, best, i);
    }
  }

  /** The earliest narrowest round, which exists (the scan finds it) and is
      unique. */
  ghost function FirstNarrowest(tscs: seq<u64>): (best: nat)
    requires |tscs| >= 2
    ensures IsFirstNarrowest(tscs, best)
  {
    FirstNarrowestIsBestRound(tscs, BestRound(tscs, |tscs| - 1));
    var best :| IsFirstNarrowest(tscs, best);
    best
  }

  /** `(a + b) >> 1` on `uint64_t`: the sum wraps before it is halved. */
  function Midpoint(a: u64, b: u64): (m: u64)
    ensures a <= b && a + b < TWO_64 ==> a <= m <= b
  {
    Add(a, b) / 2
  }

  /** When the sum overflows, the wrapped midpoint is off by exactly 2^63:
      the result is the true floor-average with its top bit dropped. */
  lemma MidpointDropsTopBit(a: u64, b: u64)
    ensures Midpoint(a, b) == ((a + b) / 2) % TWO_63
  {
  }

  /** The sample the sampler returns for the given readings: the midpoint of
      the narrowest bracket, and the system reading taken inside it. */
  ghost function Synced(tscReads: seq<u64>, nsReads: seq<u64>): SyncSample
    requires |tscReads| == N + 1 && |nsReads| == N
  {
    var best := FirstNarrowest(tscReads);
    SyncSample(Midpoint(tscReads[best - 1], tscReads[best]), nsReads[best - 1])
  }

  /** The sample built from the earliest narrowest round is the sample
      `Synced` describes. */
  lemma SyncedFromFirstNarrowest(tscReads: seq<u64>, nsReads: seq<u64>, best: nat)
    requires |tscReads| == N + 1 && |nsReads| == N
    requires IsFirstNarrowest(tscReads, best)
    ensures Synced(tscReads, nsReads) == SyncSample(Midpoint(tscReads[best - 1], tscReads[best]), nsReads[best - 1])
  {
    FirstNarrowestIsBestRound(tscReads, best);
    FirstNarrowestIsBestRound(tscReads, FirstNarrowest(tscReads));
  }

  /** `TSCNS::syncTime`: record the N rounds, then scan them for the
      narrowest bracket. `best` is the round chosen. */
  method SyncTime(tscReads: seq<u64>, nsReads: seq<u64>) returns (tsc: u64, ns: u64, ghost best: nat)
    requires |tscReads| == N + 1 && |nsReads| == N
    ensures IsFirstNarrowest(tscReads, best)
    ensures tsc == Midpoint(tscReads[best - 1], tscReads[best])
    ensures ns == nsReads[best - 1]
  {
    var tscs := new u64[N + 1];
    var nses := new u64[N + 1];

    tscs[0] := tscReads[0];
    for i := 1 to N + 1
      invariant forall j :: 0 <= j < i ==> tscs[j] == tscReads[j]
      invariant forall j :: 1 <= j < i ==> nses[j] == nsReads[j - 1]
    {
      nses[i] := nsReads[i - 1];
      tscs[i] := tscReads[i];
    }

    var b := 1;
    for i := 2 to N + 1
      invariant 1 <= b < i
      invariant forall j :: 1 <= j < i ==> Delta(tscReads, b) <= Delta(tscReads, j)
      invariant forall j :: 1 <= j < b ==> Delta(tscReads, b) < Delta(tscReads, j)
    {
      assert Sub(tscs[i], tscs[i - 1]) == Delta(tscReads, i);
      assert Sub(tscs[b], tscs[b - 1]) == Delta(tscReads, b);
      if Sub(tscs[i], tscs[i - 1]) < Sub(tscs[b], tscs[b - 1]) {
        b := i;
      }
    }
    tsc := Midpoint(tscs[b - 1], tscs[b]);
    ns := nses[b];
    best := b;
  }
}

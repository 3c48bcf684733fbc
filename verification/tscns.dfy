/** The clock mapper `TSCNS`: a linear map from cycle-counter ticks to
    nanoseconds since the epoch, `ns = ns_offset + ticks * tsc_ghz_inv`, with
    the ratio and the offset established from synchronisation samples.

    Readers (`tsc2ns`) consult only the ratio and the offset while a writer may
    be re-initialising or re-calibrating. The model keeps a ghost log of every
    store to the mapper's fields, so that the order of those stores, on which
    the source's thread-safety argument rests, can be stated and reasoned
    about. */
module Mapper {
  import opened Words
  import opened Doubles
  import opened Sync

  /** One store to a field of the mapper. */
  datatype Write =
    | BaseTscWrite(tsc: u64)
    | BaseNsWrite(ns: u64)
    | RatioWrite(inv: Double)
    | OffsetWrite(offset: u64)

  /** The stores of re-basing on a fresh sample: `base_tsc`, then `base_ns`. */
  function RebaseWrites(s: SyncSample): seq<Write> {
    [BaseTscWrite(s.tsc), BaseNsWrite(s.ns)]
  }

  /** The stores of a ratio update: the ratio, then the offset. */
  function RatioThenOffset(inv: Double, offset: u64): seq<Write> {
    [RatioWrite(inv), OffsetWrite(offset)]
  }

  /** `(int64_t)((int64_t)tsc * tsc_ghz_inv)`: a tick count, read as signed,
      scaled to nanoseconds and truncated back to a signed 64-bit integer. */
  function Scaled(fp: FloatOps, tsc: u64, inv: Double): i64 {
    fp.trunc(fp.mul(fp.fromInt(ToI64(tsc)), inv))
  }

  /** The offset `adjustOffset` computes: `base_ns` minus the scaled
      `base_tsc`, in unsigned 64-bit arithmetic. It is the offset under which
      the base tick converts exactly to the base nanoseconds, whatever the
      floating-point operations round to. */
  function Offset(fp: FloatOps, baseNs: u64, baseTsc: u64, inv: Double): (offset: u64)
    ensures Add(offset, ToU64(Scaled(fp, baseTsc, inv))) == baseNs
  {
    Sub(baseNs, ToU64(Scaled(fp, baseTsc, inv)))
  }

  /** The ratio `calibrate` measures: nanoseconds elapsed over ticks elapsed
      between two samples, each difference taken modulo 2^64 and read as
      signed before it is converted to double. */
  function MeasuredInv(fp: FloatOps, base: SyncSample, delayed: SyncSample): Double {
    fp.div(fp.fromInt(ToI64(Sub(delayed.ns, base.ns))),
           fp.fromInt(ToI64(Sub(delayed.tsc, base.tsc))))
  }

  /** What a concurrent reader of the mapper consults: the ratio and the
      offset. */
  datatype View = View(inv: Double, offset: u64)

  /** The view after one more store. */
  function Observe(v: View, w: Write): View {
    match w
    case RatioWrite(inv) => v.(inv := inv)
    case OffsetWrite(offset) => v.(offset := offset)
    case BaseTscWrite(_) => v
    case BaseNsWrite(_) => v
  }

  /** Every view a reader can find while `writes` are performed one by one,
      starting from `v`: before the first store and after each store. */
  function Views(v: View, writes: seq<Write>): (vs: seq<View>)
    ensures |vs| == |writes| + 1 && vs[0] == v
    ensures forall j :: 0 < j < |vs| ==> vs[j] == Observe(vs[j - 1], writes[j - 1])
    decreases |writes|
  {
    if writes == [] then [v]
    else
      var rest := Views(Observe(v, writes[0]), writes[1..]);
      [v] + rest
  }

  /** Storing a ratio equal to the one already in place is invisible to
      readers: every view keeps the original ratio. */
  lemma {:induction false} SameRatioStoresAreInvisible(v: View, writes: seq<Write>)
    requires forall i :: 0 <= i < |writes| && writes[i].RatioWrite? ==> writes[i].inv == v.inv
    ensures forall j :: 0 <= j < |Views(v, writes)| ==> Views(v, writes)[j].inv == v.inv
    decreases |writes|
  {
    if writes != [] {
      var v' := Observe(v, writes[0]);
      assert v'.inv == v.inv;
      assert forall i :: 0 <= i < |writes[1..]| && writes[1..][i].RatioWrite? ==> writes[1..][i].inv == v.inv by {
        forall i | 0 <= i < |writes[1..]| ensures writes[1..][i] == writes[i + 1] { }
      }
      SameRatioStoresAreInvisible(v', writes[1..]);
      var vs := Views(v, writes);
      var rest := Views(v', writes[1..]);
      assert vs == [v] + rest;
    }
  }

  /** Because the offset is stored after the ratio, a reader that reads both
      fields between the same two stores of a re-initialisation or a
      calibration finds the old mapping, the new ratio with the old offset, or
      the new mapping, and never the new offset with the old ratio. When the
      ratio stored equals the one in place (a re-init with the same tsc_ghz),
      only the old and the new mapping can be seen. */
  lemma ReaderSeesOldTornOrNew(v: View, s: SyncSample, inv: Double, offset: u64)
    ensures forall w :: w in Views(v, RebaseWrites(s) + RatioThenOffset(inv, offset)) ==>
              w == v || w == View(inv, v.offset) || w == View(inv, offset)
    ensures forall w :: w in Views(v, RatioThenOffset(inv, offset)) ==>
              w == v || w == View(inv, v.offset) || w == View(inv, offset)
    ensures inv == v.inv ==>
              forall w :: w in Views(v, RebaseWrites(s) + RatioThenOffset(inv, offset)) ==>
                w == v || w == View(inv, offset)
  {
    var init := RebaseWrites(s) + RatioThenOffset(inv, offset);
    assert Views(v, init) == [v, v, v, View(inv, v.offset), View(inv, offset)];
    assert Views(v, RatioThenOffset(inv, offset)) == [v, View(inv, v.offset), View(inv, offset)];
  }

  /** `tsc2ns` loads the ratio and the offset separately, so a reader may take
      each from a different view. Even so each field it reads is the old or
      the new value, and when the ratio stored equals the one in place (a
      re-init with the same tsc_ghz) every such pair is the old or the new
      mapping. */
  lemma TwoLoadReaderSeesOldOrNewFields(v: View, s: SyncSample, inv: Double, offset: u64, i: nat, j: nat)
    requires i < 5 && j < 5
    ensures var vs := Views(v, RebaseWrites(s) + RatioThenOffset(inv, offset));
            (vs[i].inv == v.inv || vs[i].inv == inv) &&
            (vs[j].offset == v.offset || vs[j].offset == offset)
    ensures inv == v.inv ==>
              var vs := Views(v, RebaseWrites(s) + RatioThenOffset(inv, offset));
              View(vs[i].inv, vs[j].offset) == v || View(vs[i].inv, vs[j].offset) == View(inv, offset)
  {
    var writes := RebaseWrites(s) + RatioThenOffset(inv, offset);
    assert writes == [BaseTscWrite(s.tsc), BaseNsWrite(s.ns), RatioWrite(inv), OffsetWrite(offset)];
    var vs := Views(v, writes);
    assert vs[1] == v && vs[2] == v;
    assert vs[3] == View(inv, v.offset);
    assert vs[4] == View(inv, offset);
  }

  /** `TSCNS`: the calibration state and its operations. The floating-point
      operations of the machine are fixed at construction. */
  class Tscns {
    const fp: FloatOps
    /** Nanoseconds per tick. */
    var tscGhzInv: Double
    var nsOffset: u64
    /** The sample the offset is computed from. */
    var baseTsc: u64
    var baseNs: u64
    /** Every store to the four fields above, oldest first. */
    ghost var log: seq<Write>

    /** The initial state: ratio 1.0, everything else zero. */
    constructor (fp: FloatOps)
      ensures this.fp == fp
      ensures tscGhzInv == ONE && nsOffset == 0 && baseTsc == 0 && baseNs == 0
      ensures log == []
    {
      this.fp := fp;
      tscGhzInv := ONE;
      nsOffset := 0;
      baseTsc := 0;
      baseNs := 0;
      log := [];
    }

    /** `tsc2ns`: the offset plus the scaled tick count, modulo 2^64. Under
        the offset `adjustOffset` computes, the base tick converts to exactly
        the base nanoseconds. */
    function Tsc2ns(tsc: u64): (ns: u64)
      reads this
      ensures nsOffset == Offset(fp, baseNs, baseTsc, tscGhzInv) && tsc == baseTsc ==> ns == baseNs
    {
      Add(nsOffset, ToU64(Scaled(fp, tsc, tscGhzInv)))
    }

    /** The mapping reproduces its own base sample. */
    predicate Synchronized()
      reads this
    {
      Tsc2ns(baseTsc) == baseNs
    }

    /** `rdoffset`: the stored offset. It is the offset `adjustOffset` would
        compute exactly when the mapping reproduces its base sample. */
    function Rdoffset(): (offset: u64)
      reads this
      ensures Synchronized() <==> offset == Offset(fp, baseNs, baseTsc, tscGhzInv)
    {
      SubIsUniqueInverse(baseNs, ToU64(Scaled(fp, baseTsc, tscGhzInv)), nsOffset);
      nsOffset
    }

    /** `adjustOffset`: recompute the offset from the base sample and the
        current ratio. */
    method AdjustOffset()
      modifies this`nsOffset, this`log
      ensures nsOffset == Offset(fp, baseNs, baseTsc, tscGhzInv)
      ensures Synchronized()
      ensures log == old(log) + [OffsetWrite(nsOffset)]
    {
      nsOffset := Sub(baseNs, ToU64(Scaled(fp, baseTsc, tscGhzInv)));
      log := log + [OffsetWrite(nsOffset)];
    }

    /** `syncTime(base_tsc, base_ns)` as the first step of `init`: the
        sampler's two results are stored into the base fields in turn. */
    method Rebase(tscReads: seq<u64>, nsReads: seq<u64>)
      requires |tscReads| == N + 1 && |nsReads| == N
      modifies this`baseTsc, this`baseNs, this`log
      ensures SyncSample(baseTsc, baseNs) == Synced(tscReads, nsReads)
      ensures log == old(log) + RebaseWrites(Synced(tscReads, nsReads))
    {
      ghost var best;
      var tsc, ns;
      tsc, ns, best := SyncTime(tscReads, nsReads);
      SyncedFromFirstNarrowest(tscReads, nsReads, best);
      baseTsc := tsc;
      log := log + [BaseTscWrite(tsc)];
      baseNs := ns;
      log := log + [BaseNsWrite(ns)];
    }

    /** `init(tsc_ghz)`: take a base sample; if the given frequency is a known
        one (not `<= 0.0`), store its reciprocal as the ratio and then the
        offset. An unknown frequency leaves the ratio and the offset as they
        were, so the offset no longer matches the new base until a
        calibration. */
    method Init(tscGhz: Double, tscReads: seq<u64>, nsReads: seq<u64>)
      requires |tscReads| == N + 1 && |nsReads| == N
      modifies this
      ensures SyncSample(baseTsc, baseNs) == Synced(tscReads, nsReads)
      ensures AtMostZero(tscGhz) ==>
                tscGhzInv == old(tscGhzInv) && nsOffset == old(nsOffset) &&
                log == old(log) + RebaseWrites(Synced(tscReads, nsReads))
      ensures !AtMostZero(tscGhz) ==>
                tscGhzInv == fp.div(ONE, tscGhz) &&
                nsOffset == Offset(fp, baseNs, baseTsc, tscGhzInv) &&
                Synchronized() &&
                log == old(log) + RebaseWrites(Synced(tscReads, nsReads))
                                + RatioThenOffset(tscGhzInv, nsOffset)
    {
      Rebase(tscReads, nsReads);
      if AtMostZero(tscGhz) {
        return;
      }
      tscGhzInv := fp.div(ONE, tscGhz);
      log := log + [RatioWrite(tscGhzInv)];
      AdjustOffset();
    }

    /** `calibrate()`: take a second sample into locals, store the measured
        ratio, then the offset recomputed from the unchanged base sample, and
        return the measured frequency `1.0 / tsc_ghz_inv`. */
    method Calibrate(tscReads: seq<u64>, nsReads: seq<u64>) returns (tscGhz: Double)
      requires |tscReads| == N + 1 && |nsReads| == N
      modifies this
      ensures baseTsc == old(baseTsc) && baseNs == old(baseNs)
      ensures tscGhzInv == MeasuredInv(fp, SyncSample(baseTsc, baseNs), Synced(tscReads, nsReads))
      ensures nsOffset == Offset(fp, baseNs, baseTsc, tscGhzInv) && Synchronized()
      ensures tscGhz == fp.div(ONE, tscGhzInv)
      ensures log == old(log) + RatioThenOffset(tscGhzInv, nsOffset)
    {
      ghost var best;
      var delayedTsc, delayedNs;
      delayedTsc, delayedNs, best := SyncTime(tscReads, nsReads);
      SyncedFromFirstNarrowest(tscReads, nsReads, best);
      tscGhzInv := fp.div(fp.fromInt(ToI64(Sub(delayedNs, baseNs))),
                          fp.fromInt(ToI64(Sub(delayedTsc, baseTsc))));
      log := log + [RatioWrite(tscGhzInv)];
      AdjustOffset();
      tscGhz := fp.div(ONE, tscGhzInv);
    }
  }

  /** The start-up the header comment recommends when the frequency is not
      known: `init()` with the default `0.0`, wait, then `calibrate()`. The
      ratio is measured against the base sample `init` took, and the mapping
      reproduces that sample. */
  method TwoPhaseStartup(fp: FloatOps, initTscs: seq<u64>, initNses: seq<u64>,
                         laterTscs: seq<u64>, laterNses: seq<u64>)
    returns (clock: Tscns, tscGhz: Double)
    requires |initTscs| == N + 1 && |initNses| == N
    requires |laterTscs| == N + 1 && |laterNses| == N
    ensures fresh(clock) && clock.fp == fp
    ensures SyncSample(clock.baseTsc, clock.baseNs) == Synced(initTscs, initNses)
    ensures clock.tscGhzInv == MeasuredInv(fp, Synced(initTscs, initNses), Synced(laterTscs, laterNses))
    ensures tscGhz == fp.div(ONE, clock.tscGhzInv)
    ensures clock.Synchronized()
    ensures clock.log == RebaseWrites(Synced(initTscs, initNses))
                         + RatioThenOffset(clock.tscGhzInv, clock.nsOffset)
  {
    clock := new Tscns(fp);
    AtMostZeroCases(ZERO);
    clock.Init(ZERO, initTscs, initNses);
    tscGhz := clock.Calibrate(laterTscs, laterNses);
  }
}

# TSCNS clock mapper, modelled in Dafny

TSCNS turns cycle-counter (TSC) readings into wall-clock nanoseconds with
one multiply and one add: `ns = ns_offset + tsc * tsc_ghz_inv`. The ratio
`tsc_ghz_inv` (nanoseconds per tick) is either supplied by the caller (`init`
with a known `tsc_ghz`) or measured (`calibrate`) from two synchronisation
samples taken some time apart. The offset is recomputed from the base sample
whenever the ratio changes (`adjustOffset`).

A synchronisation sample (`syncTime`) reads the counter once and then, for
N = 10 rounds, the system clock followed by the counter. It keeps the round
whose two bracketing counter reads are closest together (the smallest unsigned
64-bit difference, the earliest such round on ties) and returns the midpoint
of that bracket with the system reading taken inside it.

The model has four modules:

- `Words` (`words.dfy`): `uint64_t` and `int64_t` as integer subset types, with
  wrap-around addition and subtraction and the two casts between them.
- `Doubles` (`doubles.dfy`): a `double` as its IEEE-754 bit pattern. The
  comparison `tsc_ghz <= 0.0` is defined on the bits. Division, multiplication,
  conversion from `int64_t` and truncation to `int64_t` are a record of
  uninterpreted operations (`FloatOps`), fixed when the mapper is constructed.
- `Sync` (`sync.dfy`): `syncTime` as a method that fills the two local arrays
  and scans them, proved to choose the earliest round with the narrowest
  bracket (`IsFirstNarrowest`). `BestRound`, a recursive definition of the
  strict-`<` scan, is proved to choose the same round, and that round is
  unique.
- `Mapper` (`tscns.dfy`): the class `Tscns` with the fields `tscGhzInv`,
  `nsOffset`, `baseTsc`, `baseNs` and a ghost log of every store to them, so
  that the order of the stores, on which the source's argument for
  re-initialising while other threads convert rests, is part of each method's
  postcondition. `Views` lists what a concurrent reader of the ratio and
  offset can find between those stores.

The clocks are parameters: `tscReads` holds the N + 1 counter reads in the
order they are taken and `nsReads` the N system-clock reads, `nsReads[i - 1]`
being taken in round i, between `tscReads[i - 1]` and `tscReads[i]`.

The offset is not always consistent with the base sample: `init` with a
frequency `<= 0.0` (tscns.h:45-46) stores a new base sample and keeps the
offset computed from the old one. `Init` therefore guarantees
`Synchronized()` only for a known frequency, and `Calibrate` always.

## Model

| member | source | states |
|---|---|---|
| `Words.CastRoundTrip` | tscns.h:67 | `(int64_t)` and `(uint64_t)` only reinterpret the 64 bits: each cast undoes the other |
| `Words.WrapIsModular` | tscns.h:54 | the model's unsigned addition, subtraction and signed-to-unsigned conversion are arithmetic modulo 2^64 |
| `Words.SubIsUniqueInverse` | tscns.h:104 | adding back what was subtracted modulo 2^64 restores the word, and the wrapped difference is the only word that does so |
| `Doubles.AtMostZeroIsIeeeAtMostZero` | tscns.h:46 | the bit-level test used for `tsc_ghz <= 0.0` agrees with IEEE-754 `<=` on the value the bits denote (sign, biased exponent and mantissa, normal and subnormal): false for every NaN, true for an infinity exactly when it is negative, and for a finite value exactly when the number is at most zero (so both zeros count, and any positive value, however small, does not) |
| `Sync.BestRound` | tscns.h:96-99 | the strict-`<` scan over rounds 1..k (start at round 1, move to a round only when it is strictly narrower) settles on a round within 1..k |
| `Sync.BestRoundIsFirstNarrowest` | tscns.h:96-99 | the round the scan keeps has a wrapped tick delta at most every round's delta in 1..k, and strictly below the delta of every earlier round, so ties go to the lowest index |
| `Sync.FirstNarrowestIsBestRound` | tscns.h:83-99 | a round is the earliest globally narrowest bracket if and only if it is the round the scan returns; the choice is the global minimum, not the first round under a threshold |
| `Sync.FirstNarrowest` | tscns.h:83-84 | for any two or more counter reads an earliest narrowest round exists |
| `Sync.Midpoint` | tscns.h:100 | `(a + b) >> 1` with a wrapping sum lies in `[a, b]` when `a <= b` and the sum does not overflow |
| `Sync.MidpointDropsTopBit` | tscns.h:100 | in every case the wrapped midpoint is the true floor-average with its top bit dropped, so an overflowing sum puts it exactly 2^63 below the true midpoint |
| `Sync.SyncedFromFirstNarrowest` | tscns.h:100-101 | the sample built from the earliest narrowest round (midpoint of its bracket, system reading inside it) is the sample `Synced` describes |
| `Sync.SyncTime` | tscns.h:85-102 | chooses the earliest round `best` (1 <= best <= N) whose wrapped tick delta is at most every round's, and returns the midpoint of `tscReads[best - 1]` and `tscReads[best]` and the system reading `nsReads[best - 1]` taken between them |
| `Mapper.Offset` | tscns.h:104 | the offset `adjustOffset` computes makes the base tick convert back to exactly the base nanoseconds modulo 2^64, whatever the floating-point operations return |
| `Mapper.Views` | tscns.h:41-43 | the reader-visible (ratio, offset) pairs during a series of stores: the starting pair, then each pair obtained from the previous one by one store |
| `Mapper.SameRatioStoresAreInvisible` | tscns.h:41-43 | if every ratio store writes the ratio already in place, every view a reader can find carries that same ratio |
| `Mapper.ReaderSeesOldTornOrNew` | tscns.h:44-57 | during `init` or `calibrate` a reader that reads both fields between the same two stores sees the old mapping, the new ratio with the old offset, or the new mapping, never the new offset with the old ratio; with an unchanged ratio (re-init with the same `tsc_ghz`) only the old or the new mapping |
| `Mapper.TwoLoadReaderSeesOldOrNewFields` | tscns.h:41-43 | a reader that loads the ratio and the offset at different points of `init` gets each field old or new; with an unchanged ratio every pair it can form is the old or the new mapping |
| `Mapper.Tscns.constructor` | tscns.h:106-109 | a new mapper has ratio 1.0, offset 0 and base sample (0, 0), and no stores logged |
| `Mapper.Tscns.Tsc2ns` | tscns.h:67 | when the offset is the one `adjustOffset` computes, converting the base tick yields exactly the base nanoseconds |
| `Mapper.Tscns.Rdoffset` | tscns.h:80 | the returned offset equals `adjustOffset`'s value for the current base sample and ratio if and only if the mapping converts its base tick to its base nanoseconds |
| `Mapper.Tscns.AdjustOffset` | tscns.h:104 | stores the recomputed offset, after which the mapping reproduces its base sample; logs exactly one offset store and changes no other field |
| `Mapper.Tscns.Rebase` | tscns.h:45 | stores the sampler's tick into `baseTsc` and then its nanoseconds into `baseNs`, in that order |
| `Mapper.Tscns.Init` | tscns.h:44-49 | always re-bases on a fresh sample; with a frequency `<= 0.0` leaves ratio and offset untouched; otherwise stores `1.0 / tsc_ghz` as the ratio and then the offset, leaving the mapping synchronised with the new base |
| `Mapper.Tscns.Calibrate` | tscns.h:51-57 | keeps the base sample, stores the ratio measured from the signed wrapped deltas to a fresh sample, then the offset recomputed from the unchanged base, and returns `1.0 / tsc_ghz_inv` |
| `Mapper.TwoPhaseStartup` | tscns.h:31-37 | `init(0.0)` followed by `calibrate()` leaves the ratio measured from `init`'s base sample to the later sample, returns its reciprocal, and leaves a mapping that reproduces the base sample |

## Left out

- `rdtsc` (the `rdtscp` instruction) and `rdsysns` (`clock_gettime(CLOCK_REALTIME)`) are hardware and operating-system reads; their values enter as the injected `tscReads` and `nsReads`.
- `rdns` is `tsc2ns` applied to a fresh counter read; only `tsc2ns` is modelled.
- Floating-point arithmetic: `1.0 / tsc_ghz`, the measured ratio, `1.0 / tsc_ghz_inv` and the multiply-and-truncate of `tsc2ns` and `adjustOffset` go through uninterpreted operations. Nothing is said about their precision, about monotonicity of conversion, or about the undefined behaviour of truncating an out-of-range double to `int64_t`.
- Concurrency itself: readers racing with a writer are represented only by the sequence of states between the writer's stores (`Views`); memory ordering and the atomicity of the 64-bit offset store are not modelled.
- The `alignas(64)` placement of the ratio and offset on one cache line is a performance directive.
- The default argument `tsc_ghz = 0.0` of `init`: callers pass `Doubles.ZERO` explicitly.
- Mapper.ReaderSeesOldTornOrNew: holds only for a reader that reads both fields between the same two stores; `tsc2ns` loads them separately, so a two-load reader can pair the old ratio with the new offset. `TwoLoadReaderSeesOldOrNewFields` states what such a reader is guaranteed.
- `nses[0]` is never written by the sampler and never read; the model's array starts it at 0.

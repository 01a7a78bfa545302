# freud local descriptors and rotational autocorrelation: the discrete layer

This project models the integer and index logic beneath two freud classes. None of the floating-point work is modelled.

- `LocalDescriptors` (`cpp/environment`). For every reference point, `compute` walks that point's bonds in a
  neighbour list. The list is a flat array `[ref0, tgt0, ref1, tgt1, ...]`. The walk starts at `find_first_index(i)`
  and is capped at `nNeigh` bonds. Each processed bond writes one block of `getSphWidth()` harmonic values, starting
  at offset `bond * width` of a shared output array. That array is reallocated only when the bond count grows past
  the last one. The frame each point's bonds are projected onto depends on the orientation mode.
- `RotationalAutocorrelation` (`cpp/order`). The constructor caches `l + 1` factorials as 32-bit unsigned integers.

Modules:

- `Common` (`common.dfy`): the `unsigned int` range `u32`, unsigned subtraction, `Option` and `Outcome`.
- `NeighborList` (`neighbor_list.dfy`): the flat bond array and the contract of `find_first_index`. It also holds
  the two bond walks of `compute`, the output loop (`Run`) and the inertia-tensor loop (`InertiaWalk`), with their
  bound, contiguity, disjointness and length lemmas.
- `LocalDescriptors` (`local_descriptors.dfy`): the orientation enum, `getSphWidth`, and the object state and
  output array. It also holds `Compute`. The parallel loop over points runs sequentially in `Compute`; the
  disjointness lemma is what shows that the order of points does not matter.
- `RotationalAutocorrelation` (`rotational_autocorrelation.dfy`): the factorial table, the constructor and its
  getters.

How values are represented:

- The harmonic values in the output array are not modelled as numbers. Each entry is a `Cell` that records which
  point, bond, harmonic index and `Frame` produced it. An entry not written since allocation is `Zero`.
- `fsph::sphCount` is a parameter `sphCount: nat -> nat`, so every width property holds for any such function.
- `NeighborList::find_first_index` is modelled by its contract: the first bond whose reference index is at least
  `r`, or the bond count when there is none. `FirstIndexUnique` shows that this contract has exactly one answer.
- The neighbour-list documentation describes lists as sorted by reference index. `compute` does not check
  this. The model therefore accepts any order, and it proves the exact per-point count only for sorted lists.

## Model

| member | source | states |
|---|---|---|
| `NeighborList.FindFirstIndex` | cpp/environment/LocalDescriptors.cc:50 | The walk of point `i` starts at a bond `f <= numBonds`. Every bond before `f` has a reference index below `i`. Bond `f`, if it exists, has a reference index of at least `i`. |
| `NeighborList.FirstIndexUnique` | cpp/environment/LocalDescriptors.cc:50 | Any lookup that meets the `find_first_index` contract (a binary search, say) returns the same bond as `FindFirstIndex`. |
| `NeighborList.FirstIndexSplitsSorted` | cpp/environment/LocalDescriptors.cc:50 | On a sorted list, every bond from `find_first_index(r)` on has a reference index of at least `r`. |
| `NeighborList.Run` | cpp/environment/LocalDescriptors.cc:118-120 | The bonds processed for point `i` are `find_first_index(i)`, `find_first_index(i)+1`, and so on, with no gap. Each is below the bond count and has `neighbor_list[2*bond] == i`. There are at most `nNeigh` of them. The walk stops only at the end of the array, at the first bond with another reference index, or at the cap. |
| `NeighborList.InertiaWalkMatchesRun` | cpp/environment/LocalDescriptors.cc:63-65 | The inertia-tensor loop, bounded by `bond_copy < bond + nNeigh`, visits exactly the bonds that the output loop, bounded by `count < nNeigh`, later writes. |
| `NeighborList.RunsDisjoint` | cpp/environment/LocalDescriptors.cc:118-120 | No bond is processed for two different reference points. |
| `NeighborList.RunLengthBound` | cpp/environment/LocalDescriptors.cc:118-120 | On any list, at most `min(nNeigh, number of bonds with reference i)` bonds are processed for point `i`. |
| `NeighborList.RunLengthSorted` | cpp/environment/LocalDescriptors.cc:118-120 | On a sorted list, exactly `min(nNeigh, number of bonds with reference i)` bonds are processed for point `i`. |
| `NeighborList.SortedBlock` | cpp/environment/LocalDescriptors.cc:118-120 | On a sorted list, the bonds of reference `r` are exactly those between `find_first_index(r)` and `find_first_index(r+1)`. |
| `LocalDescriptors.DecodeOrientation` | cpp/environment/LocalDescriptors.h:20-25 | An orientation value names an enumerator exactly when it is 0, 1 or 2, and the enumerator it names has that number. |
| `LocalDescriptors.OrientationRoundTrip` | cpp/environment/LocalDescriptors.h:20-25 | The enum has exactly the three members `LocalNeighborhood`, `Global` and `ParticleLocal`. Decoding an enumerator's number gives back that enumerator. |
| `LocalDescriptors.SphWidth` | cpp/environment/LocalDescriptors.h:69-72 | The width is `sphCount(lmax) + sphCount(lmax-1)` when `lmax > 0 && negative_m`, and `sphCount(lmax)` otherwise. The unsigned `lmax - 1` is evaluated only where it cannot wrap. |
| `LocalDescriptors.UnguardedDecrementWraps` | cpp/environment/LocalDescriptors.h:71 | Without the `lmax > 0` guard, `lmax - 1` at `lmax == 0` would be `UINT_MAX`. |
| `LocalDescriptors.NegativeMNeverNarrows` | cpp/environment/LocalDescriptors.h:71 | Turning `negative_m` on never makes the width smaller than `sphCount(lmax)`. |
| `LocalDescriptors.ZeroLmaxIgnoresNegativeM` | cpp/environment/LocalDescriptors.h:71 | At `lmax == 0` the width is `sphCount(0)`, whatever `negative_m` is. |
| `LocalDescriptors.FrameForModes` | cpp/environment/LocalDescriptors.cc:55-112 | `Global` gives the identity rows (1,0,0), (0,1,0), (0,0,1). `LocalNeighborhood` gives the principal axes of the inertia tensor over exactly the point's processed bonds. `ParticleLocal` gives the point's own rotation. |
| `LocalDescriptors.NewObjectState` | cpp/environment/LocalDescriptors.cc:24-26 | A new object reports `getNP() == 0`, `getNSphs() == 0` and the given `lmax`, and it meets the buffer invariant. |
| `LocalDescriptors.BlockIndex` | cpp/environment/LocalDescriptors.cc:122 | An array position lies in the block `[b*width, b*width+width)` exactly when dividing it by the width gives `b`. Its offset within the block is then the remainder. |
| `LocalDescriptors.BlockInBounds` | cpp/environment/LocalDescriptors.cc:122 | Every block of a bond in the list lies inside the `numBonds * width` entries allocated at line 39. |
| `LocalDescriptors.PointWritesDisjoint` | cpp/environment/LocalDescriptors.cc:45-50 | The blocks written for two different reference points never share a position. This is why the parallel per-point loop needs no locking. |
| `LocalDescriptors.TruncatedOffsetExactIff` | cpp/environment/LocalDescriptors.cc:122 | The 32-bit offset the source stores equals the block start `bond * width` exactly when that start is below 2^32. |
| `LocalDescriptors.TruncatedOffsetAliasesBondZero` | cpp/environment/LocalDescriptors.cc:122 | At width 169, bond 25414008 gets the truncated offset 56. That offset lies inside bond 0's block, not inside the bond's own block. |
| `LocalDescriptors.WritePoint` | cpp/environment/LocalDescriptors.cc:118-143 | The output loop of point `i` turns an array in which all points below `i` are done into one in which all points up to `i` are done. Every entry of each processed bond's block holds that bond's harmonic; every other entry is unchanged. |
| `LocalDescriptors.Compute` | cpp/environment/LocalDescriptors.cc:28-150 | See the paragraph after this table. |
| `RotationalAutocorrelation.FactorialStep` | cpp/order/RotationalAutocorrelation.h:63 | One 32-bit step `i * t[i-1]`, applied to `(i-1)! mod 2^32`, gives `i! mod 2^32`. |
| `RotationalAutocorrelation.FactorialTable` | cpp/order/RotationalAutocorrelation.h:58-64 | The table has exactly `l+1` entries, and `t[0] == 1`. For `1 <= i <= l`, `t[i] == (i * t[i-1]) mod 2^32`. Every entry `t[i]` equals `i! mod 2^32`, so no zero left by the `memset` survives. |
| `RotationalAutocorrelation.New` | cpp/order/RotationalAutocorrelation.h:55-65 | After construction, `getL() == l`, `getN() == 0` and `getRotationalAutocorrelation() == 0`. The factorial table is as above. When `l <= 12`, every entry is the exact `i!`. |
| `RotationalAutocorrelation.EntryExactIff` | cpp/order/RotationalAutocorrelation.h:61-64 | A cached entry equals the exact `i!` exactly when `i <= 12`. |
| `RotationalAutocorrelation.ThirteenFactorialWraps` | cpp/order/RotationalAutocorrelation.h:63 | Entry 13 is `13! mod 2^32 = 1932053504`, not `13!`. |
| `RotationalAutocorrelation.MaxOrderAllocatesNothing` | cpp/order/RotationalAutocorrelation.h:58 | At `l == UINT_MAX`, the `unsigned int` expression `m_l + 1` allocates zero entries. |

What `LocalDescriptors.Compute` states:

- A list that fails validation leaves the object unchanged and throws.
- The array is replaced by `numBonds * width` zeroed entries exactly when `m_nSphs < numBonds`. Otherwise it keeps its length.
- With an orientation value outside the enum and `Nref > 0`, the call throws before any point writes. The array may already have been replaced at that point, and both counters are unchanged.
- Otherwise the call returns normally. It sets `getNP() == Nref` and `getNSphs() == numBonds` and leaves `lmax` alone.
- On a normal return, each entry of the array is the harmonic of its block's bond when that bond was processed. Every other entry is unchanged.
- Across calls, `|array| >= m_nSphs * width` always holds.

## Left out

- Spherical-harmonic evaluation (`fsph::PointSPHEvaluator`) is an external floating-point library. The model assumes it emits exactly `getSphWidth()` values per bond and records each value only by its provenance.
- `fsph::sphCount` is not part of this model. It is a function parameter, and its results are treated as naturals.
- LocalDescriptors.SphWidth: adds the two `sphCount` results as naturals, without `unsigned int` wrap-around, because the return type of `fsph::sphCount` is not part of this model.
- `NeighborList` is not part of this model. `find_first_index` is represented by its contract, not by its binary search. `validate(Nref, Np)` is represented by what the rest of `compute` relies on: every reference index below `Nref` and every target index below `Np`.
- The inertia-tensor sums, `diagonalize33SymmetricMatrix`, `box.wrap`, the quaternion-to-`rotmat3` conversion, and the `atan2`/`acos` angle normalisation with its NaN fallback are floating-point work. They are represented only by the `Frame` a point uses. The positions `r_ref`, `r`, the orientations `q_ref` and the box are therefore not inputs of the model.
- TBB `parallel_for` is modelled as a sequential loop in point order. `PointWritesDisjoint` shows that the per-point writes do not interfere, so the order does not matter.
- `shared_ptr` ownership is not modelled. The array is a sequence whose length is its allocated size.
- LocalDescriptors.Compute: stores `Nref` and the bond count as naturals. It does not model the 32-bit truncation of a bond count of 2^32 or more into `m_nSphs`, because the count type of `NeighborList::getNumBonds` is not part of this model.
- `RotationalAutocorrelation::compute`, `hypersphere_harmonic`, `quat_to_greek` and `getRAArray` are not modelled. Their bodies are not available, and they are complex floating-point numerics.
- The default constructor `RotationalAutocorrelation()` is not modelled, because it leaves every field uninitialised. `m_Ft` is represented as the real number 0.
- The Python tests and benchmarks are not modelled. They exercise Python bindings and other classes.
- The spatial-query engines and neighbour-list construction are not modelled, because their source is not available.

## Findings

| source | as written | input that shows it | evidently intended | confidence | as-written member | corrected member |
|---|---|---|---|---|---|---|
| cpp/environment/LocalDescriptors.cc:122 | The block start `bond * getSphWidth()` is stored in a `const unsigned int`. Only the low 32 bits of the `size_t` product are kept, but the array at line 39 is allocated with a `size_t` length. | Width 169 and a list of more than 25414008 bonds. Bond 25414008 should start at 2^32 + 56, but it writes from offset 56, inside bond 0's block. Two points can then write the same entries. | The block of bond `b` starts at `b * width`, with the same width as the allocation. | not executed; the truncation follows from the declared type, but it needs an array of more than 2^32 entries | `LocalDescriptors.TruncatedOffset`, shown by `LocalDescriptors.TruncatedOffsetAliasesBondZero` | `LocalDescriptors.WritePoint` (writes at `bond * width`; `BlockInBounds` and `PointWritesDisjoint` hold for it) |
| cpp/order/RotationalAutocorrelation.h:58-61 | The constructor allocates `m_l + 1` entries, computed in `unsigned int`. | `l = 4294967295`: no entries are allocated, yet entry 0 is stored, and the loop guard `i <= m_l` never becomes false. | A table of `l + 1` entries. | not executed; an order this large is unlikely in practice | `RotationalAutocorrelation.AllocatedEntries`, shown by `RotationalAutocorrelation.MaxOrderAllocatesNothing` | `RotationalAutocorrelation.FactorialTable` (always `l + 1` entries) |

/** `freud::environment::LocalDescriptors`: the output width, the orientation
    dispatch, the output buffer and the index/bond-walk skeleton of `compute`.
    The spherical-harmonic values themselves are represented by their provenance
    (which point, bond, harmonic index and frame produced them). */
module LocalDescriptors {
  import opened Common
  import opened NeighborList

  /** `LocalDescriptorOrientation`, in declaration order. */
  datatype Orientation = LocalNeighborhood | Global | ParticleLocal

  /** The integer value of each enumerator (C++ numbers them 0, 1, 2). */
  function OrientationCode(o: Orientation): nat {
    match o
    case LocalNeighborhood => 0
    case Global => 1
    case ParticleLocal => 2
  }

  /** The enumerator an orientation value names, if any; `compute` throws for the others. */
  function DecodeOrientation(code: int): (r: Option<Orientation>)
    ensures r.Some? <==> 0 <= code < 3
    ensures r.Some? ==> OrientationCode(r.value) == code
  {
    if code == 0 then Some(LocalNeighborhood)
    else if code == 1 then Some(Global)
    else if code == 2 then Some(ParticleLocal)
    else None
  }

  /** The enum has exactly three members, and decoding inverts their numbering. */
  lemma OrientationRoundTrip(o: Orientation)
    ensures DecodeOrientation(OrientationCode(o)) == Some(o)
    ensures o == LocalNeighborhood || o == Global || o == ParticleLocal
  {
  }

  /** `getSphWidth()`: the number of harmonic values written per bond, computed in
      `unsigned int` arithmetic. `sphCount` stands for `fsph::sphCount`. */
  function SphWidth(lmax: u32, negativeM: bool, sphCount: nat -> nat): (w: nat)
    ensures lmax > 0 && negativeM ==> w == sphCount(lmax) + sphCount(lmax - 1)
    ensures lmax == 0 || !negativeM ==> w == sphCount(lmax)
  {
    sphCount(lmax) + (if lmax > 0 && negativeM then sphCount(UnsignedSub(lmax, 1)) else 0)
  }

  /** Without the `lmax > 0` guard, `lmax - 1` at `lmax == 0` would wrap to `UINT_MAX`. */
  lemma UnguardedDecrementWraps()
    ensures UnsignedSub(0, 1) == MaxU32
  {
  }

  /** Turning `negative_m` on never narrows the width. */
  lemma NegativeMNeverNarrows(lmax: u32, sphCount: nat -> nat)
    ensures SphWidth(lmax, true, sphCount) >= SphWidth(lmax, false, sphCount)
    ensures SphWidth(lmax, false, sphCount) == sphCount(lmax)
  {
  }

  /** At `lmax == 0` the width is `sphCount(0)`, whatever `negative_m` is. */
  lemma ZeroLmaxIgnoresNegativeM(negativeM: bool, sphCount: nat -> nat)
    ensures SphWidth(0, negativeM, sphCount) == sphCount(0)
    ensures SphWidth(0, negativeM, sphCount) == SphWidth(0, !negativeM, sphCount)
  {
  }

  datatype Vec3 = Vec3(x: int, y: int, z: int)

  /** The rotation a point's bonds are projected onto before the harmonics are evaluated. */
  datatype Frame =
    | Rows(row0: Vec3, row1: Vec3, row2: Vec3)   // explicit rotation rows
    | PrincipalAxes(point: nat, bonds: seq<nat>) // eigenvectors of the inertia tensor summed over `bonds`
    | ParticleRotation(point: nat)               // the rotation of `conj(q_ref[point])`

  /** The frame `compute` builds for point `i` in orientation mode `o`. */
  function FrameFor(nl: NeighborList, nNeigh: nat, i: nat, o: Orientation): Frame {
    match o
    case LocalNeighborhood =>
      var s := FindFirstIndex(nl, i);
      PrincipalAxes(i, InertiaWalk(nl, i, nNeigh, s, s))
    case ParticleLocal => ParticleRotation(i)
    case Global => Rows(Vec3(1, 0, 0), Vec3(0, 1, 0), Vec3(0, 0, 1))
  }

  /** The frame of each mode: identity rows for `Global`, the inertia tensor of exactly the
      bonds that are then written for `LocalNeighborhood`, the point's own rotation otherwise. */
  lemma FrameForModes(nl: NeighborList, nNeigh: nat, i: nat)
    ensures FrameFor(nl, nNeigh, i, Global) == Rows(Vec3(1, 0, 0), Vec3(0, 1, 0), Vec3(0, 0, 1))
    ensures FrameFor(nl, nNeigh, i, LocalNeighborhood) == PrincipalAxes(i, Run(nl, i, nNeigh))
    ensures FrameFor(nl, nNeigh, i, ParticleLocal) == ParticleRotation(i)
  {
    InertiaWalkMatchesRun(nl, i, nNeigh);
  }

  /** One complex entry of the output array: either never written since allocation
      (value-initialised to zero) or harmonic `index` of `bond` of `point` in `frame`. */
  datatype Cell = Zero | Harmonic(point: nat, bond: nat, index: nat, frame: Frame)

  /** The state of a `LocalDescriptors` object; `sph` is `m_sphArray` with its allocated length. */
  datatype Descriptors = Descriptors(lmax: u32, negativeM: bool, nRef: nat, nSphs: nat, sph: seq<Cell>)

  function GetLMax(d: Descriptors): u32 { d.lmax }
  function GetNP(d: Descriptors): nat { d.nRef }
  function GetNSphs(d: Descriptors): nat { d.nSphs }
  function GetSph(d: Descriptors): seq<Cell> { d.sph }

  /** The array always holds a block for each of the last `m_nSphs` bonds. */
  predicate Valid(d: Descriptors, sphCount: nat -> nat) {
    |d.sph| >= d.nSphs * SphWidth(d.lmax, d.negativeM, sphCount)
  }

  /** `LocalDescriptors(lmax, negative_m)`. */
  function New(lmax: u32, negativeM: bool): Descriptors {
    Descriptors(lmax, negativeM, 0, 0, [])
  }

  /** A fresh object reports zero points and zero bonds, keeps `lmax`, and already meets the
      buffer invariant. */
  lemma NewObjectState(lmax: u32, negativeM: bool, sphCount: nat -> nat)
    ensures GetNP(New(lmax, negativeM)) == 0 && GetNSphs(New(lmax, negativeM)) == 0
    ensures GetLMax(New(lmax, negativeM)) == lmax
    ensures Valid(New(lmax, negativeM), sphCount)
  {
  }

  /** Position `p` lies in the block `[b * w, b * w + w)` of bond `b`. */
  predicate InBlock(p: nat, b: nat, w: nat) {
    b * w <= p < b * w + w
  }

  lemma MulMono(a: nat, b: nat, w: nat)
    requires a <= b
    ensures a * w <= b * w
  {
  }

  /** A block belongs to exactly one bond, found by division. */
  lemma BlockIndex(p: nat, b: nat, w: nat)
    requires 0 < w
    ensures InBlock(p, b, w) <==> p / w == b
    ensures InBlock(p, b, w) ==> p % w == p - b * w
  {
    var q, r := p / w, p % w;
    assert p == q * w + r && 0 <= r < w;
    if q < b {
      MulMono(q + 1, b, w);
    } else if b < q {
      MulMono(b + 1, q, w);
    }
  }

  /** Every block a bond of the list owns lies inside the `numBonds * width` entries that
      `compute` allocates. */
  lemma BlockInBounds(nl: NeighborList, b: nat, w: nat, p: nat)
    requires b < NumBonds(nl)
    requires InBlock(p, b, w)
    ensures p < NumBonds(nl) * w
  {
    MulMono(b + 1, NumBonds(nl), w);
  }

  /** Blocks written for two distinct reference points never overlap, so the per-point
      iterations of the parallel loop write disjoint parts of the array. */
  lemma PointWritesDisjoint(nl: NeighborList, nNeigh: nat, w: nat, i: nat, j: nat, b: nat, c: nat, p: nat)
    requires i != j
    requires b in Run(nl, i, nNeigh) && c in Run(nl, j, nNeigh)
    requires InBlock(p, b, w)
    ensures !InBlock(p, c, w)
  {
    RunsDisjoint(nl, nNeigh, i, j, b);
    BlockIndex(p, b, w);
    BlockIndex(p, c, w);
  }

  /** The start offset the source actually computes for bond `b`:
      `const unsigned int sphCount(bond * getSphWidth())` keeps only the low 32 bits of
      the `size_t` product, although the array is allocated with a `size_t` length. */
  function TruncatedOffset(b: nat, w: nat): u32 {
    (b * w) % TwoTo32
  }

  /** The truncated offset is the block start `b * w` exactly while that start is below 2^32. */
  lemma TruncatedOffsetExactIff(b: nat, w: nat)
    ensures TruncatedOffset(b, w) == b * w <==> b * w < TwoTo32
  {
  }

  /** With 169 harmonics per bond, bond 25414008 starts at 2^32 + 56: the truncated offset 56
      lies in the block of bond 0, which the bond's own block never meets. */
  lemma TruncatedOffsetAliasesBondZero()
    ensures TruncatedOffset(25414008, 169) == 56
    ensures InBlock(TruncatedOffset(25414008, 169), 0, 169)
    ensures !InBlock(TruncatedOffset(25414008, 169), 25414008, 169)
  {
  }

  /** The array `compute` writes into: a new zeroed one of `numBonds * width` entries when
      the bond count grew past `m_nSphs`, the old one otherwise. */
  function Reallocated(d: Descriptors, numBonds: nat, w: nat): seq<Cell> {
    if d.nSphs < numBonds then seq(numBonds * w, _ => Zero) else d.sph
  }

  /** Bond `b` has been written once points below `i`, and bonds of point `i` below `bound`,
      are done. */
  predicate Done(nl: NeighborList, nNeigh: nat, i: nat, bound: nat, b: nat)
    requires b < NumBonds(nl)
  {
    InRun(nl, nNeigh, b) && (Ref(nl, b) < i || (Ref(nl, b) == i && b < bound))
  }

  /** Entry `p` of the array once that much is done, starting from `buf`. */
  function CellAfter(buf: seq<Cell>, nl: NeighborList, nNeigh: nat, w: nat, o: Orientation,
                     i: nat, bound: nat, p: nat): Cell
    requires p < |buf|
  {
    if w > 0 && p / w < NumBonds(nl) && Done(nl, nNeigh, i, bound, p / w) then
      var b := p / w;
      Harmonic(Ref(nl, b), b, p % w, FrameFor(nl, nNeigh, Ref(nl, b), o))
    else
      buf[p]
  }

  /** Entry `p` of the array after `compute` has handled all `nRef` points: the harmonic it
      belongs to when its block is that of a processed bond, its old content otherwise. */
  function OutputCell(buf: seq<Cell>, nl: NeighborList, nNeigh: nat, w: nat, o: Orientation,
                      nRef: nat, p: nat): Cell
    requires p < |buf|
  {
    CellAfter(buf, nl, nNeigh, w, o, nRef, 0, p)
  }

  /** Replaces bond `b`'s block by the `w` harmonics of that bond. */
  function WriteBlock(buf: seq<Cell>, b: nat, w: nat, point: nat, frame: Frame): (r: seq<Cell>)
    requires b * w + w <= |buf|
    ensures |r| == |buf|
    ensures forall p :: 0 <= p < |buf| ==>
      r[p] == if InBlock(p, b, w) then Harmonic(point, b, p - b * w, frame) else buf[p]
  {
    buf[..b * w] + seq(w, k requires 0 <= k => Harmonic(point, b, k, frame)) + buf[b * w + w..]
  }

  datatype ComputeError =
    | InvalidNeighborList      // `nlist->validate` threw
    | UncaughtOrientationMode  // "Uncaught orientation mode in LocalDescriptors::compute"

  /** `compute(box, nlist, nNeigh, r_ref, Nref, r, Np, q_ref, orientation)`, with the
      parallel loop over points run in index order. */
  method Compute(d: Descriptors, sphCount: nat -> nat, nl: NeighborList, nNeigh: u32,
                 nRef: u32, np: u32, orientation: int)
    returns (d': Descriptors, outcome: Outcome<ComputeError>)
    requires Valid(d, sphCount)
    ensures Valid(d', sphCount)
    ensures GetLMax(d') == GetLMax(d) && d'.negativeM == d.negativeM
    ensures !Validates(nl, nRef, np) ==> d' == d && outcome == Fail(InvalidNeighborList)
    ensures Validates(nl, nRef, np) ==>
      var w := SphWidth(d.lmax, d.negativeM, sphCount);
      var n := NumBonds(nl);
      && (d.nSphs < n ==> |GetSph(d')| == n * w)
      && (n <= d.nSphs ==> |GetSph(d')| == |GetSph(d)|)
    ensures Validates(nl, nRef, np) && nRef > 0 && DecodeOrientation(orientation).None? ==>
      var w := SphWidth(d.lmax, d.negativeM, sphCount);
      && outcome == Fail(UncaughtOrientationMode)
      && d' == d.(sph := Reallocated(d, NumBonds(nl), w))
    ensures Validates(nl, nRef, np) && (nRef == 0 || DecodeOrientation(orientation).Some?) ==>
      && outcome == Pass
      && GetNP(d') == nRef
      && GetNSphs(d') == NumBonds(nl)
    ensures Validates(nl, nRef, np) && nRef == 0 ==>
      GetSph(d') == Reallocated(d, NumBonds(nl), SphWidth(d.lmax, d.negativeM, sphCount))
    ensures Validates(nl, nRef, np) && DecodeOrientation(orientation).Some? ==>
      var w := SphWidth(d.lmax, d.negativeM, sphCount);
      var buf := Reallocated(d, NumBonds(nl), w);
      && |GetSph(d')| == |buf|
      && forall p :: 0 <= p < |buf| ==>
           GetSph(d')[p] == OutputCell(buf, nl, nNeigh, w, DecodeOrientation(orientation).value, nRef, p)
  {
    if !Validates(nl, nRef, np) {
      return d, Fail(InvalidNeighborList);
    }
    var w := SphWidth(d.lmax, d.negativeM, sphCount);
    var n := NumBonds(nl);
    var buf := Reallocated(d, n, w);
    ghost var buf0 := buf;
    if n <= d.nSphs {
      MulMono(n, d.nSphs, w);
    } else {
      MulMono(d.nSphs, n, w);
    }
    assert |buf| >= n * w;

    var i: nat := 0;
    while i < nRef
      invariant i <= nRef
      invariant |buf| == |buf0|
      invariant DecodeOrientation(orientation).None? ==> i == 0 && buf == buf0
      invariant DecodeOrientation(orientation).Some? ==>
        Matches(buf, buf0, nl, nNeigh, w, DecodeOrientation(orientation).value, i, 0)
    {
      if DecodeOrientation(orientation).None? {
        return d.(sph := buf), Fail(UncaughtOrientationMode);
      }
      buf := WritePoint(buf, buf0, nl, nNeigh, w, DecodeOrientation(orientation).value, i);
      i := i + 1;
    }
    d' := d.(nRef := nRef, nSphs := n, sph := buf);
    outcome := Pass;
  }

  /** `buf` holds exactly what `CellAfter` prescribes at that stage. */
  predicate Matches(buf: seq<Cell>, buf0: seq<Cell>, nl: NeighborList, nNeigh: nat, w: nat,
                    o: Orientation, i: nat, bound: nat)
  {
    |buf| == |buf0| && forall p :: 0 <= p < |buf| ==> buf[p] == CellAfter(buf0, nl, nNeigh, w, o, i, bound, p)
  }

  /** One iteration of the loop over reference points: the output loop of point `i`. */
  method WritePoint(buf: seq<Cell>, ghost buf0: seq<Cell>, nl: NeighborList, nNeigh: nat, w: nat,
                    o: Orientation, i: nat)
    returns (buf': seq<Cell>)
    requires |buf| >= NumBonds(nl) * w
    requires Matches(buf, buf0, nl, nNeigh, w, o, i, 0)
    ensures |buf'| == |buf|
    ensures Matches(buf', buf0, nl, nNeigh, w, o, i + 1, 0)
  {
    var n := NumBonds(nl);
    var frame := FrameFor(nl, nNeigh, i, o);
    var s := FindFirstIndex(nl, i);
    var bond := s;
    var count: nat := 0;
    ghost var run := Run(nl, i, nNeigh);
    StartOfPoint(buf0, nl, nNeigh, w, o, i);
    buf' := buf;
    while bond < n && Ref(nl, bond) == i && count < nNeigh
      invariant count <= nNeigh
      invariant bond == s + count
      invariant count <= |run|
      invariant WalkFrom(nl, i, nNeigh, bond, count) == run[count..]
      invariant |buf'| == |buf|
      invariant Matches(buf', buf0, nl, nNeigh, w, o, i, bond)
      decreases nNeigh - count
    {
      assert run[count] == bond;
      BlockInBoundsAt(n, bond, w);
      var next := WriteBlock(buf', bond, w, i, frame);
      forall p | 0 <= p < |next|
        ensures next[p] == CellAfter(buf0, nl, nNeigh, w, o, i, bond + 1, p)
      {
        WriteStep(buf0, nl, nNeigh, w, o, i, bond, p);
      }
      buf' := next;
      bond := bond + 1;
      count := count + 1;
    }
    EndOfPoint(buf0, nl, nNeigh, w, o, i, bond);
  }

  lemma BlockInBoundsAt(n: nat, b: nat, w: nat)
    requires b < n
    ensures b * w + w <= n * w
  {
    MulMono(b + 1, n, w);
  }

  /** Nothing of point `i` is done before its walk starts. */
  lemma StartOfPoint(buf: seq<Cell>, nl: NeighborList, nNeigh: nat, w: nat, o: Orientation, i: nat)
    ensures forall p :: 0 <= p < |buf| ==>
      CellAfter(buf, nl, nNeigh, w, o, i, 0, p) == CellAfter(buf, nl, nNeigh, w, o, i, FindFirstIndex(nl, i), p)
  {
  }

  /** Writing the block of the walk's current bond advances the done-bound by one. */
  lemma WriteStep(buf: seq<Cell>, nl: NeighborList, nNeigh: nat, w: nat, o: Orientation,
                  i: nat, bond: nat, p: nat)
    requires p < |buf|
    requires bond < NumBonds(nl) && Ref(nl, bond) == i
    requires FindFirstIndex(nl, i) <= bond < FindFirstIndex(nl, i) + |Run(nl, i, nNeigh)|
    ensures CellAfter(buf, nl, nNeigh, w, o, i, bond + 1, p) ==
      if InBlock(p, bond, w) then Harmonic(i, bond, p - bond * w, FrameFor(nl, nNeigh, i, o))
      else CellAfter(buf, nl, nNeigh, w, o, i, bond, p)
  {
    if w > 0 {
      BlockIndex(p, bond, w);
    }
  }

  /** Once the walk of point `i` has stopped, point `i` is done. */
  lemma EndOfPoint(buf: seq<Cell>, nl: NeighborList, nNeigh: nat, w: nat, o: Orientation, i: nat, bond: nat)
    requires bond == FindFirstIndex(nl, i) + |Run(nl, i, nNeigh)|
    ensures forall p :: 0 <= p < |buf| ==>
      CellAfter(buf, nl, nNeigh, w, o, i, bond, p) == CellAfter(buf, nl, nNeigh, w, o, i + 1, 0, p)
  {
  }
}

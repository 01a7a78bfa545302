/** The neighbour list as `LocalDescriptors::compute` reads it: a flat bond array
    `[ref0, tgt0, ref1, tgt1, ...]`, the `find_first_index` lookup, and the two bond
    walks of the per-point loop. */
module NeighborList {
  import opened Common

  /** The flat bond array; bond `b` is the pair `(flat[2b], flat[2b+1])`. */
  datatype NeighborList = NeighborList(flat: seq<nat>)

  function NumBonds(nl: NeighborList): nat {
    |nl.flat| / 2
  }

  /** Reference index of bond `b`: `neighbor_list[2 * bond]`. */
  function Ref(nl: NeighborList, b: nat): nat
    requires b < NumBonds(nl)
  {
    nl.flat[2 * b]
  }

  /** Target index of bond `b`: `neighbor_list[2 * bond + 1]`. */
  function Target(nl: NeighborList, b: nat): nat
    requires b < NumBonds(nl)
  {
    nl.flat[2 * b + 1]
  }

  /** What `validate(Nref, Np)` guarantees once it has returned: every bond indexes
      a reference point below `nRef` and a target point below `np`. */
  predicate Validates(nl: NeighborList, nRef: nat, np: nat) {
    forall b :: 0 <= b < NumBonds(nl) ==> Ref(nl, b) < nRef && Target(nl, b) < np
  }

  /** Bonds ordered by reference index, as the neighbour-list constructors produce them. */
  predicate Sorted(nl: NeighborList) {
    forall a, b :: 0 <= a <= b < NumBonds(nl) ==> Ref(nl, a) <= Ref(nl, b)
  }

  /** The contract of `find_first_index(r)`: `f` is the first bond whose reference
      index is at least `r`, or the bond count when there is none. */
  predicate IsFirstIndex(nl: NeighborList, r: nat, f: nat) {
    && f <= NumBonds(nl)
    && (forall c :: 0 <= c < f ==> Ref(nl, c) < r)
    && (f < NumBonds(nl) ==> Ref(nl, f) >= r)
  }

  /** The first bond at or after `b` whose reference index is at least `r`. */
  function FirstFrom(nl: NeighborList, r: nat, b: nat): (f: nat)
    requires b <= NumBonds(nl)
    requires forall c :: 0 <= c < b ==> Ref(nl, c) < r
    ensures IsFirstIndex(nl, r, f)
    ensures b <= f
    decreases NumBonds(nl) - b
  {
    if b == NumBonds(nl) || Ref(nl, b) >= r then b else FirstFrom(nl, r, b + 1)
  }

  /** `NeighborList::find_first_index(r)`. */
  function FindFirstIndex(nl: NeighborList, r: nat): (f: nat)
    ensures IsFirstIndex(nl, r, f)
  {
    FirstFrom(nl, r, 0)
  }

  /** The contract of `find_first_index` admits one answer only, so any implementation
      that meets it (a binary search on a sorted list, say) agrees with `FindFirstIndex`. */
  lemma FirstIndexUnique(nl: NeighborList, r: nat, f: nat)
    requires IsFirstIndex(nl, r, f)
    ensures f == FindFirstIndex(nl, r)
  {
    var g := FindFirstIndex(nl, r);
    if f < g {
      assert false;
    } else if g < f {
      assert false;
    }
  }

  /** On a sorted list every bond from `FindFirstIndex(r)` on has reference index at least
      `r`: the index splits the list in two, which is what makes a binary search valid. */
  lemma FirstIndexSplitsSorted(nl: NeighborList, r: nat, b: nat)
    requires Sorted(nl)
    requires FindFirstIndex(nl, r) <= b < NumBonds(nl)
    ensures Ref(nl, b) >= r
  {
    assert Ref(nl, FindFirstIndex(nl, r)) <= Ref(nl, b);
  }

  /** Number of bonds at or after `b` whose reference index is `r`. */
  function CountFrom(nl: NeighborList, r: nat, b: nat): nat
    requires b <= NumBonds(nl)
    decreases NumBonds(nl) - b
  {
    if b == NumBonds(nl) then 0
    else (if Ref(nl, b) == r then 1 else 0) + CountFrom(nl, r, b + 1)
  }

  /** Number of bonds whose reference index is `r`. */
  function CountRef(nl: NeighborList, r: nat): nat {
    CountFrom(nl, r, 0)
  }

  /** The bond indices visited by the output loop of `compute`
      (`for (count = 0; bond < N && neighbor_list[2*bond] == i && count < nNeigh; ++bond, ++count)`),
      entered with `bond == b` and `count == count`. */
  function WalkFrom(nl: NeighborList, i: nat, nNeigh: nat, b: nat, count: nat): (run: seq<nat>)
    requires count <= nNeigh
    ensures |run| <= nNeigh - count
    ensures forall k :: 0 <= k < |run| ==> run[k] == b + k
    ensures forall k :: 0 <= k < |run| ==> run[k] < NumBonds(nl) && Ref(nl, run[k]) == i
    ensures var e := b + |run|;
      e >= NumBonds(nl) || Ref(nl, e) != i || count + |run| == nNeigh
    decreases nNeigh - count
  {
    if b < NumBonds(nl) && Ref(nl, b) == i && count < nNeigh then
      [b] + WalkFrom(nl, i, nNeigh, b + 1, count + 1)
    else
      []
  }

  /** The bonds `compute` processes for reference point `i`: the walk from
      `find_first_index(i)`. */
  function Run(nl: NeighborList, i: nat, nNeigh: nat): (run: seq<nat>)
    ensures |run| <= nNeigh
    ensures forall k :: 0 <= k < |run| ==> run[k] == FindFirstIndex(nl, i) + k
    ensures forall k :: 0 <= k < |run| ==> run[k] < NumBonds(nl) && Ref(nl, run[k]) == i
    ensures var e := FindFirstIndex(nl, i) + |run|;
      e >= NumBonds(nl) || Ref(nl, e) != i || |run| == nNeigh
  {
    WalkFrom(nl, i, nNeigh, FindFirstIndex(nl, i), 0)
  }

  /** Bond `b` is one that the walk of its own reference point reaches. */
  predicate InRun(nl: NeighborList, nNeigh: nat, b: nat)
    requires b < NumBonds(nl)
  {
    var s := FindFirstIndex(nl, Ref(nl, b));
    s <= b < s + |Run(nl, Ref(nl, b), nNeigh)|
  }

  lemma InRunIsMember(nl: NeighborList, nNeigh: nat, b: nat)
    requires b < NumBonds(nl)
    ensures InRun(nl, nNeigh, b) <==> b in Run(nl, Ref(nl, b), nNeigh)
  {
    var run := Run(nl, Ref(nl, b), nNeigh);
    var s := FindFirstIndex(nl, Ref(nl, b));
    if InRun(nl, nNeigh, b) {
      assert run[b - s] == b;
    }
  }

  /** The loop that sums the inertia tensor in `LocalNeighborhood` mode
      (`for (bond_copy = bond; bond_copy < N && neighbor_list[2*bond_copy] == i
      && bond_copy < bond + nNeigh; ++bond_copy)`), at `bond_copy == b`. */
  function InertiaWalk(nl: NeighborList, i: nat, nNeigh: nat, start: nat, b: nat): seq<nat>
    requires start <= b <= start + nNeigh
    decreases start + nNeigh - b
  {
    if b < NumBonds(nl) && Ref(nl, b) == i && b < start + nNeigh then
      [b] + InertiaWalk(nl, i, nNeigh, start, b + 1)
    else
      []
  }

  lemma {:induction false} InertiaWalkFromMatches(nl: NeighborList, i: nat, nNeigh: nat, start: nat, count: nat)
    requires count <= nNeigh
    ensures InertiaWalk(nl, i, nNeigh, start, start + count) == WalkFrom(nl, i, nNeigh, start + count, count)
    decreases nNeigh - count
  {
    if start + count < NumBonds(nl) && Ref(nl, start + count) == i && count < nNeigh {
      InertiaWalkFromMatches(nl, i, nNeigh, start, count + 1);
    }
  }

  /** In `LocalNeighborhood` mode the inertia-tensor loop visits exactly the bonds the
      output loop then writes. */
  lemma InertiaWalkMatchesRun(nl: NeighborList, i: nat, nNeigh: nat)
    ensures var s := FindFirstIndex(nl, i);
      InertiaWalk(nl, i, nNeigh, s, s) == Run(nl, i, nNeigh)
  {
    InertiaWalkFromMatches(nl, i, nNeigh, FindFirstIndex(nl, i), 0);
  }

  /** Runs of distinct reference points share no bond. */
  lemma RunsDisjoint(nl: NeighborList, nNeigh: nat, i: nat, j: nat, b: nat)
    requires i != j
    requires b in Run(nl, i, nNeigh)
    ensures b !in Run(nl, j, nNeigh)
  {
  }

  lemma {:induction false} CountCoversSpan(nl: NeighborList, r: nat, x: nat, len: nat)
    requires x + len <= NumBonds(nl)
    requires forall c :: x <= c < x + len ==> Ref(nl, c) == r
    ensures CountFrom(nl, r, x) >= len
    decreases len
  {
    if len > 0 {
      CountCoversSpan(nl, r, x + 1, len - 1);
    }
  }

  /** On any list, a point's run holds at most `nNeigh` bonds and at most as many as carry
      its reference index. */
  lemma RunLengthBound(nl: NeighborList, i: nat, nNeigh: nat)
    ensures |Run(nl, i, nNeigh)| <= Min(nNeigh, CountRef(nl, i))
  {
    var s := FindFirstIndex(nl, i);
    var run := Run(nl, i, nNeigh);
    forall c | s <= c < s + |run| ensures c < NumBonds(nl) && Ref(nl, c) == i {
      assert run[c - s] == c;
    }
    if |run| > 0 {
      assert run[|run| - 1] == s + |run| - 1;
    }
    CountCoversSpan(nl, i, s, |run|);
    CountSkipsPrefix(nl, i, s);
  }

  lemma {:induction false} CountSkipsPrefix(nl: NeighborList, r: nat, x: nat)
    requires x <= NumBonds(nl)
    requires forall c :: 0 <= c < x ==> Ref(nl, c) != r
    ensures CountFrom(nl, r, 0) == CountFrom(nl, r, x)
    decreases x
  {
    if x > 0 {
      CountSkipsPrefix(nl, r, x - 1);
    }
  }

  /** On a sorted list the bonds of reference `r` are exactly those in
      `[FindFirstIndex(r), FindFirstIndex(r + 1))`. */
  lemma SortedBlock(nl: NeighborList, r: nat, b: nat)
    requires Sorted(nl)
    requires b < NumBonds(nl)
    ensures Ref(nl, b) == r <==> FindFirstIndex(nl, r) <= b < FindFirstIndex(nl, r + 1)
  {
    var s := FindFirstIndex(nl, r);
    var e := FindFirstIndex(nl, r + 1);
    if s <= b {
      FirstIndexSplitsSorted(nl, r, b);
    }
    if e <= b {
      FirstIndexSplitsSorted(nl, r + 1, b);
    }
  }

  lemma FirstIndicesOrdered(nl: NeighborList, r: nat)
    requires Sorted(nl)
    ensures FindFirstIndex(nl, r) <= FindFirstIndex(nl, r + 1)
  {
    var s := FindFirstIndex(nl, r);
    var e := FindFirstIndex(nl, r + 1);
    if e < s {
      assert false;
    }
  }

  lemma {:induction false} CountFromSorted(nl: NeighborList, r: nat, b: nat)
    requires Sorted(nl)
    requires b <= NumBonds(nl)
    ensures var s, e := FindFirstIndex(nl, r), FindFirstIndex(nl, r + 1);
      CountFrom(nl, r, b) == (if b <= s then e - s else if b <= e then e - b else 0)
    decreases NumBonds(nl) - b
  {
    FirstIndicesOrdered(nl, r);
    if b < NumBonds(nl) {
      CountFromSorted(nl, r, b + 1);
      SortedBlock(nl, r, b);
    }
  }

  lemma {:induction false} WalkLengthSorted(nl: NeighborList, i: nat, nNeigh: nat, b: nat, count: nat)
    requires Sorted(nl)
    requires count <= nNeigh
    requires FindFirstIndex(nl, i) <= b <= FindFirstIndex(nl, i + 1)
    ensures |WalkFrom(nl, i, nNeigh, b, count)| == Min(nNeigh - count, FindFirstIndex(nl, i + 1) - b)
    decreases nNeigh - count
  {
    var e := FindFirstIndex(nl, i + 1);
    if b < e {
      SortedBlock(nl, i, b);
      if count < nNeigh {
        WalkLengthSorted(nl, i, nNeigh, b + 1, count + 1);
      }
    } else if b < NumBonds(nl) {
      SortedBlock(nl, i, b);
    }
  }

  /** On a sorted list `compute` processes exactly `min(nNeigh, CountRef(i))` bonds of
      point `i`. */
  lemma RunLengthSorted(nl: NeighborList, i: nat, nNeigh: nat)
    requires Sorted(nl)
    ensures |Run(nl, i, nNeigh)| == Min(nNeigh, CountRef(nl, i))
  {
    FirstIndicesOrdered(nl, i);
    CountFromSorted(nl, i, 0);
    WalkLengthSorted(nl, i, nNeigh, FindFirstIndex(nl, i), 0);
  }
}

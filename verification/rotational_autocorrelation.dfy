/** `freud::order::RotationalAutocorrelation`: the factorial cache built by the
    `RotationalAutocorrelation(l)` constructor, and the getters. */
module RotationalAutocorrelation {
  import opened Common

  function Factorial(n: nat): nat {
    if n == 0 then 1 else n * Factorial(n - 1)
  }

  /** The state of a `RotationalAutocorrelation` object. `ft` is `m_Ft`; the per-particle
      array `m_RA_array` is only touched by `compute`, which is not modelled. */
  datatype RotationalAutocorrelation =
    RotationalAutocorrelation(l: u32, n: u32, ft: real, factorials: seq<u32>)

  function GetL(ra: RotationalAutocorrelation): u32 { ra.l }
  function GetN(ra: RotationalAutocorrelation): u32 { ra.n }
  function GetRotationalAutocorrelation(ra: RotationalAutocorrelation): real { ra.ft }

  /** Reducing a factor modulo 2^32 before multiplying does not change the product modulo 2^32. */
  lemma ModMulRight(a: nat, b: nat)
    ensures (a * (b % TwoTo32)) % TwoTo32 == (a * b) % TwoTo32
  {
    var q, r := b / TwoTo32, b % TwoTo32;
    assert b == q * TwoTo32 + r;
    var y, x := a * q, a * r;
    assert a * b == y * TwoTo32 + x;
    assert (y * TwoTo32 + x) % TwoTo32 == x % TwoTo32;
  }

  /** The 32-bit recurrence `t[i] = i * t[i-1]` keeps computing `i!` modulo 2^32. */
  lemma FactorialStep(i: nat, prev: nat)
    requires 1 <= i
    requires prev == Factorial(i - 1) % TwoTo32
    ensures (i * prev) % TwoTo32 == Factorial(i) % TwoTo32
  {
    ModMulRight(i, Factorial(i - 1));
  }

  /** The table the constructor fills: `l + 1` entries, zeroed by `memset`, then
      `t[0] = 1` and `t[i] = i * t[i-1]` in `unsigned int` arithmetic. */
  method FactorialTable(l: u32) returns (t: seq<u32>)
    ensures |t| == l + 1
    ensures t[0] == 1
    ensures forall i :: 1 <= i <= l ==> t[i] == (i * t[i - 1]) % TwoTo32
    ensures forall i :: 0 <= i <= l ==> t[i] == Factorial(i) % TwoTo32
  {
    t := seq(l + 1, _ => 0);
    t := t[0 := 1];
    var i: nat := 1;
    while i <= l
      invariant 1 <= i <= l + 1
      invariant |t| == l + 1
      invariant t[0] == 1
      invariant forall k :: 1 <= k < i ==> t[k] == (k * t[k - 1]) % TwoTo32
      invariant forall k :: 0 <= k < i ==> t[k] == Factorial(k) % TwoTo32
    {
      FactorialStep(i, t[i - 1]);
      t := t[i := (i * t[i - 1]) % TwoTo32];
      i := i + 1;
    }
  }

  /** `RotationalAutocorrelation(l)`. */
  method New(l: u32) returns (ra: RotationalAutocorrelation)
    ensures GetL(ra) == l && GetN(ra) == 0 && GetRotationalAutocorrelation(ra) == 0.0
    ensures |ra.factorials| == l + 1
    ensures forall i :: 0 <= i <= l ==> ra.factorials[i] == Factorial(i) % TwoTo32
    ensures l <= 12 ==> forall i :: 0 <= i <= l ==> ra.factorials[i] == Factorial(i)
  {
    var t := FactorialTable(l);
    if l <= 12 {
      forall i | 0 <= i <= l
        ensures t[i] == Factorial(i)
      {
        EntryExactIff(i);
      }
    }
    ra := RotationalAutocorrelation(l, 0, 0.0, t);
  }

  lemma {:induction false} FactorialMonotone(i: nat, j: nat)
    requires i <= j
    ensures Factorial(i) <= Factorial(j)
    decreases j - i
  {
    if i < j {
      FactorialMonotone(i, j - 1);
    }
  }

  /** A cached entry equals the exact `i!` exactly when `i <= 12`: `12! < 2^32 <= 13!`. */
  lemma EntryExactIff(i: nat)
    ensures Factorial(i) % TwoTo32 == Factorial(i) <==> i <= 12
  {
    assert Factorial(12) == 479001600;
    assert Factorial(13) == 6227020800;
    if i <= 12 {
      FactorialMonotone(i, 12);
    } else {
      FactorialMonotone(13, i);
    }
  }

  /** The first entry that wraps: `13! mod 2^32`. */
  lemma ThirteenFactorialWraps()
    ensures Factorial(13) % TwoTo32 == 1932053504
  {
    assert Factorial(13) == 6227020800;
  }

  /** The entry count the source allocates, `m_l + 1` evaluated in `unsigned int`. */
  function AllocatedEntries(l: u32): u32 {
    (l + 1) % TwoTo32
  }

  /** At `l == UINT_MAX` the allocation holds no entry at all, yet the constructor stores
      into entry 0 (and its loop guard `i <= m_l` can never become false). */
  lemma MaxOrderAllocatesNothing()
    ensures AllocatedEntries(MaxU32) == 0
  {
  }
}

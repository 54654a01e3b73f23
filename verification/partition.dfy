/** The 1-D domain decomposition: how `larr` mesh points are split into one
    contiguous section per rank, the larger sections going to the lowest ranks.
 */
module Partition {

  /** One rank's share of the global array: its length `myl` and the global
      indices of its first and last point, `mygstart` and `mygend`.  An empty
      section has `gend == gstart - 1`. */
  datatype Section = Section(myl: nat, gstart: nat, gend: int)

  /** `rem`: how many ranks receive one extra point. */
  function Rem(larr: nat, size: nat): nat
    requires size >= 1
  {
    larr % size
  }

  /** `nbase`: the length every rank receives at least. */
  function NBase(larr: nat, size: nat): nat
    requires size >= 1
  {
    larr / size
  }

  function Min(a: int, b: int): int
  {
    if a <= b then a else b
  }

  /** The partition arithmetic of one rank: the ranks below `rem` get
      `nbase+1` points, the others `nbase`, and each section starts where the
      sections of all lower ranks end (the closed form of that prefix sum is
      `rank*nbase + min(rank, rem)`). */
  function Split(larr: nat, size: nat, rank: nat): (s: Section)
    requires 1 <= size && rank < size
    ensures rank < Rem(larr, size) ==> s.myl == NBase(larr, size) + 1
    ensures rank >= Rem(larr, size) ==> s.myl == NBase(larr, size)
    ensures s.gstart == rank * NBase(larr, size) + Min(rank, Rem(larr, size))
    ensures s.gend == s.gstart + s.myl - 1
  {
    var rem := larr % size;
    var nbase := larr / size;
    if rank < rem then
      var myl := nbase + 1;
      var gstart := rank * myl;
      Section(myl, gstart, gstart + myl - 1)
    else
      var myl := nbase;
      var gstart := rank * myl + rem;
      Section(myl, gstart, gstart + myl - 1)
  }

  /** Sum of the section lengths of ranks `0 .. n-1`: what an allreduce SUM
      over those ranks yields. */
  function SumLengths(larr: nat, size: nat, n: nat): nat
    requires 1 <= size && n <= size
  {
    if n == 0 then 0 else SumLengths(larr, size, n - 1) + Split(larr, size, n - 1).myl
  }

  lemma MulStep(a: nat, b: nat)
    ensures (a + 1) * b == a * b + b
  {
  }

  lemma MulMono(a: nat, b: nat, c: nat)
    requires a <= b
    ensures a * c <= b * c
  {
  }

  lemma DivMod(larr: nat, size: nat)
    requires size >= 1
    ensures larr == size * NBase(larr, size) + Rem(larr, size)
    ensures Rem(larr, size) < size
  {
  }

  /** Every section starts at the sum of the lengths of all lower ranks. */
  lemma {:induction false} StartIsPrefixSum(larr: nat, size: nat, n: nat)
    requires 1 <= size && n <= size
    ensures SumLengths(larr, size, n) == n * NBase(larr, size) + Min(n, Rem(larr, size))
    ensures n < size ==> Split(larr, size, n).gstart == SumLengths(larr, size, n)
  {
    if n > 0 {
      StartIsPrefixSum(larr, size, n - 1);
      MulStep(n - 1, NBase(larr, size));
    }
  }

  /** The allreduce of `myl` over all ranks (`total_len`) is `larr`. */
  lemma TotalIsLarr(larr: nat, size: nat)
    requires size >= 1
    ensures SumLengths(larr, size, size) == larr
  {
    StartIsPrefixSum(larr, size, size);
    DivMod(larr, size);
  }

  /** `comm.allreduce(myl, op=MPI.SUM)`, as a fold over the ranks. */
  method AllReduceSum(larr: nat, size: nat) returns (total: nat)
    requires size >= 1
    ensures total == larr
  {
    total := 0;
    var r := 0;
    while r < size
      invariant r <= size
      invariant total == r * NBase(larr, size) + Min(r, Rem(larr, size))
    {
      MulStep(r, NBase(larr, size));
      total := total + Split(larr, size, r).myl;
      r := r + 1;
    }
    DivMod(larr, size);
  }

  /** Consecutive sections are contiguous: each starts right after the
      previous one ends; rank 0 starts at 0 and the last rank ends at `larr-1`. */
  lemma Contiguous(larr: nat, size: nat, rank: nat)
    requires 1 <= size && rank < size
    ensures rank == 0 ==> Split(larr, size, rank).gstart == 0
    ensures rank + 1 < size ==> Split(larr, size, rank + 1).gstart == Split(larr, size, rank).gend + 1
    ensures rank == size - 1 ==> Split(larr, size, rank).gend == larr - 1
  {
    MulStep(rank, NBase(larr, size));
    DivMod(larr, size);
  }

  /** The split is near-equal: two sections differ by at most one point, and a
      lower rank never has a shorter section than a higher one. */
  lemma NearEqual(larr: nat, size: nat, r1: nat, r2: nat)
    requires 1 <= size && r1 < size && r2 < size
    ensures Split(larr, size, r1).myl - Split(larr, size, r2).myl <= 1
    ensures r1 <= r2 ==> Split(larr, size, r1).myl >= Split(larr, size, r2).myl
  {
  }

  /** Sections of distinct ranks do not overlap: a lower rank's section ends
      before a higher rank's section starts. */
  lemma Disjoint(larr: nat, size: nat, r1: nat, r2: nat)
    requires 1 <= size && r1 < r2 < size
    ensures Split(larr, size, r1).gend < Split(larr, size, r2).gstart
  {
    MulStep(r1, NBase(larr, size));
    MulMono(r1 + 1, r2, NBase(larr, size));
  }

  lemma DivBounds(g: nat, d: nat)
    requires d >= 1
    ensures (g / d) * d <= g < (g / d) * d + d
  {
  }

  lemma Distrib(a: nat, b: nat, c: nat)
    ensures (a + b) * c == a * c + b * c
  {
  }

  /** The rank whose section holds global index `g`: the first `rem`
      sections have `nbase+1` points each, the rest `nbase`. */
  function Owner(larr: nat, size: nat, g: nat): (r: nat)
    requires 1 <= size && g < larr
    ensures r < size
    ensures Split(larr, size, r).gstart <= g <= Split(larr, size, r).gend
  {
    var nbase := NBase(larr, size);
    var rem := Rem(larr, size);
    if g < rem * (nbase + 1) then
      OwnerLow(larr, size, g);
      g / (nbase + 1)
    else
      OwnerHigh(larr, size, g);
      rem + (g - rem * (nbase + 1)) / nbase
  }

  lemma OwnerLow(larr: nat, size: nat, g: nat)
    requires 1 <= size && g < larr
    requires g < Rem(larr, size) * (NBase(larr, size) + 1)
    ensures g / (NBase(larr, size) + 1) < Rem(larr, size) < size
    ensures Split(larr, size, g / (NBase(larr, size) + 1)).gstart <= g <= Split(larr, size, g / (NBase(larr, size) + 1)).gend
  {
    var n := NBase(larr, size);
    var rem := Rem(larr, size);
    var r := g / (n + 1);
    DivMod(larr, size);
    DivBounds(g, n + 1);
    assert r < rem by {
      if r >= rem { MulMono(rem, r, n + 1); }
    }
    Distrib(r, 0, n);
    assert r * (n + 1) == r * n + r;
    assert Split(larr, size, r).gstart == r * (n + 1);
  }

  lemma OwnerHigh(larr: nat, size: nat, g: nat)
    requires 1 <= size && g < larr
    requires g >= Rem(larr, size) * (NBase(larr, size) + 1)
    ensures NBase(larr, size) >= 1
    ensures Rem(larr, size) + (g - Rem(larr, size) * (NBase(larr, size) + 1)) / NBase(larr, size) < size
    ensures var r := Rem(larr, size) + (g - Rem(larr, size) * (NBase(larr, size) + 1)) / NBase(larr, size);
      Split(larr, size, r).gstart <= g <= Split(larr, size, r).gend
  {
    var n := NBase(larr, size);
    var rem := Rem(larr, size);
    DivMod(larr, size);
    var base := rem * (n + 1);
    assert base == rem * n + rem;
    assert n >= 1 by {
      if n == 0 { assert false; }
    }
    var off: nat := g - base;
    var q := off / n;
    DivBounds(off, n);
    var r := rem + q;
    assert larr == rem * n + rem + (size - rem) * n by {
      Distrib(rem, size - rem, n);
    }
    assert off < (size - rem) * n;
    assert r < size by {
      if r >= size { MulMono(size - rem, q, n); }
    }
    Distrib(rem, q, n);
    assert Split(larr, size, r).gstart == base + q * n;
  }

  /** Every global index belongs to exactly one rank's section: the sections
      cover `[0, larr)` without overlap. */
  lemma OwnerUnique(larr: nat, size: nat, g: nat, r: nat)
    requires 1 <= size && g < larr && r < size
    ensures Split(larr, size, r).gstart <= g <= Split(larr, size, r).gend <==> r == Owner(larr, size, g)
  {
    var o := Owner(larr, size, g);
    if r < o { Disjoint(larr, size, r, o); }
    if o < r { Disjoint(larr, size, o, r); }
  }
}

/** The concrete settings of the tutorial steps, and the partition and the
    exchange put together: the rank-filled buffers of a decomposed array,
    exchanged around the ring.
 */
module Tutorial {
  import Partition
  import opened Ring
  import opened Layout
  import opened Exchange

  /** `myl` of every rank, in rank order: `nbase + 1` on the first `rem`
      ranks and `nbase` on the rest. */
  function Lengths(larr: nat, size: nat): (lens: seq<nat>)
    requires size >= 1
    ensures |lens| == size
    ensures forall r :: 0 <= r < size ==> lens[r] == Partition.Split(larr, size, r).myl
    ensures forall r :: 0 <= r < size ==>
      lens[r] == if r < Partition.Rem(larr, size) then Partition.NBase(larr, size) + 1 else Partition.NBase(larr, size)
  {
    seq(size, r requires 0 <= r < size => Partition.Split(larr, size, r).myl)
  }

  /** The sum of a list of lengths, as `comm.allreduce(myl, op=MPI.SUM)`
      computes it over the ranks. */
  function Sum(lens: seq<nat>): nat
  {
    if |lens| == 0 then 0 else Sum(lens[..|lens| - 1]) + lens[|lens| - 1]
  }

  /** The lengths of all ranks add up to `larr`: `total_len == larr`. */
  lemma LengthsSumToLarr(larr: nat, size: nat)
    requires size >= 1
    ensures Sum(Lengths(larr, size)) == larr
  {
    var lens := Lengths(larr, size);
    PrefixSum(larr, size, size);
    assert lens[..size] == lens;
    Partition.TotalIsLarr(larr, size);
  }

  lemma {:induction false} PrefixSum(larr: nat, size: nat, n: nat)
    requires 1 <= size && n <= size
    ensures Sum(Lengths(larr, size)[..n]) == Partition.SumLengths(larr, size, n)
  {
    if n > 0 {
      var lens := Lengths(larr, size);
      assert lens[..n][..n - 1] == lens[..n - 1];
      PrefixSum(larr, size, n - 1);
    }
  }

  /** The guard `if nh > myl` stays silent on rank `rank`. */
  predicate GuardSilent(larr: nat, size: nat, nh: nat, rank: nat)
    requires 1 <= size && rank < size
  {
    !(nh > Partition.Split(larr, size, rank).myl)
  }

  /** The guard is silent on every rank exactly when `nh <= nbase`: the
      smallest section has `nbase` points. */
  lemma GuardSilentEverywhere(larr: nat, size: nat, nh: nat)
    requires size >= 1
    ensures (forall r :: 0 <= r < size ==> GuardSilent(larr, size, nh, r))
      <==> nh <= Partition.NBase(larr, size)
  {
    var last := size - 1;
    assert last >= Partition.Rem(larr, size);
    assert Partition.Split(larr, size, last).myl == Partition.NBase(larr, size);
    if forall r :: 0 <= r < size ==> GuardSilent(larr, size, nh, r) {
      assert GuardSilent(larr, size, nh, last);
    }
    if nh <= Partition.NBase(larr, size) {
      forall r | 0 <= r < size
        ensures GuardSilent(larr, size, nh, r)
      {
        Partition.NearEqual(larr, size, r, last);
      }
    }
  }

  /** The guard admits a halo as wide as the section, although its message
      says the halo must be narrower. */
  lemma GuardAdmitsFullWidth(larr: nat, size: nat, rank: nat)
    requires 1 <= size && rank < size
    ensures GuardSilent(larr, size, Partition.Split(larr, size, rank).myl, rank)
  {
  }

  /** The world of the demonstration on the decomposed array:
      `mysec[i0sec_indices] = rank` on every rank. */
  function Demo(larr: nat, size: nat, nh: nat): (w: World<int>)
    requires size >= 1
    ensures |w| == size
  {
    RankFilled(Lengths(larr, size), nh)
  }

  /** When the guard is silent everywhere and the halo is at least one
      point wide, the demonstration exchange ends with every rank holding
      `nh` copies of its previous neighbour's id, its own id on its `myl`
      owned points, and `nh` copies of its next neighbour's id. */
  lemma DemoExchange(larr: nat, size: nat, nh: nat, r: nat)
    requires size >= 1 && 1 <= nh <= Partition.NBase(larr, size) && r < size
    ensures Conformant(Demo(larr, size, nh), nh)
    ensures Halo(Demo(larr, size, nh), nh)[r]
      == Repeat<int>(Prev(r, size), nh)
         + Repeat<int>(r, Partition.Split(larr, size, r).myl)
         + Repeat<int>(Next(r, size), nh)
  {
    var lens := Lengths(larr, size);
    forall q | 0 <= q < size
      ensures nh <= lens[q]
    {
      GuardSilentEverywhere(larr, size, nh);
      assert GuardSilent(larr, size, nh, q);
    }
    RankFilledExchange(lens, nh, r);
  }

  /** `k` points per rank on `size` ranks divide exactly. */
  lemma Exact(k: nat, size: nat)
    requires size >= 1
    ensures Partition.Rem(size * k, size) == 0 && Partition.NBase(size * k, size) == k
  {
    var q := Partition.NBase(size * k, size);
    var m := Partition.Rem(size * k, size);
    Partition.DivMod(size * k, size);
    if q < k {
      Partition.MulMono(q + 1, k, size);
      Partition.MulStep(q, size);
      assert false;
    } else if q > k {
      Partition.MulMono(k + 1, q, size);
      Partition.MulStep(k, size);
      assert false;
    }
  }

  /** Step three: `larr = 3*size` leaves no remainder, so every rank owns
      three points starting at `3*rank`, and with `nh = 1` its buffer has
      five cells. */
  lemma StepThree(size: nat, rank: nat)
    requires 1 <= size && rank < size
    ensures Partition.Rem(size * 3, size) == 0 && Partition.NBase(size * 3, size) == 3
    ensures Partition.Split(size * 3, size, rank) == Partition.Section(3, 3 * rank, 3 * rank + 2)
    ensures BufLen(3, 1) == 5
  {
    Exact(3, size);
  }

  /** Step four: with `larr = size*3` and `nh = 2` the guard is silent, and
      rank `r` ends up holding `[p, p, r, r, r, n, n]` with `p` and `n` its
      neighbours. */
  lemma StepFour(size: nat, r: nat)
    requires 1 <= size && r < size
    ensures forall q :: 0 <= q < size ==> GuardSilent(size * 3, size, 2, q)
    ensures Conformant(Demo(size * 3, size, 2), 2)
    ensures Halo(Demo(size * 3, size, 2), 2)[r]
      == [Prev(r, size), Prev(r, size), r, r, r, Next(r, size), Next(r, size)]
  {
    Exact(3, size);
    GuardSilentEverywhere(size * 3, size, 2);
    var h := Halo(Demo(size * 3, size, 2), 2)[r];
    assert h == Repeat<int>(Prev(r, size), 2) + Repeat<int>(r, 3) + Repeat<int>(Next(r, size), 2) by {
      DemoExchange(size * 3, size, 2, r);
      StepThree(size, r);
    }
    SevenCells(Prev(r, size), r, Next(r, size));
  }

  lemma SevenCells(p: int, r: int, n: int)
    ensures Repeat(p, 2) + Repeat(r, 3) + Repeat(n, 2) == [p, p, r, r, r, n, n]
  {
  }

  /** Step five: `larr = size*100` gives every rank 100 points, and the
      allreduce of the lengths gives back `larr`. */
  lemma StepFive(size: nat, rank: nat)
    requires 1 <= size && rank < size
    ensures Partition.Split(size * 100, size, rank).myl == 100
    ensures Partition.SumLengths(size * 100, size, size) == size * 100
  {
    Exact(100, size);
    Partition.TotalIsLarr(size * 100, size);
  }

  /** Ten points on three ranks: the one extra point goes to rank 0, giving
      sections `[0, 3]`, `[4, 6]` and `[7, 9]`. */
  lemma TenOnThree()
    ensures Partition.Split(10, 3, 0) == Partition.Section(4, 0, 3)
    ensures Partition.Split(10, 3, 1) == Partition.Section(3, 4, 6)
    ensures Partition.Split(10, 3, 2) == Partition.Section(3, 7, 9)
  {
  }
}

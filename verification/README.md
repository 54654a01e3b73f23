# Halo exchange on a ring of MPI ranks, modelled in Dafny

The tutorial programs `step2.py` … `step5.py` teach 1-D domain decomposition
with mpi4py. Each rank does the following:

- It computes its share `myl` of a global array of `larr` points, together
  with the global indices `mygstart` and `mygend` of that share.
- It allocates a local buffer of `myl + 2*nh` cells: `nh` low-halo cells,
  the owned section, then `nh` high-halo cells. The three regions are
  addressed through the index lists `i0loh_indices`, `i0sec_indices` and
  `i0hih_indices`.
- It finds its ring neighbours `i0rm1` and `i0rp1`, which wrap around at
  both ends.
- It exchanges halos. First it sends its first `nh` owned values to the
  previous rank and receives its high halo from the next rank. Then it sends
  its last `nh` owned values to the next rank and receives its low halo
  from the previous rank. The same four statements appear inline in step 4
  and step 5 and as the function `halo` in step 5.

The project has six modules:

- `Partition` (`partition.dfy`) models the partition arithmetic and the
  allreduce of the lengths.
- `Ring` (`ring.dfy`) models the neighbours and the hello exchange of
  step 2.
- `Layout` (`layout.dfy`) models the buffer layout. It also models the
  numpy operations the programs use: index-list reads (`Gather`),
  index-list writes (`Scatter`), and the Python slices `[0:nh]` and `[-nh:]`.
- `Exchange` (`exchange.dfy`) models the exchange over all ranks at once
  (`Halo`). Sends and receives are written on slices, and lemmas show that
  these agree with the numpy forms the source uses.
- `Fifo` (`fifo.dfy`) refines the exchange into the four statements each
  rank executes, over point-to-point channels, in any interleaving of the
  ranks. With the oldest message delivered first, as MPI's non-overtaking
  rule guarantees, every complete run ends in `Halo`, and, when sends are
  buffered, no run deadlocks.
  If the newest message were delivered first instead, two ranks can end up
  with their halos swapped.
- `Tutorial` (`tutorial.dfy`) holds the concrete settings of steps 3, 4
  and 5, and the rank-id demonstration of steps 4 and 5.

Two details of the code:

- Ten points on three ranks split as 4, 3, 3, because ranks below `rem`
  get one extra point (`Tutorial.TenOnThree`).
- The guard `if nh > myl` only prints a message. It admits `nh == myl`,
  although the message says `nh` must be less than `myl`. The exchange
  still works when `nh == myl`: it sends the whole section both ways. The
  model states this guard as written (`Tutorial.GuardAdmitsFullWidth`).
  The exchange lemmas require `nh <= myl` on every rank (`Conformant`),
  which is exactly what the guard lets through silently.

## Model

| member | source | states |
|---|---|---|
| `Partition.Split` | step5.py:45-54 | ranks below `rem = larr % size` own `nbase + 1` points and the others `nbase`; a section starts at the closed form `rank*nbase + min(rank, rem)` and ends at `mygstart + myl - 1` |
| `Partition.StartIsPrefixSum` | step5.py:47-54 | the first `n` lengths sum to `n*nbase + min(n, rem)`, and every section starts exactly where the sections of all lower ranks end |
| `Partition.TotalIsLarr` | step5.py:55 | the section lengths of all ranks add up to `larr` |
| `Partition.AllReduceSum` | step5.py:55 | the allreduce SUM of `myl` over the ranks returns `larr` (`total_len == larr`) |
| `Partition.Contiguous` | step5.py:47-54 | rank 0 starts at 0, each section starts one past the end of the previous one, and the last rank ends at `larr - 1` |
| `Partition.NearEqual` | step5.py:45-52 | two sections differ by at most one point, and a lower rank never owns fewer points than a higher one |
| `Partition.Disjoint` | step5.py:47-54 | a lower rank's section ends before a higher rank's section starts |
| `Partition.Owner` | step5.py:45-54 | every global index below `larr` lies in the section of some rank |
| `Partition.OwnerUnique` | step5.py:45-54 | a rank's section holds index `g` exactly when that rank is `Owner(g)`: the sections cover `[0, larr)` without overlap |
| `Ring.Prev` | step5.py:74-77 | the previous neighbour is a valid rank |
| `Ring.Next` | step5.py:75-79 | the next neighbour is a valid rank whose previous neighbour is the rank itself |
| `Ring.Modular` | step5.py:74-79 | the wrap-around rule is `(rank - 1) mod size` and `(rank + 1) mod size` |
| `Ring.Inverse` | step5.py:74-79 | previous and next neighbour undo each other |
| `Ring.WrapAround` | step5.py:76-79 | rank 0's previous neighbour is `size - 1`, and rank `size - 1`'s next neighbour is 0 |
| `Ring.SelfNeighbour` | step2.py:24-29 | on one rank, the rank is both of its own neighbours |
| `Ring.SharedNeighbour` | step5.py:74-79 | the two neighbours coincide exactly when `size <= 2` |
| `Ring.PairingIsBijection` | step2.py:24-31 | rank `s` sends to rank `r` exactly when `r` receives from `s`, so sends and receives pair up one to one |
| `Ring.HelloRound` | step2.py:30-31 | the received hello messages are the sent ones rotated left by one, each received exactly once (same multiset) |
| `Layout.Range` | step5.py:60-62 | `[*range(lo, hi)]` has `hi - lo` elements (none when `hi <= lo`), and the `k`-th is `lo + k` |
| `Layout.InRange` | step5.py:60-62 | an integer is in `range(lo, hi)` exactly when `lo <= i < hi` |
| `Layout.RangeAppend` | step5.py:60-62 | adjacent ranges concatenate to the range spanning both |
| `Layout.IndexListsPartition` | step5.py:59-62 | the three index lists have `nh`, `myl` and `nh` entries and, in order low, owned, high, list `0 .. myl + 2*nh - 1` |
| `Layout.IndexListsDisjoint` | step5.py:59-62 | no index is in two of the lists, and an index is in one of them exactly when it lies in the buffer |
| `Layout.Allocate` | step5.py:59 | `np.zeros(myl + nh*2)` has `myl + 2*nh` cells, all zero |
| `Layout.Repeat` | step5.py:73 | a scalar broadcast over `n` cells gives `n` copies of it |
| `Layout.GatherRange` | step5.py:81 | reading through a range index list stays in bounds and yields the corresponding slice |
| `Layout.ScatterWrites` | step5.py:73 | an index-list write leaves unlisted cells alone, and with distinct indices puts `vals[k]` at `idx[k]` |
| `Layout.ScatterRange` | step5.py:82 | writing through a range index list replaces exactly that slice |
| `Layout.PyHead` | step5.py:81 | `s[0:n]` has `min(n, len(s))` elements and is a prefix of `s` |
| `Layout.PyTail` | step5.py:84 | `s[-n:]` has `min(n, len(s))` elements for `n >= 1`, is a suffix of `s`, and is all of `s` for `n == 0` |
| `Layout.ZeroWidthTailIsEverything` | step5.py:84-85 | with `nh == 0`, the tail slice sends the whole section, while the low halo has no cells to receive it |
| `Layout.IndexListsAddressRegions` | step5.py:59-62 | the three index lists read exactly the low halo, the owned section and the high halo, which together make up the buffer |
| `Layout.RegionsOfConcat` | step5.py:59-62 | a buffer built from a low halo, a section and a high halo of `nh` cells each splits back into those parts |
| `Exchange.SendsAreNumpy` | step5.py:81-84 | `fld[isec][0:nh]` is the first `nh` owned values, and `fld[isec][-nh:]` is the last `nh` |
| `Exchange.RecvHighIsNumpy` | step5.py:82 | `fld[ihi] = m` replaces the high halo with `m` and nothing else |
| `Exchange.RecvLowIsNumpy` | step5.py:85 | `fld[ilo] = m` replaces the low halo with `m` and nothing else |
| `Exchange.Halo` | step5.py:92-96 | after the exchange, each rank holds the last `nh` owned values of its previous neighbour, then its own owned values, then the first `nh` owned values of its next neighbour; buffer lengths are unchanged |
| `Exchange.HaloAtRefreshes` | step5.py:81-85 | running the four statements in order on every rank yields exactly that buffer |
| `Exchange.TwoHalves` | step5.py:82-85 | the second send reads the sender's buffer after its own high-halo receive, and still delivers its owned values |
| `Exchange.ToNextAfterHigh` | step5.py:82-84 | the high-halo receive does not change what the rank later sends to its next neighbour |
| `Exchange.LowAfterHigh` | step5.py:82-85 | receiving both halos surrounds the untouched owned section with the two messages |
| `Exchange.HighOnlyKeepsOwned` | step5.py:82 | the high-halo receive keeps the buffer length, the owned section and the low halo |
| `Exchange.HaloFillsFromNeighbours` | step5.py:81-85 | after the exchange, the owned section is unchanged, the high halo holds `Next`'s first `nh` owned values, and the low halo holds `Prev`'s last `nh` owned values |
| `Exchange.HaloIdempotent` | step5.py:92-96 | a second exchange of an exchanged world changes nothing |
| `Exchange.SameOwnedSameRefresh` | step5.py:92-96 | what the exchange writes into a rank depends only on the owned sections of that rank and its neighbours |
| `Exchange.RankFilledShape` | step5.py:59-73 | after `mysec[i0sec_indices] = rank`, the buffer is `nh` zeros, `myl` copies of the rank id, then `nh` zeros |
| `Exchange.RankFilledExchange` | step4.py:73-85 | after the exchange of the rank-filled buffers, rank `r` holds `nh` copies of `Prev(r)`, `myl` copies of `r`, then `nh` copies of `Next(r)` |
| `Fifo.Take` | step5.py:82 | a receive takes the oldest message (first in) or the newest (last in), and the rest of the queue is what remains |
| `Fifo.Step` | step5.py:81-85 | one statement of one rank keeps the state well formed and advances only that rank's counter |
| `Fifo.Execute` | step5.py:81-85 | a schedule that runs leaves a well-formed state in which the counters add up to the schedule's length |
| `Fifo.TotalBound` | step5.py:81-85 | at most four statements per rank in total, and exactly four per rank exactly when every rank is done |
| `Fifo.HighQueue` | step5.py:81-82 | the first receive finds a message exactly when the next neighbour has made its first send, and that message is the neighbour's first `nh` owned values |
| `Fifo.LowQueue` | step5.py:84-85 | the second receive finds a message exactly when the previous neighbour has made its second send, and takes that message even when the first one shared the channel |
| `Fifo.SendOnTrack` | step5.py:81-84 | a send can always go ahead and keeps every buffer and channel where the counters say |
| `Fifo.RecvOnTrack` | step5.py:82-85 | a receive that goes ahead keeps every buffer and channel where the counters say |
| `Fifo.RunOnTrack` | step5.py:81-85 | every first-in first-out run, in any interleaving, keeps every buffer and channel where the counters say |
| `Fifo.DoneIsHalo` | step5.py:81-85 | once every rank has run all four statements, the buffers are `Halo`'s and no message is left in flight |
| `Fifo.FifoBounded` | step5.py:81-85 | a first-in first-out run has at most four steps per rank |
| `Fifo.FifoMatchesHalo` | step5.py:81-85 | every complete first-in first-out run, whatever the interleaving, ends with the buffers `Halo` computes |
| `Fifo.Ready` | step5.py:81-85 | in an unfinished run some rank can make its next statement |
| `Fifo.Unstuck` | step5.py:81-85 | a first-in first-out run that is not complete can always be extended by one step: no deadlock |
| `Fifo.Complete` | step5.py:81-85 | every schedule that runs extends to a complete one that runs |
| `Fifo.FifoCompletes` | step5.py:81-85 | the exchange always completes over first-in first-out channels, with `Halo`'s buffers |
| `Fifo.LastInSwapsHalos` | step5.py:81-85 | on two ranks, one interleaving under newest-first delivery gives rank 0 the reverse of the halos `Halo` gives it |
| `Fifo.LastInGoesWrong` | step5.py:81-85 | so under newest-first delivery rank 0 ends away from `Halo` whenever rank 1's two messages differ |
| `Fifo.TwoRanksGoWrong` | step5.py:81-85 | on owned values `1, 2` and `10, 11`, rank 0 ends with `[10, 1, 2, 11]` instead of `[11, 1, 2, 10]` |
| `Tutorial.Lengths` | step5.py:45-52 | rank `r` owns `nbase + 1` points when `r < rem` and `nbase` otherwise |
| `Tutorial.LengthsSumToLarr` | step5.py:55 | the lengths of all ranks, summed as the allreduce does, give `larr` |
| `Tutorial.GuardSilentEverywhere` | step5.py:70-71 | the guard is silent on every rank exactly when `nh <= nbase` |
| `Tutorial.GuardAdmitsFullWidth` | step5.py:70-71 | the guard stays silent for a halo as wide as the section |
| `Tutorial.DemoExchange` | step5.py:73-85 | with the guard silent and `nh >= 1`, every rank ends with `nh` copies of its previous neighbour's id, its own id, then `nh` copies of its next neighbour's id |
| `Tutorial.StepThree` | step3.py:41-60 | `larr = 3*size` leaves no remainder; rank `r` owns points `3r .. 3r+2`, and with `nh = 1` its buffer has five cells |
| `Tutorial.StepFour` | step4.py:41-85 | with `larr = size*3` and `nh = 2`, the guard is silent and rank `r` ends with `[p, p, r, r, r, n, n]` |
| `Tutorial.StepFive` | step5.py:42-57 | `larr = size*100` gives every rank 100 points, and `total_len == larr` |
| `Tutorial.TenOnThree` | step5.py:45-54 | ten points on three ranks give sections `[0, 3]`, `[4, 6]` and `[7, 9]` |

## Left out

- Printing, `MPI.Get_processor_name`, `comm.Barrier()` and `MPI.Finalize()`
  are left out. They carry no state the exchange depends on.
- `step1.py` is left out. It only reports ranks and hosts.
- The hello messages are kept abstract: `Ring.HelloRound` is generic in the
  message type, and the text `'Hello from rank %d'` is not modelled.
- Blocking semantics of `comm.send` are not modelled. The model assumes
  sends are buffered, so a send never waits for its matching receive. MPI
  does not guarantee this for a standard-mode send, and every rank sends
  before it receives; `Fifo.Unstuck` holds only under that assumption.
- The allreduce is a sum over the ranks' lengths (`Partition.AllReduceSum`).
  How MPI transports it is not modelled.
- `int(larr/size)` is floating-point division followed by truncation. It
  is modelled as exact integer division, which agrees with it for every
  `larr` below 2^53.
- The numerical part of step 5 is left out: `dx`, `np.linspace`, `np.exp`
  and `matplotlib`. These use floating point and plotting. The calls
  `halo(xc, …)` and `halo(phi_init, …)` are each modelled as `Exchange.Halo`
  applied to that buffer, which is generic in the element type.
- Consecutive exchanges that share the same channels are not modelled.
  Step 5 runs three exchanges in a row (the inline one, then `halo` on `xc`
  and on `phi_init`) with no barrier between them, so one exchange's
  messages can already be in flight while a neighbour is still in the
  previous one. `Fifo` proves one exchange that starts from empty channels.
- The element type of the buffers is abstract. `mysec` holds floats in the
  source; the demonstration uses integers for the rank ids.
- `nh > myl` is only partly modelled. The source prints a message and
  carries on, and numpy then fails or broadcasts on the mismatched shapes.
  The exchange lemmas require `Conformant` (`1 <= nh <= myl` on every rank)
  instead. `Fifo.Step` refuses a receive whose message does not have `nh`
  values.
- `nh == 0` is only partly modelled. `Layout.ZeroWidthTailIsEverything`
  shows why it breaks: `[-0:]` sends the whole section into a halo with no
  cells. The exchange lemmas require `nh >= 1`.
- Message passing is a global function (`Exchange.Halo`) or an
  interleaving of single statements (`Fifo`). Real concurrency, timing and
  the MPI transport are not modelled.

/** The halo exchange over the whole ring (`halo(fld, isec, im1, ip1, ihi,
    ilo, nh)`, and the same four statements written inline): every rank sends
    its first `nh` owned values to its previous neighbour and fills its high
    halo from its next neighbour, then sends its last `nh` owned values to its
    next neighbour and fills its low halo from its previous neighbour.  The
    message passing is replaced by one function over the buffers of all ranks.
 */
module Exchange {
  import opened Ring
  import opened Layout

  /** The buffers of all ranks, indexed by rank; `|w|` is the number of ranks. */
  type World<T> = seq<seq<T>>

  /** `myl` of a buffer with halo width `nh`. */
  function Myl<T>(buf: seq<T>, nh: nat): nat
    requires 2 * nh <= |buf|
  {
    |buf| - 2 * nh
  }

  /** Every rank has at least one halo cell on each side and owns at least
      `nh` points, i.e. the guard `nh > myl` is silent on every rank. */
  predicate Conformant<T>(w: World<T>, nh: nat)
  {
    && |w| >= 1
    && nh >= 1
    && forall r :: 0 <= r < |w| ==> 3 * nh <= |w[r]|
  }

  /** `fld[isec][0:nh]`: the message a rank sends to its previous
      neighbour, its first `nh` owned values. */
  function ToPrev<T>(buf: seq<T>, nh: nat): (m: seq<T>)
    requires 1 <= nh && 3 * nh <= |buf|
    ensures |m| == nh
  {
    Owned(buf, nh)[..nh]
  }

  /** `fld[isec][-nh:]`: the message a rank sends to its next neighbour,
      its last `nh` owned values. */
  function ToNext<T>(buf: seq<T>, nh: nat): (m: seq<T>)
    requires 1 <= nh && 3 * nh <= |buf|
    ensures |m| == nh
  {
    Owned(buf, nh)[Myl(buf, nh) - nh..]
  }

  /** `fld[ihi] = m`: the high halo overwritten with the message `m`
      received from the next neighbour. */
  function RecvHigh<T>(buf: seq<T>, m: seq<T>, nh: nat): (b: seq<T>)
    requires 2 * nh <= |buf| && |m| == nh
    ensures |b| == |buf|
  {
    buf[..|buf| - nh] + m
  }

  /** `fld[ilo] = m`: the low halo overwritten with the message `m`
      received from the previous neighbour. */
  function RecvLow<T>(buf: seq<T>, m: seq<T>, nh: nat): (b: seq<T>)
    requires 2 * nh <= |buf| && |m| == nh
    ensures |b| == |buf|
  {
    m + buf[nh..]
  }

  /** The two sends, written as in the source: gather the owned cells
      through `isec`, then take the Python slice `[0:nh]` or `[-nh:]`. */
  lemma SendsAreNumpy<T>(buf: seq<T>, nh: nat)
    requires 1 <= nh && 3 * nh <= |buf|
    ensures InBounds(OwnedIdx(Myl(buf, nh), nh), |buf|)
    ensures PyHead(Gather(buf, OwnedIdx(Myl(buf, nh), nh)), nh) == ToPrev(buf, nh)
    ensures PyTail(Gather(buf, OwnedIdx(Myl(buf, nh), nh)), nh) == ToNext(buf, nh)
  {
    IndexListsAddressRegions(buf, nh);
  }

  /** The first receive, written as in the source: a scatter through the
      index list `ihi`. */
  lemma RecvHighIsNumpy<T>(buf: seq<T>, m: seq<T>, nh: nat)
    requires 2 * nh <= |buf| && |m| == nh
    ensures InBounds(HighIdx(Myl(buf, nh), nh), |buf|)
    ensures Scatter(buf, HighIdx(Myl(buf, nh), nh), m) == RecvHigh(buf, m, nh)
  {
    var lo := |buf| - nh;
    assert HighIdx(Myl(buf, nh), nh) == Range(lo, |buf|);
    ScatterRange(buf, lo, |buf|, m);
    assert buf[..lo] + m + buf[|buf|..] == buf[..lo] + m;
  }

  /** The second receive, written as in the source: a scatter through the
      index list `ilo`. */
  lemma RecvLowIsNumpy<T>(buf: seq<T>, m: seq<T>, nh: nat)
    requires 2 * nh <= |buf| && |m| == nh
    ensures InBounds(LowIdx(nh), |buf|)
    ensures Scatter(buf, LowIdx(nh), m) == RecvLow(buf, m, nh)
  {
    ScatterRange(buf, 0, nh, m);
    assert buf[..0] == [];
  }

  /** Rank `q`'s buffer after the first half of the exchange (lines one and
      two): it sent `fld[isec][0:nh]` to `im1` and received its high halo
      from `ip1`. */
  function AfterHigh<T>(w: World<T>, nh: nat, q: nat): (b: seq<T>)
    requires Conformant(w, nh) && q < |w|
    ensures |b| == |w[q]|
  {
    RecvHigh(w[q], ToPrev(w[Next(q, |w|)], nh), nh)
  }

  /** Rank `r`'s buffer after the whole exchange: in the second half it
      receives into its low halo what its previous neighbour sends from its
      own buffer as that stands after the first half. */
  function HaloAt<T>(w: World<T>, nh: nat, r: nat): (b: seq<T>)
    requires Conformant(w, nh) && r < |w|
    ensures |b| == |w[r]|
  {
    RecvLow(AfterHigh(w, nh, r), ToNext(AfterHigh(w, nh, Prev(r, |w|)), nh), nh)
  }

  /** The buffer rank `r` should hold after an exchange: the last `nh` owned
      values of its previous neighbour, its own owned values, then the first
      `nh` owned values of its next neighbour. */
  function Refreshed<T>(w: World<T>, nh: nat, r: nat): seq<T>
    requires Conformant(w, nh) && r < |w|
  {
    var p := w[Prev(r, |w|)];
    var n := w[Next(r, |w|)];
    Owned(p, nh)[Myl(p, nh) - nh..] + Owned(w[r], nh) + Owned(n, nh)[..nh]
  }

  /** The halo exchange on all ranks at once.  Every rank ends up holding
      its refreshed buffer: the halos come from the neighbours' owned
      sections and the owned section itself is unchanged. */
  function Halo<T>(w: World<T>, nh: nat): (w1: World<T>)
    requires Conformant(w, nh)
    ensures |w1| == |w|
    ensures forall r :: 0 <= r < |w| ==> |w1[r]| == |w[r]|
    ensures forall r {:trigger w1[r]} :: 0 <= r < |w| ==> w1[r] == Refreshed(w, nh, r)
  {
    var w1 := seq(|w|, r requires 0 <= r < |w| => HaloAt(w, nh, r));
    forall r | 0 <= r < |w|
      ensures w1[r] == Refreshed(w, nh, r)
    {
      HaloAtRefreshes(w, nh, r);
    }
    w1
  }

  lemma HaloAtRefreshes<T>(w: World<T>, nh: nat, r: nat)
    requires Conformant(w, nh) && r < |w|
    ensures HaloAt(w, nh, r) == Refreshed(w, nh, r)
  {
    var p := Prev(r, |w|);
    var n := Next(r, |w|);
    HaloAtOnBuffers(w, nh, r);
    assert 3 * nh <= |w[p]| && 3 * nh <= |w[r]| && 3 * nh <= |w[n]|;
    TwoHalves(w[p], ToPrev(w[r], nh), w[r], ToPrev(w[n], nh), nh);
  }

  /** `HaloAt` spelled out on the three buffers involved; the previous
      neighbour's next neighbour is `r` itself. */
  lemma HaloAtOnBuffers<T>(w: World<T>, nh: nat, r: nat)
    requires Conformant(w, nh) && r < |w|
    ensures var p := Prev(r, |w|);
      var n := Next(r, |w|);
      && 3 * nh <= |w[p]| && 3 * nh <= |w[r]| && 3 * nh <= |w[n]|
      && HaloAt(w, nh, r)
        == RecvLow(RecvHigh(w[r], ToPrev(w[n], nh), nh), ToNext(RecvHigh(w[p], ToPrev(w[r], nh), nh), nh), nh)
  {
  }

  /** The two halves on plain buffers: filling the low halo after the high
      halo, where the sender's high halo has just changed, still delivers the
      sender's owned values, and the receiver keeps its own owned values. */
  lemma TwoHalves<T>(bufP: seq<T>, hp: seq<T>, bufR: seq<T>, hr: seq<T>, nh: nat)
    requires 1 <= nh && 3 * nh <= |bufP| && 3 * nh <= |bufR| && |hp| == nh && |hr| == nh
    ensures 3 * nh <= |RecvHigh(bufP, hp, nh)|
    ensures RecvLow(RecvHigh(bufR, hr, nh), ToNext(RecvHigh(bufP, hp, nh), nh), nh)
      == Owned(bufP, nh)[Myl(bufP, nh) - nh..] + Owned(bufR, nh) + hr
  {
    var m := ToNext(RecvHigh(bufP, hp, nh), nh);
    assert m == Owned(bufP, nh)[Myl(bufP, nh) - nh..] by {
      ToNextAfterHigh(bufP, hp, nh);
    }
    LowAfterHigh(bufR, hr, m, nh);
  }

  /** The message for the next neighbour is read from owned cells, which
      the high-halo receive does not touch. */
  lemma ToNextAfterHigh<T>(buf: seq<T>, hi: seq<T>, nh: nat)
    requires 1 <= nh && 3 * nh <= |buf| && |hi| == nh
    ensures 3 * nh <= |RecvHigh(buf, hi, nh)|
    ensures ToNext(RecvHigh(buf, hi, nh), nh) == Owned(buf, nh)[Myl(buf, nh) - nh..]
  {
    HighOnlyKeepsOwned(buf, hi, nh);
  }

  /** Receiving both halos surrounds the untouched owned cells with the two
      messages. */
  lemma LowAfterHigh<T>(buf: seq<T>, hi: seq<T>, lo: seq<T>, nh: nat)
    requires 2 * nh <= |buf| && |hi| == nh && |lo| == nh
    ensures RecvLow(RecvHigh(buf, hi, nh), lo, nh) == lo + Owned(buf, nh) + hi
  {
    HighOnlyKeepsOwned(buf, hi, nh);
    ConcatAssoc(lo, Owned(buf, nh), hi);
  }

  lemma ConcatAssoc<T>(a: seq<T>, b: seq<T>, c: seq<T>)
    ensures a + (b + c) == a + b + c
  {
  }

  /** Replacing the high halo leaves the owned section and everything below
      it in place. */
  lemma HighOnlyKeepsOwned<T>(buf: seq<T>, hi: seq<T>, nh: nat)
    requires 2 * nh <= |buf| && |hi| == nh
    ensures var b := buf[..|buf| - nh] + hi;
      && |b| == |buf|
      && Owned(b, nh) == Owned(buf, nh)
      && b[nh..] == Owned(buf, nh) + hi
  {
    var b := buf[..|buf| - nh] + hi;
    assert b[nh..|b| - nh] == buf[nh..|buf| - nh];
    assert b[nh..] == b[nh..|b| - nh] + hi;
  }

  /** After the exchange, rank `r`'s high halo holds the first `nh` owned
      values of `Next(r)`, its low halo the last `nh` owned values of
      `Prev(r)`, and its owned section and buffer length are unchanged. */
  lemma HaloFillsFromNeighbours<T>(w: World<T>, nh: nat, r: nat)
    requires Conformant(w, nh) && r < |w|
    ensures |Halo(w, nh)[r]| == |w[r]|
    ensures Owned(Halo(w, nh)[r], nh) == Owned(w[r], nh)
    ensures HighHalo(Halo(w, nh)[r], nh) == Owned(w[Next(r, |w|)], nh)[..nh]
    ensures LowHalo(Halo(w, nh)[r], nh) == Owned(w[Prev(r, |w|)], nh)[Myl(w[Prev(r, |w|)], nh) - nh..]
  {
    var lo := Owned(w[Prev(r, |w|)], nh)[Myl(w[Prev(r, |w|)], nh) - nh..];
    var hi := Owned(w[Next(r, |w|)], nh)[..nh];
    RegionsOfConcat(lo, Owned(w[r], nh), hi, nh);
  }

  /** The exchange only writes halo cells, and what it writes depends only
      on owned cells, so a second exchange changes nothing. */
  lemma HaloIdempotent<T>(w: World<T>, nh: nat)
    requires Conformant(w, nh)
    ensures Conformant(Halo(w, nh), nh)
    ensures Halo(Halo(w, nh), nh) == Halo(w, nh)
  {
    var h := Halo(w, nh);
    assert Conformant(h, nh);
    forall r | 0 <= r < |w|
      ensures Halo(h, nh)[r] == h[r]
    {
      HaloTwiceAt(w, h, nh, r);
    }
  }

  lemma HaloTwiceAt<T>(w: World<T>, h: World<T>, nh: nat, r: nat)
    requires Conformant(w, nh) && r < |w| && h == Halo(w, nh)
    ensures Conformant(h, nh)
    ensures Halo(h, nh)[r] == h[r]
  {
    assert Conformant(h, nh);
    var p := Prev(r, |w|);
    var n := Next(r, |w|);
    assert Refreshed(h, nh, r) == Refreshed(w, nh, r) by {
      HaloFillsFromNeighbours(w, nh, p);
      HaloFillsFromNeighbours(w, nh, r);
      HaloFillsFromNeighbours(w, nh, n);
      SameOwnedSameRefresh(w, h, nh, r);
    }
    assert Halo(h, nh)[r] == Refreshed(h, nh, r);
  }

  /** What the exchange writes into rank `r` depends only on the owned
      sections of `r` and its two neighbours. */
  lemma SameOwnedSameRefresh<T>(w: World<T>, v: World<T>, nh: nat, r: nat)
    requires Conformant(w, nh) && Conformant(v, nh) && |w| == |v| && r < |w|
    requires var p := Prev(r, |w|);
      |v[p]| == |w[p]| && Owned(v[p], nh) == Owned(w[p], nh)
    requires |v[r]| == |w[r]| && Owned(v[r], nh) == Owned(w[r], nh)
    requires var n := Next(r, |w|);
      |v[n]| == |w[n]| && Owned(v[n], nh) == Owned(w[n], nh)
    ensures Refreshed(v, nh, r) == Refreshed(w, nh, r)
  {
  }

  /** The world of the demonstration: `mysec = np.zeros(myl+nh*2)` on every
      rank, followed by `mysec[i0sec_indices] = rank`; `lens[r]` is the
      `myl` of rank `r`. */
  function RankFilled(lens: seq<nat>, nh: nat): (w: World<int>)
    ensures |w| == |lens|
    ensures forall r :: 0 <= r < |lens| ==> |w[r]| == BufLen(lens[r], nh)
  {
    seq(|lens|, r requires 0 <= r < |lens| =>
      Scatter(Allocate(lens[r], nh, 0), OwnedIdx(lens[r], nh), Repeat<int>(r, lens[r])))
  }

  /** The rank-filled world holds zero halos around owned cells set to the
      rank id. */
  lemma RankFilledShape(lens: seq<nat>, nh: nat, r: nat)
    requires r < |lens|
    ensures RankFilled(lens, nh)[r] == Repeat<int>(0, nh) + Repeat<int>(r, lens[r]) + Repeat<int>(0, nh)
    ensures Owned(RankFilled(lens, nh)[r], nh) == Repeat<int>(r, lens[r])
  {
    var a := Allocate(lens[r], nh, 0);
    var own := Repeat<int>(r, lens[r]);
    assert RankFilled(lens, nh)[r] == Scatter(a, Range(nh, lens[r] + nh), own);
    ScatterRange(a, nh, lens[r] + nh, own);
    assert a[..nh] == Repeat<int>(0, nh) && a[lens[r] + nh..] == Repeat<int>(0, nh);
    RegionsOfConcat(Repeat<int>(0, nh), own, Repeat<int>(0, nh), nh);
  }

  lemma RepeatSlice<T>(v: T, n: nat, i: nat, j: nat)
    requires i <= j <= n
    ensures Repeat(v, n)[i..j] == Repeat(v, j - i)
  {
  }

  /** After exchanging the rank-filled world, rank `r` holds `nh` copies of
      the previous rank's id, its own id on every owned cell, then `nh`
      copies of the next rank's id, wrapping around at both ends. */
  lemma RankFilledExchange(lens: seq<nat>, nh: nat, r: nat)
    requires |lens| >= 1 && nh >= 1
    requires forall q :: 0 <= q < |lens| ==> nh <= lens[q]
    requires r < |lens|
    ensures Conformant(RankFilled(lens, nh), nh)
    ensures Halo(RankFilled(lens, nh), nh)[r]
      == Repeat<int>(Prev(r, |lens|), nh) + Repeat<int>(r, lens[r]) + Repeat<int>(Next(r, |lens|), nh)
  {
    var w := RankFilled(lens, nh);
    var p := Prev(r, |lens|);
    var n := Next(r, |lens|);
    RankFilledShape(lens, nh, p);
    RankFilledShape(lens, nh, r);
    RankFilledShape(lens, nh, n);
    assert Conformant(w, nh);
    RepeatSlice(p, lens[p], lens[p] - nh, lens[p]);
    RepeatSlice(n, lens[n], 0, nh);
    assert Myl(w[p], nh) == lens[p];
    assert Owned(w[p], nh)[Myl(w[p], nh) - nh..] == Repeat<int>(p, nh);
    assert Owned(w[n], nh)[..nh] == Repeat<int>(n, nh);
    var expected := Repeat<int>(p, nh) + Repeat<int>(r, lens[r]) + Repeat<int>(n, nh);
    assert Refreshed(w, nh, r) == expected;
    var b := Halo(w, nh)[r];
    assert b == Refreshed(w, nh, r);
    assert b == expected;
  }
}

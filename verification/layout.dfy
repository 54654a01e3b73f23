/** The local buffer of one rank (`mysec`, `fld`): `nh` low-halo cells, the
    `myl` owned cells, then `nh` high-halo cells, addressed through three
    index lists built with `range`, and read and written with numpy-style
    index lists and Python slices.
 */
module Layout {

  /** `[*range(lo, hi)]`: the integers `lo, lo+1, ..., hi-1`, empty when `hi <= lo`. */
  function Range(lo: int, hi: int): (r: seq<int>)
    ensures |r| == if lo <= hi then hi - lo else 0
    ensures forall k :: 0 <= k < |r| ==> r[k] == lo + k
    decreases hi - lo
  {
    if lo >= hi then [] else [lo] + Range(lo + 1, hi)
  }

  /** A range holds exactly the integers from `lo` up to, not including, `hi`. */
  lemma InRange(lo: int, hi: int)
    ensures forall i :: i in Range(lo, hi) <==> lo <= i < hi
  {
    var r := Range(lo, hi);
    forall i | lo <= i < hi
      ensures i in r
    {
      assert r[i - lo] == i;
    }
  }

  /** Adjacent ranges concatenate to the range that spans both. */
  lemma RangeAppend(lo: int, mid: int, hi: int)
    requires lo <= mid <= hi
    ensures Range(lo, mid) + Range(mid, hi) == Range(lo, hi)
  {
    var a := Range(lo, mid) + Range(mid, hi);
    assert forall k :: 0 <= k < |a| ==> a[k] == lo + k by {
      forall k | 0 <= k < |a|
        ensures a[k] == lo + k
      {
        if k < mid - lo {
          assert a[k] == Range(lo, mid)[k];
        } else {
          assert a[k] == Range(mid, hi)[k - (mid - lo)];
        }
      }
    }
  }

  /** Length of the buffer `np.zeros(myl + nh*2)`. */
  function BufLen(myl: nat, nh: nat): nat
  {
    myl + 2 * nh
  }

  /** `i0loh_indices`: the low halo. */
  function LowIdx(nh: nat): seq<int>
  {
    Range(0, nh)
  }

  /** `i0sec_indices`: the owned section. */
  function OwnedIdx(myl: nat, nh: nat): seq<int>
  {
    Range(nh, myl + nh)
  }

  /** `i0hih_indices`: the high halo. */
  function HighIdx(myl: nat, nh: nat): seq<int>
  {
    Range(myl + nh, myl + 2 * nh)
  }

  /** The three index lists have sizes `nh`, `myl` and `nh` and, one after
      the other, list every index of the buffer once, in order. */
  lemma IndexListsPartition(myl: nat, nh: nat)
    ensures |LowIdx(nh)| == nh && |OwnedIdx(myl, nh)| == myl && |HighIdx(myl, nh)| == nh
    ensures LowIdx(nh) + OwnedIdx(myl, nh) + HighIdx(myl, nh) == Range(0, BufLen(myl, nh))
  {
    RangeAppend(0, nh, myl + nh);
    RangeAppend(0, myl + nh, myl + 2 * nh);
  }

  /** No index is in two of the lists, and an index is in one of them
      exactly when it lies in the buffer. */
  lemma IndexListsDisjoint(myl: nat, nh: nat)
    ensures forall i :: !(i in LowIdx(nh) && i in OwnedIdx(myl, nh))
    ensures forall i :: !(i in LowIdx(nh) && i in HighIdx(myl, nh))
    ensures forall i :: !(i in OwnedIdx(myl, nh) && i in HighIdx(myl, nh))
    ensures forall i :: 0 <= i < BufLen(myl, nh) <==> (i in LowIdx(nh) || i in OwnedIdx(myl, nh) || i in HighIdx(myl, nh))
  {
    InRange(0, nh);
    InRange(nh, myl + nh);
    InRange(myl + nh, myl + 2 * nh);
  }

  /** `np.zeros(myl + nh*2)`, with `zero` standing for the element type's zero. */
  function Allocate<T>(myl: nat, nh: nat, zero: T): (buf: seq<T>)
    ensures |buf| == BufLen(myl, nh)
    ensures forall i :: 0 <= i < |buf| ==> buf[i] == zero
  {
    seq(myl + 2 * nh, _ => zero)
  }

  /** `n` copies of `v`: a scalar broadcast over `n` cells. */
  function Repeat<T>(v: T, n: nat): (r: seq<T>)
    ensures |r| == n
    ensures forall k :: 0 <= k < n ==> r[k] == v
  {
    seq(n, _ => v)
  }

  predicate InBounds(idx: seq<int>, n: int)
  {
    forall k :: 0 <= k < |idx| ==> 0 <= idx[k] < n
  }

  predicate Distinct(idx: seq<int>)
  {
    forall j, k :: 0 <= j < k < |idx| ==> idx[j] != idx[k]
  }

  /** `buf[idx]` with an index list: the listed elements, in list order. */
  function Gather<T>(buf: seq<T>, idx: seq<int>): (r: seq<T>)
    requires InBounds(idx, |buf|)
    ensures |r| == |idx|
  {
    seq(|idx|, k requires 0 <= k < |idx| => buf[idx[k]])
  }

  /** Reading through a range index list is a slice. */
  lemma GatherRange<T>(buf: seq<T>, lo: int, hi: int)
    requires 0 <= lo <= hi <= |buf|
    ensures InBounds(Range(lo, hi), |buf|)
    ensures Gather(buf, Range(lo, hi)) == buf[lo..hi]
  {
  }

  /** `buf[idx] = vals` with an index list: `vals[k]` is written at
      `idx[k]`, one after the other, so a repeated index keeps its last value. */
  function Scatter<T>(buf: seq<T>, idx: seq<int>, vals: seq<T>): (r: seq<T>)
    requires |vals| == |idx| && InBounds(idx, |buf|)
    ensures |r| == |buf|
    decreases |idx|
  {
    if |idx| == 0 then buf
    else Scatter(buf[idx[0] := vals[0]], idx[1..], vals[1..])
  }

  /** A scatter leaves every unlisted position alone and, when no index is
      listed twice, puts `vals[k]` at `idx[k]`. */
  lemma {:induction false} ScatterWrites<T>(buf: seq<T>, idx: seq<int>, vals: seq<T>)
    requires |vals| == |idx| && InBounds(idx, |buf|)
    ensures forall i :: 0 <= i < |buf| && i !in idx ==> Scatter(buf, idx, vals)[i] == buf[i]
    ensures Distinct(idx) ==> forall k :: 0 <= k < |idx| ==> Scatter(buf, idx, vals)[idx[k]] == vals[k]
    decreases |idx|
  {
    if |idx| > 0 {
      var buf1 := buf[idx[0] := vals[0]];
      var r := Scatter(buf, idx, vals);
      ScatterWrites(buf1, idx[1..], vals[1..]);
      forall i | 0 <= i < |buf| && i !in idx
        ensures r[i] == buf[i]
      {
        assert i != idx[0] && i !in idx[1..];
      }
      if Distinct(idx) {
        forall k | 0 <= k < |idx|
          ensures r[idx[k]] == vals[k]
        {
          if k == 0 {
            assert idx[0] !in idx[1..] by {
              forall j | 0 <= j < |idx[1..]|
                ensures idx[1..][j] != idx[0]
              {
                assert idx[1..][j] == idx[j + 1];
              }
            }
          } else {
            assert idx[1..][k - 1] == idx[k];
          }
        }
      }
    }
  }

  /** Writing through a range index list replaces exactly that slice. */
  lemma ScatterRange<T>(buf: seq<T>, lo: int, hi: int, vals: seq<T>)
    requires 0 <= lo <= hi <= |buf| && |vals| == hi - lo
    ensures InBounds(Range(lo, hi), |buf|)
    ensures Scatter(buf, Range(lo, hi), vals) == buf[..lo] + vals + buf[hi..]
  {
    var idx := Range(lo, hi);
    var r := Scatter(buf, idx, vals);
    var e := buf[..lo] + vals + buf[hi..];
    assert Distinct(idx);
    ScatterWrites(buf, idx, vals);
    InRange(lo, hi);
    forall i | 0 <= i < |buf|
      ensures r[i] == e[i]
    {
      if lo <= i < hi {
        assert idx[i - lo] == i;
      }
    }
  }

  /** `s[0:n]` for `n >= 0`: the first `n` elements, or all of `s` when it
      is shorter. */
  function PyHead<T>(s: seq<T>, n: nat): (r: seq<T>)
    ensures |r| == if n <= |s| then n else |s|
    ensures r == s[..|r|]
  {
    if n <= |s| then s[..n] else s
  }

  /** `s[-n:]` for `n >= 0`: the last `n` elements, or all of `s` when it is
      shorter.  Python reads `-0` as `0`, so for `n == 0` this is the whole of
      `s`, not the empty tail. */
  function PyTail<T>(s: seq<T>, n: nat): (r: seq<T>)
    ensures n >= 1 ==> |r| == if n <= |s| then n else |s|
    ensures n == 0 ==> r == s
    ensures r == s[|s| - |r|..]
  {
    if n == 0 then s else if n <= |s| then s[|s| - n..] else s
  }

  /** With halo width 0 the tail slice sends the whole owned section, while
      the low halo it is written into has no cells. */
  lemma ZeroWidthTailIsEverything<T>(s: seq<T>)
    requires |s| >= 1
    ensures |PyTail(s, 0)| == |s| != |LowIdx(0)|
  {
  }

  /** The low halo of a buffer of halo width `nh`. */
  function LowHalo<T>(buf: seq<T>, nh: nat): seq<T>
    requires 2 * nh <= |buf|
  {
    buf[..nh]
  }

  /** The owned section of a buffer of halo width `nh`. */
  function Owned<T>(buf: seq<T>, nh: nat): seq<T>
    requires 2 * nh <= |buf|
  {
    buf[nh..|buf| - nh]
  }

  /** The high halo of a buffer of halo width `nh`. */
  function HighHalo<T>(buf: seq<T>, nh: nat): seq<T>
    requires 2 * nh <= |buf|
  {
    buf[|buf| - nh..]
  }

  /** The three index lists address exactly the three regions of the buffer. */
  lemma IndexListsAddressRegions<T>(buf: seq<T>, nh: nat)
    requires 2 * nh <= |buf|
    ensures InBounds(LowIdx(nh), |buf|)
    ensures InBounds(OwnedIdx(|buf| - 2 * nh, nh), |buf|)
    ensures InBounds(HighIdx(|buf| - 2 * nh, nh), |buf|)
    ensures Gather(buf, LowIdx(nh)) == LowHalo(buf, nh)
    ensures Gather(buf, OwnedIdx(|buf| - 2 * nh, nh)) == Owned(buf, nh)
    ensures Gather(buf, HighIdx(|buf| - 2 * nh, nh)) == HighHalo(buf, nh)
    ensures buf == LowHalo(buf, nh) + Owned(buf, nh) + HighHalo(buf, nh)
  {
    var myl := |buf| - 2 * nh;
    GatherRange(buf, 0, nh);
    GatherRange(buf, nh, myl + nh);
    GatherRange(buf, myl + nh, myl + 2 * nh);
    assert buf == buf[..nh] + buf[nh..|buf| - nh] + buf[|buf| - nh..];
  }

  /** A buffer assembled from a low halo, an owned section and a high halo
      of `nh` cells each side splits back into those three parts. */
  lemma RegionsOfConcat<T>(lo: seq<T>, own: seq<T>, hi: seq<T>, nh: nat)
    requires |lo| == nh && |hi| == nh
    ensures var b := lo + own + hi;
      && 2 * nh <= |b|
      && LowHalo(b, nh) == lo && Owned(b, nh) == own && HighHalo(b, nh) == hi
  {
    var b := lo + own + hi;
    assert b[..nh] == lo;
    assert b[nh..|b| - nh] == own;
    assert b[|b| - nh..] == hi;
  }
}

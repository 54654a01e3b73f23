/** The halo exchange as the four statements each rank actually executes,
    `comm.send` to `im1`, `comm.recv` from `ip1`, `comm.send` to `ip1`,
    `comm.recv` from `im1`, over point-to-point channels that hold messages
    in flight.  Sends never block (the messages are small) and a receive
    waits until its channel is non-empty.  Whatever order the ranks take
    turns in, first-in first-out channels make every complete run end with
    the buffers `Halo` computes; with last-in first-out channels two ranks
    can end up with the wrong high halo.
 */
module Fifo {
  import opened Ring
  import opened Layout
  import opened Exchange

  datatype Option<T> = None | Some(value: T)

  /** Which message a receive takes from its channel: the oldest one, as
      MPI's non-overtaking rule guarantees between one pair of ranks, or the
      newest one. */
  datatype Order = FirstIn | LastIn

  /** The exchange in progress.  `pc[r]` counts the statements rank `r` has
      executed (0 to 4), `buf[r]` is its buffer and `chan[s][d]` lists the
      messages rank `s` sent to rank `d` that `d` has not yet received, oldest
      first. */
  datatype State<T> = State(pc: seq<nat>, buf: World<T>, chan: seq<seq<seq<seq<T>>>>)

  /** The shape every state keeps: one counter, buffer and row of channels
      per rank, and buffers long enough for both halos and an owned section
      of at least `nh` points. */
  predicate WellFormed<T>(st: State<T>, nh: nat)
  {
    && |st.buf| >= 1 && nh >= 1
    && |st.pc| == |st.buf| && |st.chan| == |st.buf|
    && (forall r :: 0 <= r < |st.pc| ==> st.pc[r] <= 4)
    && (forall r :: 0 <= r < |st.buf| ==> 3 * nh <= |st.buf[r]|)
    && (forall s :: 0 <= s < |st.chan| ==> |st.chan[s]| == |st.buf|)
  }

  /** No rank has executed anything and no message is in flight. */
  function Init<T>(w: World<T>): (st: State<T>)
  {
    State(seq(|w|, _ => 0), w, seq(|w|, _ => seq(|w|, _ => [])))
  }

  /** The message a receive takes and what stays in the channel. */
  function Take<T>(order: Order, queue: seq<seq<T>>): (r: (seq<T>, seq<seq<T>>))
    requires |queue| >= 1
    ensures order == FirstIn ==> [r.0] + r.1 == queue
    ensures order == LastIn ==> r.1 + [r.0] == queue
  {
    match order
    case FirstIn => (queue[0], queue[1..])
    case LastIn => (queue[|queue| - 1], queue[..|queue| - 1])
  }

  /** Rank `q` sends `m` to rank `d` and moves on to its next statement. */
  function Post<T>(st: State<T>, nh: nat, q: nat, d: nat, m: seq<T>): (st1: State<T>)
    requires WellFormed(st, nh) && q < |st.buf| && d < |st.buf| && st.pc[q] < 4
    ensures WellFormed(st1, nh)
  {
    State(st.pc[q := st.pc[q] + 1], st.buf, st.chan[q := st.chan[q][d := st.chan[q][d] + [m]]])
  }

  /** Rank `q` executes its next statement.  `None` when it cannot: it has
      finished, it waits on an empty channel, or the message it would write
      into a halo does not have `nh` values. */
  function Step<T>(order: Order, st: State<T>, nh: nat, q: nat): (r: Option<State<T>>)
    requires WellFormed(st, nh) && q < |st.buf|
    ensures r.Some? ==> WellFormed(r.value, nh) && |r.value.buf| == |st.buf|
    ensures r.Some? ==> r.value.pc == st.pc[q := st.pc[q] + 1]
  {
    var n := |st.buf|;
    var b := st.buf[q];
    if st.pc[q] == 0 then
      Some(Post(st, nh, q, Prev(q, n), ToPrev(b, nh)))
    else if st.pc[q] == 2 then
      Some(Post(st, nh, q, Next(q, n), ToNext(b, nh)))
    else if st.pc[q] == 1 || st.pc[q] == 3 then
      var s := if st.pc[q] == 1 then Next(q, n) else Prev(q, n);
      var queue := st.chan[s][q];
      if |queue| == 0 then None
      else
        var (m, rest) := Take(order, queue);
        if |m| != nh then None
        else
          var b1 := if st.pc[q] == 1 then RecvHigh(b, m, nh) else RecvLow(b, m, nh);
          Some(State(st.pc[q := st.pc[q] + 1], st.buf[q := b1], st.chan[s := st.chan[s][q := rest]]))
    else
      None
  }

  /** Run the ranks in the order `sched` names them, one statement per
      entry, from the initial state.  `None` when some entry names no rank
      or a rank that cannot move. */
  function Execute<T>(order: Order, w: World<T>, nh: nat, sched: seq<nat>): (r: Option<State<T>>)
    requires Conformant(w, nh)
    ensures r.Some? ==> WellFormed(r.value, nh) && |r.value.buf| == |w|
    ensures r.Some? ==> Total(r.value.pc) == |sched|
  {
    if |sched| == 0 then
      InitWellFormed(w, nh);
      Some(Init(w))
    else
      Then(order, Execute(order, w, nh, sched[..|sched| - 1]), nh, sched[|sched| - 1])
  }

  /** One more entry of a schedule: rank `q` moves, if the run so far got
      through and `q` names a rank that can. */
  function Then<T>(order: Order, st: Option<State<T>>, nh: nat, q: nat): (r: Option<State<T>>)
    requires st.Some? ==> WellFormed(st.value, nh)
    ensures r.Some? ==> st.Some? && q < |st.value.buf|
    ensures r.Some? ==> WellFormed(r.value, nh) && |r.value.buf| == |st.value.buf|
    ensures r.Some? ==> Total(r.value.pc) == Total(st.value.pc) + 1
  {
    if st.None? || q >= |st.value.buf| then None
    else
      TotalUpdate(st.value.pc, q);
      Step(order, st.value, nh, q)
  }

  lemma InitWellFormed<T>(w: World<T>, nh: nat)
    requires Conformant(w, nh)
    ensures WellFormed(Init(w), nh) && Total(Init(w).pc) == 0
  {
    TotalZero(|w|);
  }

  /** The number of statements executed so far, over all ranks. */
  function Total(pc: seq<nat>): nat
  {
    if |pc| == 0 then 0 else Total(pc[..|pc| - 1]) + pc[|pc| - 1]
  }

  lemma {:induction false} TotalZero(n: nat)
    ensures Total(seq(n, _ => 0)) == 0
  {
    if n > 0 {
      assert seq(n, _ => 0)[..n - 1] == seq(n - 1, _ => 0);
      TotalZero(n - 1);
    }
  }

  /** One more statement on one rank is one more statement in total. */
  lemma {:induction false} TotalUpdate(pc: seq<nat>, q: nat)
    requires q < |pc|
    ensures Total(pc[q := pc[q] + 1]) == Total(pc) + 1
    decreases |pc|
  {
    var pc1 := pc[q := pc[q] + 1];
    if q < |pc| - 1 {
      assert pc1[..|pc| - 1] == pc[..|pc| - 1][q := pc[q] + 1];
      TotalUpdate(pc[..|pc| - 1], q);
    } else {
      assert pc1[..|pc| - 1] == pc[..|pc| - 1];
    }
  }

  /** No rank executes more than four statements. */
  lemma {:induction false} TotalBound(pc: seq<nat>)
    requires forall r :: 0 <= r < |pc| ==> pc[r] <= 4
    ensures Total(pc) <= 4 * |pc|
    ensures Total(pc) == 4 * |pc| <==> forall r :: 0 <= r < |pc| ==> pc[r] == 4
  {
    if |pc| > 0 {
      TotalBound(pc[..|pc| - 1]);
      assert forall r :: 0 <= r < |pc| - 1 ==> pc[..|pc| - 1][r] == pc[r];
    }
  }

  // ---------------------------------------------------------------------
  // What a first-in first-out run looks like at every point

  /** Rank `r`'s buffer once it has executed `k` statements. */
  function BufAt<T>(w: World<T>, nh: nat, r: nat, k: nat): seq<T>
    requires Conformant(w, nh) && r < |w|
  {
    if k <= 1 then w[r] else if k <= 3 then AfterHigh(w, nh, r) else HaloAt(w, nh, r)
  }

  /** The messages rank `s` has sent to rank `d` once it has executed `k`
      statements, oldest first. */
  function Posted<T>(w: World<T>, nh: nat, s: nat, d: nat, k: nat): seq<seq<T>>
    requires Conformant(w, nh) && s < |w| && d < |w|
  {
    (if d == Prev(s, |w|) && k >= 1 then [ToPrev(w[s], nh)] else [])
    + (if d == Next(s, |w|) && k >= 3 then [ToNext(AfterHigh(w, nh, s), nh)] else [])
  }

  /** How many messages from rank `s` rank `d` has received once it has
      executed `k` statements. */
  function Taken(n: nat, s: nat, d: nat, k: nat): nat
    requires s < n && d < n
  {
    (if s == Next(d, n) && k >= 2 then 1 else 0) + (if s == Prev(d, n) && k >= 4 then 1 else 0)
  }

  /** The channel from `s` to `d` holds exactly the messages `s` has sent
      and `d` has not yet received. */
  ghost predicate ChanOnTrack<T>(w: World<T>, nh: nat, st: State<T>, s: nat, d: nat)
    requires Conformant(w, nh) && WellFormed(st, nh) && |st.buf| == |w| && s < |w| && d < |w|
  {
    var p := Posted(w, nh, s, d, st.pc[s]);
    var t := Taken(|w|, s, d, st.pc[d]);
    t <= |p| && st.chan[s][d] == p[t..]
  }

  /** Every buffer and every channel is where the statement counters say
      it should be. */
  ghost predicate OnTrack<T>(w: World<T>, nh: nat, st: State<T>)
  {
    && Conformant(w, nh) && WellFormed(st, nh) && |st.buf| == |w|
    && (forall r :: 0 <= r < |w| ==> st.buf[r] == BufAt(w, nh, r, st.pc[r]))
    && (forall s, d :: 0 <= s < |w| && 0 <= d < |w| ==> ChanOnTrack(w, nh, st, s, d))
  }

  /** Every rank has executed all four statements. */
  predicate Done<T>(st: State<T>)
  {
    forall r :: 0 <= r < |st.pc| ==> st.pc[r] == 4
  }

  /** Nothing has happened yet, so everything is on track. */
  lemma InitOnTrack<T>(w: World<T>, nh: nat)
    requires Conformant(w, nh)
    ensures OnTrack(w, nh, Init(w))
  {
    InitWellFormed(w, nh);
    var st := Init(w);
    forall s, d | 0 <= s < |w| && 0 <= d < |w|
      ensures ChanOnTrack(w, nh, st, s, d)
    {
      assert Posted(w, nh, s, d, 0) == [];
    }
  }

  /** The first receive of rank `q` (into its high halo, from `Next(q)`) can
      go ahead exactly when `Next(q)` has made its first send, and it then
      takes that send's message. */
  lemma HighQueue<T>(w: World<T>, nh: nat, st: State<T>, q: nat)
    requires OnTrack(w, nh, st) && q < |w| && st.pc[q] == 1
    ensures var s := Next(q, |w|);
      && (|st.chan[s][q]| > 0 <==> st.pc[s] >= 1)
      && (|st.chan[s][q]| > 0 ==> st.chan[s][q][0] == ToPrev(w[s], nh))
  {
    var s := Next(q, |w|);
    assert ChanOnTrack(w, nh, st, s, q);
    assert Taken(|w|, s, q, 1) == 0;
  }

  /** The second receive of rank `q` (into its low halo, from `Prev(q)`) can
      go ahead exactly when `Prev(q)` has made its second send, and it then
      takes that send's message, even when the same channel also carried the
      first one. */
  lemma LowQueue<T>(w: World<T>, nh: nat, st: State<T>, q: nat)
    requires OnTrack(w, nh, st) && q < |w| && st.pc[q] == 3
    ensures var s := Prev(q, |w|);
      && (|st.chan[s][q]| > 0 <==> st.pc[s] >= 3)
      && (|st.chan[s][q]| > 0 ==> st.chan[s][q][0] == ToNext(AfterHigh(w, nh, s), nh))
  {
    var s := Prev(q, |w|);
    assert ChanOnTrack(w, nh, st, s, q);
    PairingIsBijection(q, s, |w|);
    Inverse(q, |w|);
  }

  /** A send appends to exactly one channel and moves only its sender on. */
  lemma SendPair<T>(w: World<T>, nh: nat, st: State<T>, q: nat, d0: nat, m: seq<T>, s: nat, d: nat)
    requires Conformant(w, nh) && WellFormed(st, nh) && |st.buf| == |w|
    requires q < |w| && d0 < |w| && s < |w| && d < |w| && ChanOnTrack(w, nh, st, s, d)
    requires st.pc[q] == 0 || st.pc[q] == 2
    requires s == q ==> Posted(w, nh, q, d, st.pc[q] + 1) == Posted(w, nh, q, d, st.pc[q]) + (if d == d0 then [m] else [])
    ensures ChanOnTrack(w, nh, Post(st, nh, q, d0, m), s, d)
  {
    var st1 := Post(st, nh, q, d0, m);
    assert Taken(|w|, s, d, st1.pc[d]) == Taken(|w|, s, d, st.pc[d]);
    if s == q {
      SendFromSelf(st.chan[q][d], Posted(w, nh, q, d, st.pc[q]), Taken(|w|, q, d, st.pc[d]), d == d0, m);
    }
  }

  /** What a send adds to the sender's posted messages. */
  lemma SendAppends<T>(w: World<T>, nh: nat, q: nat, d: nat, k: nat, d0: nat, m: seq<T>)
    requires Conformant(w, nh) && q < |w| && d < |w| && (k == 0 || k == 2)
    requires k == 0 ==> d0 == Prev(q, |w|) && m == ToPrev(w[q], nh)
    requires k == 2 ==> d0 == Next(q, |w|) && m == ToNext(AfterHigh(w, nh, q), nh)
    ensures Posted(w, nh, q, d, k + 1) == Posted(w, nh, q, d, k) + (if d == d0 then [m] else [])
  {
  }

  lemma SendFromSelf<T>(c: seq<seq<T>>, p: seq<seq<T>>, t: nat, hit: bool, m: seq<T>)
    requires t <= |p| && c == p[t..]
    ensures var p1 := p + (if hit then [m] else []);
      t <= |p1| && (if hit then c + [m] else c) == p1[t..]
  {
  }

  /** Rank `q` makes one of its sends. */
  lemma SendOnTrack<T>(w: World<T>, nh: nat, st: State<T>, q: nat)
    requires OnTrack(w, nh, st) && q < |w| && (st.pc[q] == 0 || st.pc[q] == 2)
    ensures Step(FirstIn, st, nh, q).Some?
    ensures OnTrack(w, nh, Step(FirstIn, st, nh, q).value)
  {
    var n := |w|;
    var d0 := if st.pc[q] == 0 then Prev(q, n) else Next(q, n);
    var m := if st.pc[q] == 0 then ToPrev(st.buf[q], nh) else ToNext(st.buf[q], nh);
    var st1 := Post(st, nh, q, d0, m);
    assert Step(FirstIn, st, nh, q) == Some(st1);
    forall s, d | 0 <= s < n && 0 <= d < n
      ensures ChanOnTrack(w, nh, st1, s, d)
    {
      if s == q {
        SendAppends(w, nh, q, d, st.pc[q], d0, m);
      }
      SendPair(w, nh, st, q, d0, m, s, d);
    }
    forall r | 0 <= r < n
      ensures st1.buf[r] == BufAt(w, nh, r, st1.pc[r])
    {
    }
  }

  /** A receive takes the oldest message of exactly one channel and moves
      only its receiver on. */
  lemma RecvPair<T>(w: World<T>, nh: nat, st: State<T>, st1: State<T>, q: nat, s0: nat, s: nat, d: nat)
    requires Conformant(w, nh) && WellFormed(st, nh) && WellFormed(st1, nh)
    requires |st.buf| == |w| && |st1.buf| == |w|
    requires q < |w| && s0 < |w| && s < |w| && d < |w| && ChanOnTrack(w, nh, st, s, d)
    requires |st.chan[s0][q]| > 0
    requires st1.pc == st.pc[q := st.pc[q] + 1]
    requires st1.chan == st.chan[s0 := st.chan[s0][q := st.chan[s0][q][1..]]]
    requires Posted(w, nh, s, d, st1.pc[s]) == Posted(w, nh, s, d, st.pc[s])
    requires Taken(|w|, s, d, st1.pc[d]) == Taken(|w|, s, d, st.pc[d]) + (if s == s0 && d == q then 1 else 0)
    ensures ChanOnTrack(w, nh, st1, s, d)
  {
  }

  /** A receive changes nothing its receiver has posted. */
  lemma RecvKeepsPosted<T>(w: World<T>, nh: nat, s: nat, d: nat, k: nat)
    requires Conformant(w, nh) && s < |w| && d < |w| && (k == 1 || k == 3)
    ensures Posted(w, nh, s, d, k + 1) == Posted(w, nh, s, d, k)
  {
  }

  /** A receive counts one more message from the rank it receives from,
      and none from any other. */
  lemma RecvCounts(n: nat, q: nat, k: nat, s0: nat, s: nat)
    requires q < n && s < n && (k == 1 || k == 3)
    requires s0 == if k == 1 then Next(q, n) else Prev(q, n)
    ensures Taken(n, s, q, k + 1) == Taken(n, s, q, k) + (if s == s0 then 1 else 0)
  {
  }

  /** What a receive does to the state when its message is there and has
      the halo's width. */
  lemma RecvStep<T>(st: State<T>, nh: nat, q: nat, s0: nat)
    requires WellFormed(st, nh) && q < |st.buf| && (st.pc[q] == 1 || st.pc[q] == 3)
    requires s0 == if st.pc[q] == 1 then Next(q, |st.buf|) else Prev(q, |st.buf|)
    requires |st.chan[s0][q]| > 0 && |st.chan[s0][q][0]| == nh
    ensures Step(FirstIn, st, nh, q) == Some(State(
      st.pc[q := st.pc[q] + 1],
      st.buf[q := if st.pc[q] == 1 then RecvHigh(st.buf[q], st.chan[s0][q][0], nh)
                  else RecvLow(st.buf[q], st.chan[s0][q][0], nh)],
      st.chan[s0 := st.chan[s0][q := st.chan[s0][q][1..]]]))
  {
  }

  /** The state after a receive is on track when the receiver's buffer is
      the one its new counter calls for. */
  lemma RecvLands<T>(w: World<T>, nh: nat, st: State<T>, st1: State<T>, q: nat, s0: nat)
    requires OnTrack(w, nh, st) && WellFormed(st1, nh) && |st1.buf| == |w|
    requires q < |w| && (st.pc[q] == 1 || st.pc[q] == 3)
    requires s0 == if st.pc[q] == 1 then Next(q, |w|) else Prev(q, |w|)
    requires |st.chan[s0][q]| > 0
    requires st1.pc == st.pc[q := st.pc[q] + 1]
    requires st1.buf == st.buf[q := BufAt(w, nh, q, st.pc[q] + 1)]
    requires st1.chan == st.chan[s0 := st.chan[s0][q := st.chan[s0][q][1..]]]
    ensures OnTrack(w, nh, st1)
  {
    var n := |w|;
    var k := st.pc[q];
    forall s, d | 0 <= s < n && 0 <= d < n
      ensures ChanOnTrack(w, nh, st1, s, d)
    {
      if s == q {
        RecvKeepsPosted(w, nh, s, d, k);
      }
      if d == q {
        RecvCounts(n, q, k, s0, s);
      }
      RecvPair(w, nh, st, st1, q, s0, s, d);
    }
  }

  /** Rank `q` makes one of its receives, when it can. */
  lemma RecvOnTrack<T>(w: World<T>, nh: nat, st: State<T>, q: nat)
    requires OnTrack(w, nh, st) && q < |w| && (st.pc[q] == 1 || st.pc[q] == 3)
    requires Step(FirstIn, st, nh, q).Some?
    ensures OnTrack(w, nh, Step(FirstIn, st, nh, q).value)
  {
    var n := |w|;
    var k := st.pc[q];
    var s0 := if k == 1 then Next(q, n) else Prev(q, n);
    assert |st.chan[s0][q]| > 0;
    var m := st.chan[s0][q][0];
    if k == 1 {
      HighQueue(w, nh, st, q);
      assert m == ToPrev(w[s0], nh);
    } else {
      LowQueue(w, nh, st, q);
      assert m == ToNext(AfterHigh(w, nh, s0), nh);
    }
    RecvStep(st, nh, q, s0);
    var st1 := Step(FirstIn, st, nh, q).value;
    assert st1.buf[q] == BufAt(w, nh, q, k + 1);
    assert st1.buf == st.buf[q := BufAt(w, nh, q, k + 1)];
    RecvLands(w, nh, st, st1, q, s0);
  }

  /** Whatever rank moves, a first-in first-out state stays on track. */
  lemma StepOnTrack<T>(w: World<T>, nh: nat, st: State<T>, q: nat)
    requires OnTrack(w, nh, st) && q < |w| && Step(FirstIn, st, nh, q).Some?
    ensures OnTrack(w, nh, Step(FirstIn, st, nh, q).value)
  {
    if st.pc[q] == 0 || st.pc[q] == 2 {
      SendOnTrack(w, nh, st, q);
    } else {
      RecvOnTrack(w, nh, st, q);
    }
  }

  /** Every first-in first-out run, in any interleaving of the ranks, keeps
      every buffer and channel on track. */
  lemma {:induction false} RunOnTrack<T>(w: World<T>, nh: nat, sched: seq<nat>)
    requires Conformant(w, nh)
    ensures Execute(FirstIn, w, nh, sched).Some? ==> OnTrack(w, nh, Execute(FirstIn, w, nh, sched).value)
  {
    if |sched| == 0 {
      InitOnTrack(w, nh);
    } else {
      var before := Execute(FirstIn, w, nh, sched[..|sched| - 1]);
      RunOnTrack(w, nh, sched[..|sched| - 1]);
      var q := sched[|sched| - 1];
      if before.Some? && q < |w| && Step(FirstIn, before.value, nh, q).Some? {
        StepOnTrack(w, nh, before.value, q);
      }
    }
  }

  /** Once every rank is through its four statements, the buffers are those
      of the simultaneous exchange and no message is left in flight. */
  lemma DoneIsHalo<T>(w: World<T>, nh: nat, st: State<T>)
    requires OnTrack(w, nh, st) && Done(st)
    ensures st.buf == Halo(w, nh)
    ensures forall s, d :: 0 <= s < |w| && 0 <= d < |w| ==> st.chan[s][d] == []
  {
    var h := Halo(w, nh);
    forall r | 0 <= r < |w|
      ensures st.buf[r] == h[r]
    {
      HaloAtRefreshes(w, nh, r);
    }
    forall s, d | 0 <= s < |w| && 0 <= d < |w|
      ensures st.chan[s][d] == []
    {
      assert ChanOnTrack(w, nh, st, s, d);
      PairingIsBijection(d, s, |w|);
      PairingIsBijection(s, d, |w|);
    }
  }

  /** The first rank whose counter is `k`, or `|pc|` when there is none. */
  function Find(pc: seq<nat>, k: nat): (i: nat)
    ensures i <= |pc|
    ensures i < |pc| ==> pc[i] == k
    ensures forall j :: 0 <= j < i ==> pc[j] != k
  {
    if |pc| == 0 then 0
    else if pc[0] == k then 0
    else 1 + Find(pc[1..], k)
  }

  /** A rank that can move in an unfinished first-in first-out run: one
      that has a send ahead of it, else one waiting for its high halo, else
      one waiting for its low halo. */
  function Ready<T>(w: World<T>, nh: nat, st: State<T>): (q: nat)
    requires OnTrack(w, nh, st) && !Done(st)
    ensures q < |w| && Step(FirstIn, st, nh, q).Some?
  {
    var a := Find(st.pc, 0);
    var b := Find(st.pc, 2);
    var c := Find(st.pc, 1);
    var e := Find(st.pc, 3);
    if a < |w| then
      SendOnTrack(w, nh, st, a);
      a
    else if b < |w| then
      SendOnTrack(w, nh, st, b);
      b
    else if c < |w| then
      ReadyHigh(w, nh, st, c);
      c
    else
      ReadyLow(w, nh, st, e);
      e
  }

  /** With no send left to make, a rank waiting for its high halo can take
      it. */
  lemma ReadyHigh<T>(w: World<T>, nh: nat, st: State<T>, q: nat)
    requires OnTrack(w, nh, st) && q < |w| && st.pc[q] == 1
    requires forall r :: 0 <= r < |w| ==> st.pc[r] != 0
    ensures Step(FirstIn, st, nh, q).Some?
  {
    var s := Next(q, |w|);
    HighQueue(w, nh, st, q);
    assert |st.chan[s][q][0]| == nh;
    RecvStep(st, nh, q, s);
  }

  /** With every rank past its first receive, a rank waiting for its low
      halo can take it. */
  lemma ReadyLow<T>(w: World<T>, nh: nat, st: State<T>, q: nat)
    requires OnTrack(w, nh, st) && !Done(st)
    requires forall r :: 0 <= r < |w| ==> st.pc[r] != 0 && st.pc[r] != 1 && st.pc[r] != 2
    requires q == Find(st.pc, 3)
    ensures q < |w| && Step(FirstIn, st, nh, q).Some?
  {
    var s := Prev(q, |w|);
    LowQueue(w, nh, st, q);
    assert |st.chan[s][q][0]| == nh;
    RecvStep(st, nh, q, s);
  }

  // ---------------------------------------------------------------------
  // First-in first-out runs agree with the simultaneous exchange

  /** A schedule one entry longer runs exactly when its prefix does and the
      last named rank can then move. */
  lemma ExecuteSnoc<T>(order: Order, w: World<T>, nh: nat, sched: seq<nat>, q: nat)
    requires Conformant(w, nh)
    ensures Execute(order, w, nh, sched + [q]) == Then(order, Execute(order, w, nh, sched), nh, q)
  {
    assert (sched + [q])[..|sched|] == sched;
  }

  /** A first-in first-out run never takes more than four steps per rank. */
  lemma FifoBounded<T>(w: World<T>, nh: nat, sched: seq<nat>)
    requires Conformant(w, nh)
    ensures Execute(FirstIn, w, nh, sched).Some? ==> |sched| <= 4 * |w|
  {
    var r := Execute(FirstIn, w, nh, sched);
    if r.Some? {
      RunOnTrack(w, nh, sched);
      TotalBound(r.value.pc);
    }
  }

  /** After exactly four steps per rank every buffer holds what `Halo`
      computes, whatever order the ranks moved in. */
  lemma FifoMatchesHalo<T>(w: World<T>, nh: nat, sched: seq<nat>)
    requires Conformant(w, nh)
    ensures Execute(FirstIn, w, nh, sched).Some? && |sched| == 4 * |w|
      ==> Execute(FirstIn, w, nh, sched).value.buf == Halo(w, nh)
  {
    var r := Execute(FirstIn, w, nh, sched);
    if r.Some? && |sched| == 4 * |w| {
      RunOnTrack(w, nh, sched);
      TotalBound(r.value.pc);
      DoneIsHalo(w, nh, r.value);
    }
  }

  /** A first-in first-out run never deadlocks: until every rank has made
      all four statements, some rank can make its next one. */
  function Unstuck<T>(w: World<T>, nh: nat, sched: seq<nat>): (q: nat)
    requires Conformant(w, nh)
    requires Execute(FirstIn, w, nh, sched).Some? && |sched| < 4 * |w|
    ensures q < |w| && Execute(FirstIn, w, nh, sched + [q]).Some?
  {
    var st := Execute(FirstIn, w, nh, sched).value;
    RunOnTrack(w, nh, sched);
    TotalBound(st.pc);
    var q := Ready(w, nh, st);
    ExecuteSnoc(FirstIn, w, nh, sched, q);
    q
  }

  /** Extends a schedule that runs into one that runs to the end, letting
      some rank that can move go next each time. */
  function Complete<T>(w: World<T>, nh: nat, sched: seq<nat>): (full: seq<nat>)
    requires Conformant(w, nh) && Execute(FirstIn, w, nh, sched).Some?
    ensures |full| == 4 * |w| && |sched| <= |full| && full[..|sched|] == sched
    ensures Execute(FirstIn, w, nh, full).Some?
    decreases 4 * |w| - |sched|
  {
    FifoBounded(w, nh, sched);
    if |sched| == 4 * |w| then sched
    else
      var next := sched + [Unstuck(w, nh, sched)];
      var full := Complete(w, nh, next);
      assert full[..|sched|] == next[..|sched|] == sched;
      full
  }

  /** The exchange always completes over first-in first-out channels, and
      it completes with the buffers `Halo` computes. */
  lemma FifoCompletes<T>(w: World<T>, nh: nat)
    requires Conformant(w, nh)
    ensures var full := Complete(w, nh, []);
      && Execute(FirstIn, w, nh, full).Some?
      && Execute(FirstIn, w, nh, full).value.buf == Halo(w, nh)
  {
    assert Execute(FirstIn, w, nh, []).Some?;
    FifoMatchesHalo(w, nh, Complete(w, nh, []));
  }

  // ---------------------------------------------------------------------
  // Why the order of delivery matters

  /** An interleaving of two ranks: rank 0 sends, rank 1 sends, receives and
      sends again, then rank 0 runs to the end, then rank 1 finishes. */
  function SwapSchedule(): seq<nat>
  {
    [0, 1, 1, 1, 0, 0, 0, 1]
  }

  /** The states of the last-in first-out run of `SwapSchedule` on two ranks,
      after each of its eight steps.  `a`, `b` are rank 0's messages to its
      previous and next neighbour, `c`, `d` rank 1's; with two ranks both
      neighbours of a rank are the other rank, so `c` and `d` share the
      channel from 1 to 0. */
  function SwapRun<T>(w: World<T>, nh: nat, k: nat): State<T>
    requires |w| == 2 && Conformant(w, nh) && k <= 8
  {
    var a, b := ToPrev(w[0], nh), ToNext(w[0], nh);
    var c, d := ToPrev(w[1], nh), ToNext(w[1], nh);
    var hi0, hi1 := RecvHigh(w[0], d, nh), RecvHigh(w[1], a, nh);
    var e: seq<seq<seq<T>>> := [[], []];
    match k
    case 0 => State([0, 0], w, [e, e])
    case 1 => State([1, 0], w, [[[], [a]], e])
    case 2 => State([1, 1], w, [[[], [a]], [[c], []]])
    case 3 => State([1, 2], [w[0], hi1], [e, [[c], []]])
    case 4 => State([1, 3], [w[0], hi1], [e, [[c, d], []]])
    case 5 => State([2, 3], [hi0, hi1], [e, [[c], []]])
    case 6 => State([3, 3], [hi0, hi1], [[[], [b]], [[c], []]])
    case 7 => State([4, 3], [RecvLow(hi0, c, nh), hi1], [[[], [b]], e])
    case 8 => State([4, 4], [RecvLow(hi0, c, nh), RecvLow(hi1, b, nh)], [e, e])
  }

  /** On any two ranks the complete last-in first-out run of `SwapSchedule`
      gives rank 0 the high-halo message of rank 1 in its low halo and the
      low-halo message in its high halo: the reverse of what `Halo`
      computes, and every complete first-in first-out run reaches
      (`FifoMatchesHalo`). */
  lemma LastInSwapsHalos<T>(w: World<T>, nh: nat)
    requires |w| == 2 && Conformant(w, nh)
    ensures var run := Execute(LastIn, w, nh, SwapSchedule());
      && |SwapSchedule()| == 4 * |w|
      && run.Some?
      && run.value.buf[0] == ToPrev(w[1], nh) + Owned(w[0], nh) + ToNext(w[1], nh)
      && Halo(w, nh)[0] == ToNext(w[1], nh) + Owned(w[0], nh) + ToPrev(w[1], nh)
  {
    var sched := SwapSchedule();
    var states := seq(9, k requires 0 <= k <= 8 => SwapRun(w, nh, k));
    forall k | 0 <= k < 8
      ensures sched[k] < |w| && WellFormed(states[k], nh) && |states[k].buf| == |w|
      ensures Step(LastIn, states[k], nh, sched[k]) == Some(states[k + 1])
    {
      SwapStep(w, nh, k);
    }
    assert states[0] == Init(w) by {
      InitIsSwap0(w, nh);
    }
    ExecuteChain(LastIn, w, nh, sched, states);
    var hi0 := RecvHigh(w[0], ToNext(w[1], nh), nh);
    LowAfterHigh(w[0], ToNext(w[1], nh), ToPrev(w[1], nh), nh);
    assert states[8].buf[0] == RecvLow(hi0, ToPrev(w[1], nh), nh);
  }

  /** So whenever rank 1's two messages differ, last-in first-out delivery
      leaves rank 0 with a buffer `Halo` does not produce. */
  lemma LastInGoesWrong<T>(w: World<T>, nh: nat)
    requires |w| == 2 && Conformant(w, nh) && ToPrev(w[1], nh) != ToNext(w[1], nh)
    ensures var run := Execute(LastIn, w, nh, SwapSchedule());
      run.Some? && run.value.buf[0] != Halo(w, nh)[0]
  {
    LastInSwapsHalos(w, nh);
    var c, d, o := ToPrev(w[1], nh), ToNext(w[1], nh), Owned(w[0], nh);
    assert (c + o + d)[..nh] == c;
    assert (d + o + c)[..nh] == d;
  }

  /** Two ranks, halo width 1, owned values `1, 2` and `10, 11`: rank 0
      ends with `[10, 1, 2, 11]` instead of `[11, 1, 2, 10]`. */
  lemma TwoRanksGoWrong(w: World<int>)
    requires w == [[0, 1, 2, 0], [0, 10, 11, 0]]
    ensures Conformant(w, 1)
    ensures var run := Execute(LastIn, w, 1, SwapSchedule());
      && run.Some?
      && run.value.buf[0] == [10, 1, 2, 11]
      && Halo(w, 1)[0] == [11, 1, 2, 10]
  {
    assert Conformant(w, 1);
    LastInSwapsHalos(w, 1);
    var c, d, o := ToPrev(w[1], 1), ToNext(w[1], 1), Owned(w[0], 1);
    assert Owned(w[1], 1) == [10, 11];
    assert o == [1, 2];
    assert c == [10] && d == [11];
    assert c + o + d == [10, 1, 2, 11];
    assert d + o + c == [11, 1, 2, 10];
  }

  lemma InitIsSwap0<T>(w: World<T>, nh: nat)
    requires |w| == 2 && Conformant(w, nh)
    ensures Init(w) == SwapRun(w, nh, 0)
  {
    var e: seq<seq<T>> := [];
    assert Init(w).pc == [0, 0];
    assert seq(2, _ => e) == [e, e];
    assert Init(w).chan == [[e, e], [e, e]];
  }

  /** A schedule runs through a given chain of states when each entry moves
      one state to the next. */
  lemma {:induction false} ExecuteChain<T>(order: Order, w: World<T>, nh: nat, sched: seq<nat>, states: seq<State<T>>)
    requires Conformant(w, nh) && |states| == |sched| + 1 && states[0] == Init(w)
    requires forall k :: 0 <= k < |sched| ==> sched[k] < |w| && WellFormed(states[k], nh) && |states[k].buf| == |w|
    requires forall k :: 0 <= k < |sched| ==> Step(order, states[k], nh, sched[k]) == Some(states[k + 1])
    ensures Execute(order, w, nh, sched) == Some(states[|sched|])
  {
    if |sched| > 0 {
      var n := |sched| - 1;
      ExecuteChain(order, w, nh, sched[..n], states[..n + 1]);
      ExecuteSnoc(order, w, nh, sched[..n], sched[n]);
      assert sched[..n] + [sched[n]] == sched;
    }
  }

  /** Each step of the run is one the ranks can take. */
  lemma SwapStep<T>(w: World<T>, nh: nat, k: nat)
    requires |w| == 2 && Conformant(w, nh) && k < 8
    ensures SwapSchedule()[k] < 2 && WellFormed(SwapRun(w, nh, k), nh) && |SwapRun(w, nh, k).buf| == 2
    ensures Step(LastIn, SwapRun(w, nh, k), nh, SwapSchedule()[k]) == Some(SwapRun(w, nh, k + 1))
  {
    if k == 0 {
      SwapStep0(w, nh);
    } else if k == 1 {
      SwapStep1(w, nh);
    } else if k == 2 {
      SwapStep2(w, nh);
    } else if k == 3 {
      SwapStep3(w, nh);
    } else if k == 4 {
      SwapStep4(w, nh);
    } else if k == 5 {
      SwapStep5(w, nh);
    } else if k == 6 {
      SwapStep6(w, nh);
    } else {
      SwapStep7(w, nh);
    }
  }

  lemma SwapStep0<T>(w: World<T>, nh: nat)
    requires |w| == 2 && Conformant(w, nh)
    ensures WellFormed(SwapRun(w, nh, 0), nh) && |SwapRun(w, nh, 0).buf| == 2
    ensures Step(LastIn, SwapRun(w, nh, 0), nh, 0) == Some(SwapRun(w, nh, 1))
  {
    var st, st1 := SwapRun(w, nh, 0), SwapRun(w, nh, 1);
    var a := ToPrev(w[0], nh);
    assert WellFormed(st, nh);
    SendIs(LastIn, st, nh, 0, 1, a);
    assert st.chan[0][1] == [] && st.chan[0][1] + [a] == [a];
    var row := st.chan[0][1 := st.chan[0][1] + [a]];
    assert row == [[], [a]];
    assert st.chan[0 := row] == st1.chan;
    assert st.pc[0 := 1] == st1.pc;
  }

  lemma SwapStep1<T>(w: World<T>, nh: nat)
    requires |w| == 2 && Conformant(w, nh)
    ensures WellFormed(SwapRun(w, nh, 1), nh) && |SwapRun(w, nh, 1).buf| == 2
    ensures Step(LastIn, SwapRun(w, nh, 1), nh, 1) == Some(SwapRun(w, nh, 2))
  {
    var st, st1 := SwapRun(w, nh, 1), SwapRun(w, nh, 2);
    var c := ToPrev(w[1], nh);
    assert WellFormed(st, nh);
    SendIs(LastIn, st, nh, 1, 0, c);
    assert st.chan[1][0] == [] && st.chan[1][0] + [c] == [c];
    var row := st.chan[1][0 := st.chan[1][0] + [c]];
    assert row == [[c], []];
    assert st.chan[1 := row] == st1.chan;
    assert st.pc[1 := 1] == st1.pc;
  }

  lemma SwapStep2<T>(w: World<T>, nh: nat)
    requires |w| == 2 && Conformant(w, nh)
    ensures WellFormed(SwapRun(w, nh, 2), nh) && |SwapRun(w, nh, 2).buf| == 2
    ensures Step(LastIn, SwapRun(w, nh, 2), nh, 1) == Some(SwapRun(w, nh, 3))
  {
    var st, st1 := SwapRun(w, nh, 2), SwapRun(w, nh, 3);
    var a := ToPrev(w[0], nh);
    assert WellFormed(st, nh);
    assert st.chan[0][1] == [a] && Take(LastIn, [a]) == (a, []);
    RecvIs(LastIn, st, nh, 1, 0, a, []);
    var row := st.chan[0][1 := []];
    assert row == [[], []];
    assert st.chan[0 := row] == st1.chan;
    assert st.buf[1 := RecvHigh(w[1], a, nh)] == st1.buf;
    assert st.pc[1 := 2] == st1.pc;
  }

  lemma SwapStep3<T>(w: World<T>, nh: nat)
    requires |w| == 2 && Conformant(w, nh)
    ensures WellFormed(SwapRun(w, nh, 3), nh) && |SwapRun(w, nh, 3).buf| == 2
    ensures Step(LastIn, SwapRun(w, nh, 3), nh, 1) == Some(SwapRun(w, nh, 4))
  {
    var st, st1 := SwapRun(w, nh, 3), SwapRun(w, nh, 4);
    var a, c, d := ToPrev(w[0], nh), ToPrev(w[1], nh), ToNext(w[1], nh);
    ToNextAfterHigh(w[1], a, nh);
    assert WellFormed(st, nh);
    assert ToNext(st.buf[1], nh) == d;
    SendIs(LastIn, st, nh, 1, 0, d);
    assert st.chan[1][0] + [d] == [c, d];
    var row := st.chan[1][0 := [c, d]];
    assert row == [[c, d], []];
    assert st.chan[1 := row] == st1.chan;
    assert st.pc[1 := 3] == st1.pc;
  }

  lemma SwapStep4<T>(w: World<T>, nh: nat)
    requires |w| == 2 && Conformant(w, nh)
    ensures WellFormed(SwapRun(w, nh, 4), nh) && |SwapRun(w, nh, 4).buf| == 2
    ensures Step(LastIn, SwapRun(w, nh, 4), nh, 0) == Some(SwapRun(w, nh, 5))
  {
    var st, st1 := SwapRun(w, nh, 4), SwapRun(w, nh, 5);
    var c, d := ToPrev(w[1], nh), ToNext(w[1], nh);
    assert WellFormed(st, nh);
    assert st.chan[1][0] == [c, d] && [c, d][..1] == [c];
    assert Take(LastIn, [c, d]) == (d, [c]);
    RecvIs(LastIn, st, nh, 0, 1, d, [c]);
    var row := st.chan[1][0 := [c]];
    assert row == [[c], []];
    assert st.chan[1 := row] == st1.chan;
    assert st.buf[0 := RecvHigh(w[0], d, nh)] == st1.buf;
    assert st.pc[0 := 2] == st1.pc;
  }

  lemma SwapStep5<T>(w: World<T>, nh: nat)
    requires |w| == 2 && Conformant(w, nh)
    ensures WellFormed(SwapRun(w, nh, 5), nh) && |SwapRun(w, nh, 5).buf| == 2
    ensures Step(LastIn, SwapRun(w, nh, 5), nh, 0) == Some(SwapRun(w, nh, 6))
  {
    var st, st1 := SwapRun(w, nh, 5), SwapRun(w, nh, 6);
    var b, d := ToNext(w[0], nh), ToNext(w[1], nh);
    ToNextAfterHigh(w[0], d, nh);
    assert WellFormed(st, nh);
    assert ToNext(st.buf[0], nh) == b;
    SendIs(LastIn, st, nh, 0, 1, b);
    assert st.chan[0][1] == [] && st.chan[0][1] + [b] == [b];
    var row := st.chan[0][1 := st.chan[0][1] + [b]];
    assert row == [[], [b]];
    assert st.chan[0 := row] == st1.chan;
    assert st.pc[0 := 3] == st1.pc;
  }

  lemma SwapStep6<T>(w: World<T>, nh: nat)
    requires |w| == 2 && Conformant(w, nh)
    ensures WellFormed(SwapRun(w, nh, 6), nh) && |SwapRun(w, nh, 6).buf| == 2
    ensures Step(LastIn, SwapRun(w, nh, 6), nh, 0) == Some(SwapRun(w, nh, 7))
  {
    var st, st1 := SwapRun(w, nh, 6), SwapRun(w, nh, 7);
    var c := ToPrev(w[1], nh);
    assert WellFormed(st, nh);
    assert st.chan[1][0] == [c] && Take(LastIn, [c]) == (c, []);
    RecvIs(LastIn, st, nh, 0, 1, c, []);
    var row := st.chan[1][0 := []];
    assert row == [[], []];
    assert st.chan[1 := row] == st1.chan;
    assert st.buf[0 := RecvLow(st.buf[0], c, nh)] == st1.buf;
    assert st.pc[0 := 4] == st1.pc;
  }

  lemma SwapStep7<T>(w: World<T>, nh: nat)
    requires |w| == 2 && Conformant(w, nh)
    ensures WellFormed(SwapRun(w, nh, 7), nh) && |SwapRun(w, nh, 7).buf| == 2
    ensures Step(LastIn, SwapRun(w, nh, 7), nh, 1) == Some(SwapRun(w, nh, 8))
  {
    var st, st1 := SwapRun(w, nh, 7), SwapRun(w, nh, 8);
    var b := ToNext(w[0], nh);
    assert WellFormed(st, nh);
    assert st.chan[0][1] == [b] && Take(LastIn, [b]) == (b, []);
    RecvIs(LastIn, st, nh, 1, 0, b, []);
    var row := st.chan[0][1 := []];
    assert row == [[], []];
    assert st.chan[0 := row] == st1.chan;
    assert st.buf[1 := RecvLow(st.buf[1], b, nh)] == st1.buf;
    assert st.pc[1 := 4] == st1.pc;
  }

  /** A send, spelled out. */
  lemma SendIs<T>(order: Order, st: State<T>, nh: nat, q: nat, d0: nat, m: seq<T>)
    requires WellFormed(st, nh) && q < |st.buf| && (st.pc[q] == 0 || st.pc[q] == 2)
    requires d0 == if st.pc[q] == 0 then Prev(q, |st.buf|) else Next(q, |st.buf|)
    requires m == if st.pc[q] == 0 then ToPrev(st.buf[q], nh) else ToNext(st.buf[q], nh)
    ensures Step(order, st, nh, q) == Some(Post(st, nh, q, d0, m))
  {
  }

  /** A receive, spelled out. */
  lemma RecvIs<T>(order: Order, st: State<T>, nh: nat, q: nat, s0: nat, m: seq<T>, rest: seq<seq<T>>)
    requires WellFormed(st, nh) && q < |st.buf| && (st.pc[q] == 1 || st.pc[q] == 3)
    requires s0 == if st.pc[q] == 1 then Next(q, |st.buf|) else Prev(q, |st.buf|)
    requires |st.chan[s0][q]| > 0 && Take(order, st.chan[s0][q]) == (m, rest) && |m| == nh
    ensures Step(order, st, nh, q) == Some(State(
      st.pc[q := st.pc[q] + 1],
      st.buf[q := if st.pc[q] == 1 then RecvHigh(st.buf[q], m, nh) else RecvLow(st.buf[q], m, nh)],
      st.chan[s0 := st.chan[s0][q := rest]]))
  {
  }
}

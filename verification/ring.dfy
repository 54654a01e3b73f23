/** The ring topology: rank `r` talks to `r-1` and `r+1`, with rank 0 and
    rank `size-1` joined so that the ranks form a cycle.
 */
module Ring {

  /** The previous neighbour (`i0rm1`, and `msg_dest` of the hello exchange):
      `rank-1`, except that rank 0 wraps to `size-1`. */
  function Prev(rank: int, size: int): (p: int)
    requires 0 <= rank < size
    ensures 0 <= p < size
  {
    if rank == 0 then size - 1 else rank - 1
  }

  /** The next neighbour (`i0rp1`, and `msg_srce` of the hello exchange):
      `rank+1`, except that rank `size-1` wraps to 0. */
  function Next(rank: int, size: int): (n: int)
    requires 0 <= rank < size
    ensures 0 <= n < size
    ensures Prev(n, size) == rank
  {
    if rank == size - 1 then 0 else rank + 1
  }

  /** The wrap-around rule is arithmetic modulo `size`. */
  lemma Modular(rank: int, size: int)
    requires 0 <= rank < size
    ensures Prev(rank, size) == (rank - 1 + size) % size
    ensures Next(rank, size) == (rank + 1) % size
  {
    if rank == 0 {
      assert (rank - 1 + size) % size == size - 1;
    } else {
      assert (rank - 1 + size) % size == rank - 1;
    }
    if rank == size - 1 {
      assert (rank + 1) % size == 0;
    } else {
      assert (rank + 1) % size == rank + 1;
    }
  }

  /** Prev and Next undo each other, so both are bijections of `[0, size)`. */
  lemma Inverse(rank: int, size: int)
    requires 0 <= rank < size
    ensures Next(Prev(rank, size), size) == rank
    ensures Prev(Next(rank, size), size) == rank
  {
  }

  /** The two ends of the ring are joined. */
  lemma WrapAround(size: int)
    requires size >= 1
    ensures Prev(0, size) == size - 1
    ensures Next(size - 1, size) == 0
  {
  }

  /** On a single rank, the rank is its own neighbour on both sides. */
  lemma SelfNeighbour(rank: int, size: int)
    requires 0 <= rank < size && size == 1
    ensures Prev(rank, size) == rank && Next(rank, size) == rank
  {
  }

  /** The two neighbours coincide exactly when there are at most two ranks;
      then both halo messages of a rank travel on the same channel. */
  lemma SharedNeighbour(rank: int, size: int)
    requires 0 <= rank < size
    ensures Prev(rank, size) == Next(rank, size) <==> size <= 2
  {
  }

  /** The hello exchange pairs senders and receivers one to one: rank `s`
      sends to `Prev(s)` and rank `r` receives from `Next(r)`, and the
      message `s` sends is the one `r` waits for exactly when `s == Next(r)`. */
  lemma PairingIsBijection(r: int, s: int, size: int)
    requires 0 <= r < size && 0 <= s < size
    ensures Prev(s, size) == r <==> s == Next(r, size)
  {
  }

  /** What each rank receives in the hello exchange: rank `r` gets the
      message of `Next(r)`.  The result is the sent messages rotated left by
      one, so every message is received exactly once. */
  function HelloRound<T>(sent: seq<T>): (received: seq<T>)
    requires |sent| >= 1
    ensures |received| == |sent|
    ensures received == sent[1..] + sent[..1]
    ensures multiset(received) == multiset(sent)
  {
    var received := seq(|sent|, r requires 0 <= r < |sent| => sent[Next(r, |sent|)]);
    assert received == sent[1..] + sent[..1];
    assert sent == sent[..1] + sent[1..];
    received
  }
}

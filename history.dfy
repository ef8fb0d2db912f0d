/** The bounded look-back window of earlier generations used to detect
    still lifes and oscillators. */
module History {

  /** Number of earlier generations the board remembers. */
  const Capacity: nat := 10

  /** Record one more snapshot: appended while the window has room, and once
      it is full the oldest snapshot is dropped first. */
  function Push<T>(hist: seq<T>, snap: T): seq<T>
  {
    if |hist| < Capacity then hist + [snap] else hist[1..] + [snap]
  }

  /** The window drops its oldest entry only when it is full, keeps the order
      of the rest, and ends with the new snapshot. */
  lemma PushFifo<T>(hist: seq<T>, snap: T)
    requires |hist| <= Capacity
    ensures |Push(hist, snap)| <= Capacity
    ensures |hist| < Capacity ==> Push(hist, snap) == hist + [snap]
    ensures |hist| == Capacity ==> |Push(hist, snap)| == Capacity && Push(hist, snap)[..Capacity - 1] == hist[1..]
    ensures Push(hist, snap)[|Push(hist, snap)| - 1] == snap
  {
  }

  /** The last (at most) Capacity entries of a trace of generations, oldest first. */
  function Recent<T>(trace: seq<T>): (r: seq<T>)
    ensures |r| <= Capacity
  {
    if |trace| <= Capacity then trace else trace[|trace| - Capacity..]
  }

  /** Pushing onto the window of a trace gives the window of the longer trace:
      the window always holds exactly the most recent generations. */
  lemma PushRecent<T>(trace: seq<T>, snap: T)
    ensures Push(Recent(trace), snap) == Recent(trace + [snap])
  {
  }

  /** Some snapshot in the window equals s. */
  predicate Recurs<T(==)>(hist: seq<T>, s: T)
  {
    exists j :: 0 <= j < |hist| && hist[j] == s
  }

  /** s is one of the last Capacity generations of the trace: it occurs at a
      position j that lies |trace| - j <= Capacity generations back. */
  predicate SeenWithinWindow<T(==)>(trace: seq<T>, s: T)
  {
    exists j :: 0 <= j < |trace| && |trace| - j <= Capacity && trace[j] == s
  }

  /** The window of a trace holds s exactly when s is one of the last
      Capacity generations of the trace: a state that comes back after
      at most Capacity generations is seen, and nothing older is. */
  lemma RecursIffSeenWithinWindow<T>(trace: seq<T>, s: T)
    ensures Recurs(Recent(trace), s) <==> SeenWithinWindow(trace, s)
  {
  }
}

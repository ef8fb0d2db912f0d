/** Neighbour counting and the generation rule, as value-level definitions
    that the board's loops are proved against. */
module Rules {
  import opened Topology

  /** Number of true entries of s. Counted from the end, the way a loop that
      has visited a prefix adds the next entry. */
  function CountLive(s: seq<bool>): (n: nat)
    ensures n <= |s|
  {
    if s == [] then 0 else CountLive(s[..|s| - 1]) + (if s[|s| - 1] then 1 else 0)
  }

  /** Counting is additive over concatenation. */
  lemma {:induction false} CountLiveAppend(a: seq<bool>, b: seq<bool>)
    ensures CountLive(a + b) == CountLive(a) + CountLive(b)
    decreases |b|
  {
    if b == [] {
      assert a + b == a;
    } else {
      var b' := b[..|b| - 1];
      assert (a + b)[..|a + b| - 1] == a + b';
      CountLiveAppend(a, b');
    }
  }

  /** The count is zero exactly when no entry is true. */
  lemma {:induction false} CountLiveNone(s: seq<bool>)
    ensures CountLive(s) == 0 <==> forall k :: 0 <= k < |s| ==> !s[k]
    decreases |s|
  {
    if s != [] {
      var s' := s[..|s| - 1];
      CountLiveNone(s');
      assert forall k :: 0 <= k < |s'| ==> s'[k] == s[k];
    }
  }

  /** The count is |s| exactly when every entry is true. */
  lemma {:induction false} CountLiveAll(s: seq<bool>)
    ensures CountLive(s) == |s| <==> forall k :: 0 <= k < |s| ==> s[k]
    decreases |s|
  {
    if s != [] {
      var s' := s[..|s| - 1];
      CountLiveAll(s');
      assert forall k :: 0 <= k < |s'| ==> s'[k] == s[k];
    }
  }

  /** The states of the eight neighbour entries of cell i, in wiring order. */
  function NeighborStates(cur: seq<bool>, w: nat, h: nat, i: nat): (r: seq<bool>)
    requires |cur| == w * h && i < |cur|
    ensures |r| == NeighborCount
  {
    var nb := Neighbors(w, h, i);
    seq(NeighborCount, k requires 0 <= k < NeighborCount => cur[nb[k]])
  }

  /** Number of live neighbour entries of cell i. A cell that is wired in
      twice (on a board one or two cells wide or high) is counted twice. */
  function LivingNeighbors(cur: seq<bool>, w: nat, h: nat, i: nat): (n: nat)
    requires |cur| == w * h && i < |cur|
    ensures n <= NeighborCount
  {
    CountLive(NeighborStates(cur, w, h, i))
  }

  /** On a one-cell board all eight entries are the cell itself, so a live
      cell sees eight live neighbours and a dead one sees none. */
  lemma {:induction false} OneCellBoard(cur: seq<bool>, w: nat, h: nat)
    requires w * h == 1 && |cur| == 1
    ensures LivingNeighbors(cur, w, h, 0) == if cur[0] then NeighborCount else 0
  {
    var s := NeighborStates(cur, w, h, 0);
    forall k | 0 <= k < |s| ensures s[k] == cur[0] {
      assert Neighbors(w, h, 0)[k] < w * h;
    }
    if cur[0] { CountLiveAll(s); } else { CountLiveNone(s); }
  }

  /** What the rule pass leaves in the next-generation slot of one cell, given
      its state, its live-neighbour count and the slot's previous content: a
      live cell with fewer than two or more than three live neighbours writes
      false, a dead cell with exactly three writes true, and in every other
      case the slot is not written. */
  function RuleSlot(alive: bool, n: nat, slot: bool): bool
  {
    if alive then
      if n < 2 || n > 3 then false else slot
    else
      if n == 3 then true else slot
  }

  /** Conway's B3/S23 rule: born with three live neighbours, survives with two or three. */
  predicate Conway(alive: bool, n: nat)
  {
    n == 3 || (alive && n == 2)
  }

  /** A slot that already holds the cell's own state ends up with the B3/S23 outcome. */
  lemma RuleSlotCarried(alive: bool, n: nat)
    ensures RuleSlot(alive, n, alive) == Conway(alive, n)
  {
  }

  /** A slot that holds false ends up true only for a birth: a surviving live cell is lost. */
  lemma RuleSlotFromCleared(alive: bool, n: nat)
    ensures RuleSlot(alive, n, false) == (!alive && n == 3)
  {
  }

  /** The whole next-generation buffer after one rule pass over state cur,
      when the buffer held prev before. Every slot reads only cur. */
  function RulePass(cur: seq<bool>, prev: seq<bool>, w: nat, h: nat): (r: seq<bool>)
    requires |cur| == w * h && |prev| == |cur|
    ensures |r| == |cur|
  {
    seq(|cur|, i requires 0 <= i < |cur| => RuleSlot(cur[i], LivingNeighbors(cur, w, h, i), prev[i]))
  }

  /** The exact B3/S23 successor of state cur on the torus. */
  function Generation(cur: seq<bool>, w: nat, h: nat): (r: seq<bool>)
    requires |cur| == w * h
    ensures |r| == |cur|
  {
    seq(|cur|, i requires 0 <= i < |cur| => Conway(cur[i], LivingNeighbors(cur, w, h, i)))
  }

  /** With the buffer holding the current state, the rule pass computes exactly B3/S23. */
  lemma RulePassCarried(cur: seq<bool>, w: nat, h: nat)
    requires |cur| == w * h
    ensures RulePass(cur, cur, w, h) == Generation(cur, w, h)
  {
  }

  /** With an all-false buffer, a cell is alive afterwards exactly when it was
      dead with exactly three live neighbours. */
  lemma RulePassFromCleared(cur: seq<bool>, prev: seq<bool>, w: nat, h: nat, i: nat)
    requires |cur| == w * h && |prev| == |cur| && i < |cur|
    requires forall j :: 0 <= j < |prev| ==> !prev[j]
    ensures RulePass(cur, prev, w, h)[i] == (!cur[i] && LivingNeighbors(cur, w, h, i) == 3)
  {
  }

  /** An empty board stays empty, whichever of the two buffers the rule pass starts from. */
  lemma {:induction false} EmptyBoardStaysEmpty(cur: seq<bool>, prev: seq<bool>, w: nat, h: nat)
    requires |cur| == w * h && |prev| == |cur|
    requires forall j :: 0 <= j < |cur| ==> !cur[j]
    requires prev == cur || forall j :: 0 <= j < |prev| ==> !prev[j]
    ensures forall j :: 0 <= j < |cur| ==> !RulePass(cur, prev, w, h)[j]
  {
    forall j | 0 <= j < |cur|
      ensures !RulePass(cur, prev, w, h)[j]
    {
      var s := NeighborStates(cur, w, h, j);
      forall k | 0 <= k < |s| ensures !s[k] {
        assert s[k] == cur[Neighbors(w, h, j)[k]];
      }
      CountLiveNone(s);
    }
  }

  /** A list with at most one true entry counts at most one. */
  lemma {:induction false} CountLiveAtMostOne(s: seq<bool>)
    requires forall a, b :: 0 <= a < b < |s| && s[a] ==> !s[b]
    ensures CountLive(s) <= 1
    decreases |s|
  {
    if s != [] {
      var s' := s[..|s| - 1];
      assert forall k :: 0 <= k < |s'| ==> s'[k] == s[k];
      CountLiveAtMostOne(s');
      if s[|s| - 1] {
        CountLiveNone(s');
      }
    }
  }

  /** A single live cell on a board at least three cells wide and high has
      no live neighbour, and no dead cell sees more than one, so one rule
      pass (from either buffer the engine can hold) leaves the board empty. */
  lemma {:induction false} LoneCellDies(cur: seq<bool>, prev: seq<bool>, w: nat, h: nat, c: nat)
    requires 3 <= w && 3 <= h && |cur| == w * h && |prev| == |cur| && c < |cur|
    requires forall j :: 0 <= j < |cur| ==> (cur[j] <==> j == c)
    requires prev == cur || forall j :: 0 <= j < |prev| ==> !prev[j]
    ensures forall j :: 0 <= j < |cur| ==> !RulePass(cur, prev, w, h)[j]
  {
    forall j | 0 <= j < |cur|
      ensures !RulePass(cur, prev, w, h)[j]
    {
      var nb := Neighbors(w, h, j);
      var s := NeighborStates(cur, w, h, j);
      assert forall k :: 0 <= k < |s| ==> (s[k] <==> nb[k] == c);
      forall a, b | 0 <= a < b < |s| && s[a]
        ensures !s[b]
      {
        NeighborsDistinct(w, h, j, a, b);
      }
      CountLiveAtMostOne(s);
      if j == c {
        forall k | 0 <= k < |s| ensures !s[k] {
          NeighborIsSelf(w, h, j, k);
          assert Dx(k) != 0 || Dy(k) != 0;
        }
        CountLiveNone(s);
      }
    }
  }
}

/** The Game of Life board and its driver. The board keeps the current
    generation, a next-generation buffer that persists between steps, the
    neighbour wiring of every cell, and a look-back window of earlier
    generations; its methods update them in place. */
module Life {
  import opened Topology
  import opened Rules
  import opened History

  class GameField {
    const width: nat
    const height: nat
    const arrLength: nat
    /** State of every cell of the current generation, row-major. */
    const currGen: array<bool>
    /** Next-generation buffer. Cleared once at construction, afterwards
        written only where the rule changes a cell. */
    const nextGen: array<bool>
    /** neighbors[i, k] is the index of neighbour k (NW, N, NE, W, E, SW, S, SE) of cell i. */
    const neighbors: array2<int>
    /** The look-back window: earlier generations, oldest first. */
    var prevStates: seq<seq<bool>>
    /** Every generation that was current before a step, oldest first. */
    ghost var trace: seq<seq<bool>>

    /** Sizes agree and every cell is wired to its eight toroidal neighbours. */
    ghost predicate Grid()
      reads neighbors
    {
      arrLength == width * height &&
      currGen.Length == arrLength && nextGen.Length == arrLength && currGen != nextGen &&
      neighbors.Length0 == arrLength && neighbors.Length1 == NeighborCount &&
      forall i, k :: 0 <= i < arrLength && 0 <= k < NeighborCount ==>
        neighbors[i, k] == Neighbors(width, height, i)[k]
    }

    /** The window holds the last Capacity generations of the trace. */
    ghost predicate HistoryOk()
      reads this
    {
      prevStates == Recent(trace) &&
      (forall j :: 0 <= j < |trace| ==> |trace[j]| == arrLength) &&
      (forall j :: 0 <= j < |prevStates| ==> |prevStates[j]| == arrLength)
    }

    /** Before the first step the buffer is all false; after any step it
        equals the current generation. */
    ghost predicate BufferOk()
      reads this, currGen, nextGen
    {
      (prevStates == [] ==> forall i :: 0 <= i < nextGen.Length ==> !nextGen[i]) &&
      (prevStates != [] ==> nextGen[..] == currGen[..])
    }

    ghost predicate Valid()
      reads this, currGen, nextGen, neighbors
    {
      Grid() && HistoryOk() && BufferOk()
    }

    /** A board of the given size whose cells start in the given states. */
    constructor (width: nat, height: nat, states: seq<bool>)
      requires |states| == width * height
      ensures Valid()
      ensures this.width == width && this.height == height
      ensures currGen[..] == states && prevStates == [] && trace == []
      ensures forall i :: 0 <= i < nextGen.Length ==> !nextGen[i]
      ensures fresh(currGen) && fresh(nextGen) && fresh(neighbors)
    {
      this.width := width;
      this.height := height;
      arrLength := width * height;
      currGen := new bool[width * height];
      nextGen := new bool[width * height];
      neighbors := new int[width * height, NeighborCount];
      prevStates := [];
      trace := [];
      new;
      GenerateGameField(states);
    }

    /** State of cell i. */
    method GetState(i: nat) returns (alive: bool)
      requires i < currGen.Length
      ensures alive == currGen[i]
    {
      alive := currGen[i];
    }

    /** Set the state of cell i; no other cell changes. */
    method SetState(i: nat, alive: bool)
      requires i < currGen.Length
      modifies currGen
      ensures currGen[..] == old(currGen[..])[i := alive]
    {
      currGen[i] := alive;
    }

    /** Reset every cell and clear the buffer, then give every cell its
        initial state and wire its neighbours. */
    method GenerateGameField(states: seq<bool>)
      requires arrLength == width * height && |states| == arrLength
      requires currGen.Length == arrLength && nextGen.Length == arrLength && currGen != nextGen
      requires neighbors.Length0 == arrLength && neighbors.Length1 == NeighborCount
      modifies currGen, nextGen, neighbors
      ensures Grid() && currGen[..] == states
      ensures forall i :: 0 <= i < arrLength ==> !nextGen[i]
    {
      for i := 0 to arrLength
        invariant forall j :: 0 <= j < i ==> !currGen[j] && !nextGen[j]
      {
        currGen[i] := false;
        nextGen[i] := false;
      }
      for i := 0 to arrLength
        invariant forall j :: 0 <= j < i ==> currGen[j] == states[j]
        invariant forall j :: 0 <= j < arrLength ==> !nextGen[j]
        invariant forall j, k :: 0 <= j < i && 0 <= k < NeighborCount ==>
          neighbors[j, k] == Neighbors(width, height, j)[k]
      {
        SetState(i, states[i]);
        GetNeighborsByCurrentCell(i);
      }
      assert currGen[..] == states;
    }

    /** Wire the eight neighbours of cell index, wrapping at every edge. */
    method GetNeighborsByCurrentCell(index: nat)
      requires arrLength == width * height && index < arrLength
      requires neighbors.Length0 == arrLength && neighbors.Length1 == NeighborCount
      modifies neighbors
      ensures forall k :: 0 <= k < NeighborCount ==>
        neighbors[index, k] == Neighbors(width, height, index)[k]
      ensures forall j, k :: 0 <= j < arrLength && j != index && 0 <= k < NeighborCount ==>
        neighbors[j, k] == old(neighbors[j, k])
    {
      IndexCoordinates(width, height, index);
      var x := index % width;
      var y := index / width;
      neighbors[index, 0] := CellAt(width, height, Left(x, width), Left(y, height));
      neighbors[index, 1] := CellAt(width, height, x, Left(y, height));
      neighbors[index, 2] := CellAt(width, height, Right(x, width), Left(y, height));
      neighbors[index, 3] := CellAt(width, height, Left(x, width), y);
      neighbors[index, 4] := CellAt(width, height, Right(x, width), y);
      neighbors[index, 5] := CellAt(width, height, Left(x, width), Right(y, height));
      neighbors[index, 6] := CellAt(width, height, x, Right(y, height));
      neighbors[index, 7] := CellAt(width, height, Right(x, width), Right(y, height));
    }

    /** Number of live entries among the eight neighbours of cell index,
        read from the current generation. */
    method NumberOfLivingNeighbors(index: nat) returns (count: nat)
      requires Grid() && index < arrLength
      ensures count == LivingNeighbors(currGen[..], width, height, index)
    {
      ghost var s := NeighborStates(currGen[..], width, height, index);
      count := 0;
      for k := 0 to NeighborCount
        invariant count == CountLive(s[..k])
      {
        assert s[..k + 1][..k] == s[..k];
        var alive := GetState(neighbors[index, k]);
        if alive {
          count := count + 1;
        }
      }
      assert s[..NeighborCount] == s;
    }

    /** The rule pass: reads the current generation only and writes the
        buffer where the rule changes a cell. */
    method DoProcessNextGen()
      requires Grid()
      modifies nextGen
      ensures nextGen[..] == RulePass(currGen[..], old(nextGen[..]), width, height)
    {
      for i := 0 to arrLength
        invariant forall j :: 0 <= j < i ==>
          nextGen[j] == RuleSlot(currGen[j], LivingNeighbors(currGen[..], width, height, j), old(nextGen[j]))
        invariant forall j :: i <= j < arrLength ==> nextGen[j] == old(nextGen[j])
      {
        var n := NumberOfLivingNeighbors(i);
        var alive := GetState(i);
        if alive {
          if n < 2 || n > 3 {
            nextGen[i] := false;
          }
        } else {
          if n == 3 {
            nextGen[i] := true;
          }
        }
      }
      assert forall j :: 0 <= j < arrLength ==>
        nextGen[..][j] == RulePass(currGen[..], old(nextGen[..]), width, height)[j];
    }

    /** A fresh copy of the current generation. */
    method CopyState() returns (snapshot: seq<bool>)
      requires Grid()
      ensures snapshot == currGen[..]
    {
      var copy := new bool[arrLength];
      for i := 0 to arrLength
        invariant forall j :: 0 <= j < i ==> copy[j] == currGen[j]
      {
        copy[i] := GetState(i);
      }
      snapshot := copy[..];
    }

    /** Record the current generation in the window, dropping the oldest
        entry first when the window is full. */
    method SavePrevState()
      requires Grid() && HistoryOk()
      modifies this
      ensures HistoryOk()
      ensures prevStates == Push(old(prevStates), currGen[..])
      ensures trace == old(trace) + [currGen[..]]
    {
      var snapshot := CopyState();
      if |prevStates| < Capacity {
        prevStates := prevStates + [snapshot];
      } else {
        prevStates := prevStates[1..] + [snapshot];
      }
      PushRecent(trace, snapshot);
      trace := trace + [snapshot];
    }

    /** Snapshot the current generation, then commit the buffer into it. */
    method CopyFromNextGenToOldGen()
      requires Grid() && HistoryOk()
      modifies this, currGen
      ensures HistoryOk()
      ensures prevStates == Push(old(prevStates), old(currGen[..]))
      ensures trace == old(trace) + [old(currGen[..])]
      ensures currGen[..] == nextGen[..]
    {
      SavePrevState();
      for i := 0 to arrLength
        modifies currGen
        invariant forall j :: 0 <= j < i ==> currGen[j] == nextGen[j]
      {
        SetState(i, nextGen[i]);
      }
      assert currGen[..] == nextGen[..];
    }

    /** One generation: the rule pass into the buffer, then snapshot and commit. */
    method Process()
      requires Valid()
      modifies this, currGen, nextGen
      ensures Valid()
      ensures currGen[..] == RulePass(old(currGen[..]), old(nextGen[..]), width, height)
      ensures nextGen[..] == currGen[..]
      ensures prevStates == Push(old(prevStates), old(currGen[..]))
      ensures trace == old(trace) + [old(currGen[..])]
      ensures old(prevStates) != [] ==> currGen[..] == Generation(old(currGen[..]), width, height)
      ensures old(prevStates) == [] ==> forall i :: 0 <= i < arrLength ==>
        (currGen[i] <==> !old(currGen[i]) && LivingNeighbors(old(currGen[..]), width, height, i) == 3)
    {
      ghost var before := currGen[..];
      ghost var buffer := nextGen[..];
      DoProcessNextGen();
      CopyFromNextGenToOldGen();
      if old(prevStates) != [] {
        RulePassCarried(before, width, height);
      } else {
        forall i | 0 <= i < arrLength
          ensures currGen[i] <==> !before[i] && LivingNeighbors(before, width, height, i) == 3
        {
          assert currGen[i] == currGen[..][i];
          RulePassFromCleared(before, buffer, width, height, i);
        }
      }
    }

    /** True exactly when every cell is dead. */
    method CheckIsDead() returns (dead: bool)
      requires Grid()
      ensures dead <==> forall i :: 0 <= i < currGen.Length ==> !currGen[i]
    {
      for i := 0 to arrLength
        invariant forall j :: 0 <= j < i ==> !currGen[j]
      {
        var alive := GetState(i);
        if alive {
          return false;
        }
      }
      return true;
    }

    /** The cycle detector: true exactly when the current generation equals a
        snapshot in the window, i.e. one of the last Capacity generations
        before it. The window is scanned newest first. */
    method CheckStatus() returns (found: bool)
      requires Grid() && HistoryOk()
      ensures found <==> Recurs(prevStates, currGen[..])
      ensures found <==> SeenWithinWindow(trace, currGen[..])
    {
      RecursIffSeenWithinWindow(trace, currGen[..]);
      var flag := true;
      var i := |prevStates| - 1;
      while i >= 0
        invariant -1 <= i < |prevStates|
        invariant forall m :: i < m < |prevStates| ==> prevStates[m] != currGen[..]
      {
        flag := true;
        var j := 0;
        while j < arrLength
          invariant 0 <= j <= arrLength && flag
          invariant forall m :: 0 <= m < j ==> currGen[m] == prevStates[i][m]
        {
          var alive := GetState(j);
          if alive != prevStates[i][j] {
            flag := false;
            break;
          }
          j := j + 1;
        }
        if flag {
          assert prevStates[i] == currGen[..];
          return flag;
        }
        assert currGen[..][j] != prevStates[i][j];
        i := i - 1;
      }
      return false;
    }
  }

  /** The driver: owns one board and decides when the game stops. */
  class GameOfLive {
    const gameField: GameField

    ghost predicate Valid()
      reads this, gameField, gameField.currGen, gameField.nextGen, gameField.neighbors
    {
      gameField.Valid()
    }

    /** A game on a board of the given size and initial states. Both sizes
        zero selects randomly drawn sizes, which is not part of this model. */
    constructor (width: nat, height: nat, states: seq<bool>)
      requires !(width == 0 && height == 0)
      requires |states| == width * height
      ensures Valid() && fresh(gameField)
      ensures gameField.width == width && gameField.height == height
      ensures gameField.currGen[..] == states && gameField.prevStates == []
    {
      gameField := new GameField(width, height, states);
    }

    /** Whether the game goes on: some cell is alive and the current
        generation has not recurred within the window. */
    method CheckConditions() returns (running: bool)
      requires Valid()
      ensures running <==>
        (exists i :: 0 <= i < gameField.currGen.Length && gameField.currGen[i]) &&
        !Recurs(gameField.prevStates, gameField.currGen[..])
    {
      var isDead := gameField.CheckIsDead();
      if !isDead {
        var repeated := gameField.CheckStatus();
        return !repeated;
      }
      return !isDead;
    }
  }
}

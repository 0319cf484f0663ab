/** The rover panel's state: where the rover is, the fixed target, the last
    planned path, the busy flag, and the step counter of the movement timer.
    Timer delays are dropped: each firing of the movement interval is one
    call to Tick, and the planning delay is folded into StartMission. */
module RoverMission {
  import opened Grid
  import opened RoverPath

  /** Where the rover stands after `step` moving ticks along `path` from `origin`. */
  function Visited(origin: nat, path: seq<nat>, step: nat): nat
    requires step <= |path|
  {
    if step == 0 then origin else path[step - 1]
  }

  class RoverSystem {
    const gridSize: nat
    const targetPos: nat
    var roverPos: nat
    var path: seq<nat>
    var isComputing: bool
    var step: nat
    /** The rover's position when the current (or last) path was planned. */
    ghost var origin: nat

    ghost predicate Valid()
      reads this
    {
      gridSize > 0 &&
      targetPos < gridSize * gridSize &&
      origin < gridSize * gridSize &&
      roverPos < gridSize * gridSize &&
      (path == [] || path == Plan(origin, targetPos, gridSize)) &&
      (isComputing ==> path == Plan(origin, targetPos, gridSize)) &&
      step <= |path| &&
      roverPos == Visited(origin, path, step) &&
      (!isComputing ==> step == |path|)
    }

    /** The panel as first shown: rover in the top-left cell, target in the bottom-right one, idle, no path. */
    constructor (n: nat)
      requires n > 0
      ensures Valid()
      ensures gridSize == n && targetPos == n * n - 1
      ensures roverPos == 0 && path == [] && !isComputing
    {
      gridSize := n;
      targetPos := n * n - 1;
      roverPos := 0;
      path := [];
      isComputing := false;
      step := 0;
      origin := 0;
    }

    /** The start button is enabled only while idle and away from the target. */
    predicate StartEnabled()
      reads this
    {
      !isComputing && roverPos != targetPos
    }

    /** Interval firings still to come before the rover panel is idle again. */
    ghost function TicksLeft(): nat
      reads this
      requires step <= |path|
    {
      if isComputing then |path| - step + 1 else 0
    }

    /** A click on the start button. A disabled button does nothing; otherwise
        the panel turns busy, plans the walk from the rover's position to the
        target, and resets the step counter. */
    method StartMission() returns (started: bool)
      requires Valid()
      modifies this
      ensures Valid()
      ensures started == old(StartEnabled())
      ensures started ==> isComputing && step == 0 && roverPos == old(roverPos)
      ensures started ==> origin == old(roverPos) && path == Plan(old(roverPos), targetPos, gridSize)
      ensures !started ==> roverPos == old(roverPos) && path == old(path) &&
                           isComputing == old(isComputing) && step == old(step)
    {
      if isComputing || roverPos == targetPos {
        return false;
      }
      started := true;
      isComputing := true;
      var newPath := CalculatePath(roverPos, targetPos, gridSize);
      path := newPath;
      origin := roverPos;
      step := 0;
    }

    /** One firing of the movement interval: move to the next cell of the path,
        or, once the path is used up, stop the interval and turn idle. */
    method Tick()
      requires Valid() && isComputing
      modifies this
      ensures Valid()
      ensures path == old(path) && origin == old(origin)
      ensures old(step) < |path| ==>
        isComputing && step == old(step) + 1 && roverPos == path[old(step)]
      ensures old(step) == |path| ==>
        !isComputing && step == old(step) && roverPos == old(roverPos)
      ensures TicksLeft() == old(TicksLeft()) - 1
    {
      if step < |path| {
        PlanInGrid(origin, targetPos, gridSize);
        roverPos := path[step];
        step := step + 1;
      } else {
        isComputing := false;
      }
    }

    /** The movement interval firing until it clears itself: |path| - step
        moving ticks and one final tick, after which the rover stands where
        the walk ends. */
    method RunInterval() returns (ticks: nat)
      requires Valid() && isComputing
      modifies this
      ensures Valid() && !isComputing
      ensures path == old(path) && origin == old(origin)
      ensures ticks == old(|path| - step) + 1
      ensures roverPos == Reach(origin, targetPos, gridSize)
    {
      ticks := 0;
      while isComputing
        invariant Valid()
        invariant path == old(path) && origin == old(origin)
        invariant path == Plan(origin, targetPos, gridSize)
        invariant ticks + TicksLeft() == old(TicksLeft())
        decreases TicksLeft()
      {
        Tick();
        ticks := ticks + 1;
      }
      CompletedMissionAtReach();
    }

    /** After a planned walk has been played to the end, the rover stands at Reach. */
    lemma CompletedMissionAtReach()
      requires Valid() && !isComputing
      requires path == Plan(origin, targetPos, gridSize)
      ensures roverPos == Reach(origin, targetPos, gridSize)
      ensures DownRightOf(origin, targetPos, gridSize) ==> roverPos == targetPos
    {
      PlanEndsAtReach(origin, targetPos, gridSize);
      ReachIsTargetIff(origin, targetPos, gridSize);
    }

    /** The grid coordinates shown under the panel: row and column of the rover's cell. */
    function Coord(): (rc: (nat, nat))
      reads this
      requires Valid()
      ensures rc.0 < gridSize && rc.1 < gridSize
      ensures Index(rc.0, rc.1, gridSize) == roverPos
    {
      InGridIffRow(roverPos, gridSize);
      (Row(roverPos, gridSize), Col(roverPos, gridSize))
    }
  }

  /** The first mission from the panel's initial state: the rover walks from
      the top-left to the bottom-right corner, which takes 2(N-1) moving
      ticks plus the final one; on a one-cell grid the button stays disabled. */
  method FirstMission(n: nat) returns (finalPos: nat, ticks: nat)
    requires n > 0
    ensures finalPos == n * n - 1
    ensures ticks == if n == 1 then 0 else 2 * (n - 1) + 1
  {
    var rover := new RoverSystem(n);
    var started := rover.StartMission();
    if !started {
      return rover.roverPos, 0;
    }
    CornerToCorner(n);
    ReachIsTargetIff(0, n * n - 1, n);
    DecodeIndex(0, 0, n);
    ticks := rover.RunInterval();
    finalPos := rover.roverPos;
  }
}

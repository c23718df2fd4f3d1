/** A toboggan's path down the slope: a starting position and a velocity,
    and a descender that steps along them. */
module TobogganTrajectories {
  import opened Wrappers

  /** An `(x, y)` pair. */
  type Position = (int, int)

  datatype TobogganTrajectory = TobogganTrajectory(startingPosition: Position, velocity: Position)

  /** The position `steps` velocities away from the start. */
  function PositionAfter(trajectory: TobogganTrajectory, steps: nat): Position {
    (trajectory.startingPosition.0 + steps * trajectory.velocity.0,
     trajectory.startingPosition.1 + steps * trajectory.velocity.1)
  }

  /** Steps through the positions of one descent. */
  class TobogganTrajectoryDescender {
    var currentXPosition: int
    var currentYPosition: int
    /** Meant to tell whether the descent has left its starting position;
        nothing ever sets it. */
    var hasDescentBegun: bool
    var velocity: Position

    function CurrentPosition(): Position
      reads this
    {
      (currentXPosition, currentYPosition)
    }

    /** A descender that has taken `steps` steps along `trajectory`. */
    ghost predicate At(trajectory: TobogganTrajectory, steps: nat)
      reads this
    {
      && CurrentPosition() == PositionAfter(trajectory, steps)
      && velocity == trajectory.velocity
      && !hasDescentBegun
    }

    /** Begins a descent at the trajectory's starting position. */
    constructor Descend(trajectory: TobogganTrajectory)
      ensures At(trajectory, 0)
      ensures CurrentPosition() == trajectory.startingPosition
    {
      currentXPosition := trajectory.startingPosition.0;
      currentYPosition := trajectory.startingPosition.1;
      hasDescentBegun := false;
      velocity := trajectory.velocity;
    }

    /** Advances to the next position and yields it. While the descent has
        not begun, which is always, this adds the velocity; the other branch
        would set the flag and stay put. There is always a next position. */
    method Next() returns (r: Option<Position>)
      modifies this
      ensures velocity == old(velocity)
      ensures !old(hasDescentBegun) ==>
        && !hasDescentBegun
        && CurrentPosition() == (old(currentXPosition) + velocity.0, old(currentYPosition) + velocity.1)
      ensures old(hasDescentBegun) ==> hasDescentBegun && CurrentPosition() == old(CurrentPosition())
      ensures r == Some(CurrentPosition())
    {
      if !hasDescentBegun {
        var (xVelocity, yVelocity) := velocity;
        currentXPosition := currentXPosition + xVelocity;
        currentYPosition := currentYPosition + yVelocity;
      } else {
        hasDescentBegun := true;
      }
      return Some((currentXPosition, currentYPosition));
    }
  }

  /** The first `count` positions a fresh descent yields. */
  method Descent(trajectory: TobogganTrajectory, count: nat) returns (positions: seq<Position>)
    ensures |positions| == count
    ensures forall k :: 0 <= k < count ==> positions[k] == PositionAfter(trajectory, k + 1)
  {
    var descender := new TobogganTrajectoryDescender.Descend(trajectory);
    positions := [];
    while |positions| < count
      invariant |positions| <= count
      invariant descender.At(trajectory, |positions|)
      invariant forall k :: 0 <= k < |positions| ==> positions[k] == PositionAfter(trajectory, k + 1)
    {
      var next := descender.Next();
      StepAfter(trajectory, |positions|);
      positions := positions + [next.value];
    }
  }

  /** One more step adds one more velocity. */
  lemma StepAfter(trajectory: TobogganTrajectory, steps: nat)
    ensures PositionAfter(trajectory, steps + 1) ==
      (PositionAfter(trajectory, steps).0 + trajectory.velocity.0,
       PositionAfter(trajectory, steps).1 + trajectory.velocity.1)
  {
  }

  /** The starting position is never yielded again, unless the velocity is
      zero: every yielded position is at least one step away. */
  lemma StartNeverYielded(trajectory: TobogganTrajectory, steps: nat)
    requires steps >= 1
    ensures PositionAfter(trajectory, steps) == trajectory.startingPosition <==> trajectory.velocity == (0, 0)
  {
    var (vx, vy) := trajectory.velocity;
    if PositionAfter(trajectory, steps) == trajectory.startingPosition {
      ProductZero(steps, vx);
      ProductZero(steps, vy);
    }
  }

  lemma ProductZero(n: nat, v: int)
    requires n >= 1 && n * v == 0
    ensures v == 0
  {
  }
}

/** A laser shot fired from the ship. */
module Bullets {
  import opened Geometry

  /** The laser core's fixed size in pixels. */
  const Width: nat := 5
  const Height: nat := 20

  /** Where a new bullet is placed: a Width x Height rectangle whose top
      centre is the ship's top centre. */
  function SpawnRect(ship: Rect): (r: Rect)
    ensures r.width == Width && r.height == Height
    ensures r.MidTop() == ship.MidTop()
    ensures r.Top() == ship.Top() && r.Left() == ship.Left() + ship.width / 2 - 2
  {
    Rect(0, 0, Width, Height).WithMidTop(ship.MidTop())
  }

  /** The tracked vertical position after `k` updates at `speed`. */
  function YAfter(y0: int, speed: int, k: nat): int {
    if k == 0 then y0 else YAfter(y0, speed, k - 1) - speed
  }

  /** Closed form: each update subtracts exactly `speed`. */
  lemma {:induction false} YAfterClosedForm(y0: int, speed: int, k: nat)
    ensures YAfter(y0, speed, k) == y0 - k * speed
  {
    if k > 0 {
      YAfterClosedForm(y0, speed, k - 1);
    }
  }

  /** With a positive speed the bullet climbs strictly at every update. */
  lemma {:induction false} YAfterDecreasing(y0: int, speed: int, j: nat, k: nat)
    requires speed > 0 && j < k
    ensures YAfter(y0, speed, k) < YAfter(y0, speed, j)
  {
    YAfterClosedForm(y0, speed, j);
    YAfterClosedForm(y0, speed, k);
    assert (k - j) * speed > 0;
    assert k * speed == j * speed + (k - j) * speed;
  }

  /** With a positive speed every bullet eventually has its bottom at or above
      the top of the screen, the condition under which the game drops it. */
  lemma EventuallyOffScreen(y0: int, speed: int) returns (k: nat)
    requires speed > 0
    ensures YAfter(y0, speed, k) + Height <= 0
  {
    k := if y0 + Height > 0 then y0 + Height else 0;
    YAfterClosedForm(y0, speed, k);
    assert k * speed >= k * 1;
  }

  class Bullet {
    /** The exact vertical position (a float in the game, whole here). */
    var y: int
    var rect: Rect

    /** `rect.y` follows `y`. */
    predicate Synced()
      reads this
    {
      rect.y == y
    }

    /** A new bullet sits at the ship's top centre and tracks its own top. */
    constructor (ship: Rect)
      ensures rect == SpawnRect(ship)
      ensures y == rect.y && Synced()
    {
      var r := Rect(0, 0, Width, Height);
      r := r.WithMidTop(ship.MidTop());
      rect := r;
      y := r.y;
    }

    /** `update`: move up by `speed`; `rect.y` follows, nothing horizontal
        changes. */
    method Update(speed: int)
      modifies this
      ensures y == old(y) - speed
      ensures rect == old(rect).(y := y) && Synced()
    {
      y := y - speed;
      rect := rect.(y := y);
    }

    /** `k` frames of `update` in a row: the tracked position is the one
        `YAfter` predicts, and the rectangle still follows it. */
    method Fly(speed: int, k: nat)
      requires Synced()
      modifies this
      ensures y == YAfter(old(y), speed, k)
      ensures rect == old(rect).(y := y) && Synced()
    {
      var n := 0;
      while n < k
        invariant 0 <= n <= k
        invariant y == YAfter(old(y), speed, n)
        invariant rect == old(rect).(y := y)
      {
        Update(speed);
        n := n + 1;
      }
    }
  }
}

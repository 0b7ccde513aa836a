/** One alien of the fleet: its rectangle and its exact horizontal position. */
module Aliens {
  import opened Geometry

  /** `check_edges`: the rectangle touches or passes the right edge of a
      screen `screenWidth` wide, or the left edge at 0. The method in the game
      answers True or None; the only caller tests truthiness, so None is false. */
  predicate AtEdge(r: Rect, screenWidth: int) {
    r.Right() >= screenWidth || r.Left() <= 0
  }

  /** The horizontal position after one step of `speed` pixels in `direction`. */
  function Shifted(x: int, speed: int, direction: int): int {
    x + speed * direction
  }

  /** A step in one direction followed by a step in the other is undone. */
  lemma ShiftedBack(x: int, speed: int, direction: int)
    ensures Shifted(Shifted(x, speed, direction), speed, -direction) == x
  {
  }

  /** Some alien of the group is at a side edge. */
  predicate AnyAtEdge(fleet: seq<Alien>, screenWidth: int)
    reads fleet
  {
    exists i :: 0 <= i < |fleet| && fleet[i].CheckEdges(screenWidth)
  }

  /** No two distinct aliens of the group collide. */
  predicate NoOverlap(fleet: seq<Alien>)
    reads fleet
  {
    forall i, j :: 0 <= i < |fleet| && 0 <= j < |fleet| && fleet[i] != fleet[j] ==>
      !CollideRect(fleet[i].rect, fleet[j].rect)
  }

  /** A group placed on pairwise disjoint rectangles clear of both side
      edges has no overlap and no alien at an edge. */
  lemma PlacedApart(fleet: seq<Alien>, rects: seq<Rect>, screenWidth: int)
    requires |fleet| == |rects| && forall k :: 0 <= k < |fleet| ==> fleet[k].rect == rects[k]
    requires forall i, j :: 0 <= i < |rects| && 0 <= j < |rects| && i != j ==> !CollideRect(rects[i], rects[j])
    requires forall k :: 0 <= k < |rects| ==> !AtEdge(rects[k], screenWidth)
    ensures NoOverlap(fleet) && !AnyAtEdge(fleet, screenWidth)
  {
  }

  class Alien {
    /** The exact horizontal position (a float in the game, whole here). */
    var x: int
    var rect: Rect

    /** `rect.x` follows `x`. */
    predicate Synced()
      reads this
    {
      rect.x == x
    }

    /** A new alien takes the size of its image and starts one width from
        the left and one height from the top. */
    constructor (imageWidth: nat, imageHeight: nat)
      ensures rect == Rect(imageWidth, imageHeight, imageWidth, imageHeight)
      ensures x == rect.x && Synced()
    {
      rect := Rect(imageWidth, imageHeight, imageWidth, imageHeight);
      x := imageWidth;
    }

    /** `update`: move by `speed` in the fleet's `direction`; `rect.x`
        follows and nothing vertical changes. */
    method Update(speed: int, direction: int)
      modifies this
      ensures x == Shifted(old(x), speed, direction)
      ensures rect == old(rect).(x := x) && Synced()
    {
      x := x + speed * direction;
      rect := rect.(x := x);
    }

    /** `check_edges`: whether this alien's rectangle reaches the right edge
        of a screen `screenWidth` wide or the left edge at 0. */
    function CheckEdges(screenWidth: int): (e: bool)
      reads this
      ensures e <==> rect.x + rect.width >= screenWidth || rect.x <= 0
    {
      AtEdge(rect, screenWidth)
    }
  }
}

/** pygame's axis-aligned integer rectangle, reduced to the fields and
    derived edges the game reads and writes. Sizes are non-negative: every
    rectangle in the game comes from an image or from fixed bullet dimensions. */
module Geometry {

  datatype Rect = Rect(x: int, y: int, width: nat, height: nat) {
    function Left(): int { x }
    function Right(): int { x + width }
    function Top(): int { y }
    function Bottom(): int { y + height }

    /** `rect.midtop`: the centre of the top edge; pygame halves the width
        with C integer division, which for a non-negative width is `/`. */
    function MidTop(): (int, int) { (x + width / 2, y) }

    /** Assigning `rect.midtop = p`: moves the rectangle, keeps its size. */
    function WithMidTop(p: (int, int)): (r: Rect)
      ensures r.width == width && r.height == height
      ensures r.MidTop() == p
    {
      Rect(p.0 - width / 2, p.1, width, height)
    }

    /** Whether the pixel (px, py) is covered: the half-open box
        [Left, Right) x [Top, Bottom). */
    predicate Covers(px: int, py: int) {
      Left() <= px < Right() && Top() <= py < Bottom()
    }
  }

  /** pygame's `Rect.colliderect`: rectangles of zero width or height collide
      with nothing, otherwise the open interiors must intersect, so rectangles
      that only share an edge do not collide. */
  predicate CollideRect(a: Rect, b: Rect) {
    a.width != 0 && a.height != 0 && b.width != 0 && b.height != 0 &&
    a.Left() < b.Right() && a.Top() < b.Bottom() &&
    a.Right() > b.Left() && a.Bottom() > b.Top()
  }

  /** Collision is symmetric; a rectangle of zero width or height collides
      with nothing; rectangles that are apart or only touch along an edge
      do not collide. */
  lemma CollideRectEdges(a: Rect, b: Rect)
    ensures CollideRect(a, b) <==> CollideRect(b, a)
    ensures a.width == 0 || a.height == 0 ==> !CollideRect(a, b)
    ensures a.Right() <= b.Left() || b.Right() <= a.Left() ==> !CollideRect(a, b)
    ensures a.Bottom() <= b.Top() || b.Bottom() <= a.Top() ==> !CollideRect(a, b)
  {
  }

  /** Collision is the same thing as sharing a pixel, in both directions. */
  lemma CollideIffSharedPixel(a: Rect, b: Rect)
    ensures CollideRect(a, b) <==> exists px, py :: a.Covers(px, py) && b.Covers(px, py)
  {
    if CollideRect(a, b) {
      var px := if a.x < b.x then b.x else a.x;
      var py := if a.y < b.y then b.y else a.y;
      assert a.Covers(px, py) && b.Covers(px, py);
    }
  }
}

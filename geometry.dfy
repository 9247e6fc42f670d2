/** Screen-space rectangles and the collision test shared by every entity of the game.
    Positions are top-left corners in pixels, y grows downward. */
module Geometry {

  /** Position and size of a player, invader or bullet (the texture handle is not modelled). */
  datatype Rect = Rect(x: real, y: real, w: real, h: real)

  /** The strict axis-aligned bounding-box overlap test used for bullet/player and
      bullet/invader collisions: boxes that only share an edge do not overlap. */
  predicate Overlaps(a: Rect, b: Rect)
  {
    a.x < b.x + b.w && a.x + a.w > b.x && a.y < b.y + b.h && a.y + a.h > b.y
  }

  /** The test does not depend on which box is the bullet. */
  lemma OverlapsSymmetric(a: Rect, b: Rect)
    ensures Overlaps(a, b) <==> Overlaps(b, a)
  {
  }

  /** Boxes touching along a vertical or a horizontal edge do not collide. */
  lemma EdgeContactIsNoOverlap(a: Rect, b: Rect)
    requires a.x + a.w == b.x || b.x + b.w == a.x || a.y + a.h == b.y || b.y + b.h == a.y
    ensures !Overlaps(a, b)
  {
  }

  /** A box of positive size collides with an identical box. */
  lemma IdenticalBoxesOverlap(a: Rect, b: Rect)
    requires a == b && a.w > 0.0 && a.h > 0.0
    ensures Overlaps(a, b)
  {
  }
}

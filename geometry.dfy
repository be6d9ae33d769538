/** Axis-aligned rectangles and the game's collision test (script.js, `collision`). */
module Geometry {

  /** Any object with `x`, `y`, `width` and `height`; coordinates are exact reals. */
  datatype Rect = Rect(x: real, y: real, width: real, height: real)

  /** Width and height are not negative (true of every rectangle the game builds). */
  predicate WellFormed(r: Rect) {
    r.width >= 0.0 && r.height >= 0.0
  }

  /** `collision(first, second)`: true unless the two rectangles are strictly
      separated along one axis. The source falls off the end and yields
      `undefined` in the separated case; that falsy value is `false` here. */
  predicate Collision(first: Rect, second: Rect) {
    !(first.x > second.x + second.width ||
      first.x + first.width < second.x ||
      first.y > second.y + second.height ||
      first.y + first.height < second.y)
  }

  /** The point (px, py) lies in the closed rectangle r (borders included). */
  predicate Contains(r: Rect, px: real, py: real) {
    r.x <= px <= r.x + r.width && r.y <= py <= r.y + r.height
  }

  /** The point (px, py) lies strictly inside r (borders excluded). */
  predicate Interior(r: Rect, px: real, py: real) {
    r.x < px < r.x + r.width && r.y < py < r.y + r.height
  }

  function Max(a: real, b: real): (m: real) {
    if a < b then b else a
  }

  /** Swapping the arguments only reorders the four separation tests. */
  lemma CollisionSymmetric(a: Rect, b: Rect)
    ensures Collision(a, b) == Collision(b, a)
  {
  }

  /** Geometric meaning of the test: two well-formed rectangles collide exactly
      when their closed areas share a point. */
  lemma CollisionIffCommonPoint(a: Rect, b: Rect)
    requires WellFormed(a) && WellFormed(b)
    ensures Collision(a, b) <==> exists px, py :: Contains(a, px, py) && Contains(b, px, py)
  {
    if Collision(a, b) {
      var px, py := Max(a.x, b.x), Max(a.y, b.y);
      assert Contains(a, px, py) && Contains(b, px, py);
    }
  }

  /** Rectangles that only share a vertical edge collide, although no point
      lies strictly inside both: the separation tests are strict. */
  lemma EdgeContactCollides(a: Rect, b: Rect)
    requires WellFormed(a) && WellFormed(b)
    requires a.x + a.width == b.x
    requires a.y <= b.y + b.height && b.y <= a.y + a.height
    ensures Collision(a, b)
    ensures !exists px, py :: Interior(a, px, py) && Interior(b, px, py)
  {
  }

  /** A rectangle collides with itself exactly when it is well formed. */
  lemma SelfCollision(a: Rect)
    ensures Collision(a, a) <==> WellFormed(a)
  {
  }
}

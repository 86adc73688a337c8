/** The collision test of `checkCollisions`: a strict axis-aligned rectangle
    overlap between the active ship and an asteroid, and the scan that finds the
    first asteroid, in array order, that the ship overlaps. */
module Collision {
  import opened Options
  import opened Entities

  /** The four strict inequalities of the overlap test. */
  predicate Overlaps(s: Ship, a: Rock)
  {
    && s.x < a.x + a.size
    && s.x + s.width > a.x
    && s.y < a.y + a.size
    && s.y + s.height > a.y
  }

  /** The unit pixel cell at (px, py) lies inside the rectangle with top-left
      corner (x, y), width w and height h. */
  predicate InRect(px: int, py: int, x: int, y: int, w: int, h: int)
  {
    x <= px < x + w && y <= py < y + h
  }

  /** An independent reading of "the sprites collide": some pixel cell is covered
      by both the ship and the asteroid. */
  ghost predicate SharesCell(s: Ship, a: Rock)
  {
    exists px, py :: InRect(px, py, s.x, s.y, s.width, s.height) && InRect(px, py, a.x, a.y, a.size, a.size)
  }

  /** The overlap test is exact for sprites of positive size: it holds precisely
      when the two rectangles cover a common pixel cell. */
  lemma OverlapsIffSharesCell(s: Ship, a: Rock)
    requires s.width > 0 && s.height > 0 && a.size > 0
    ensures Overlaps(s, a) <==> SharesCell(s, a)
  {
    if Overlaps(s, a) {
      var px := if s.x < a.x then a.x else s.x;
      var py := if s.y < a.y then a.y else s.y;
      assert InRect(px, py, s.x, s.y, s.width, s.height) && InRect(px, py, a.x, a.y, a.size, a.size);
    }
  }

  /** Because the inequalities are strict, sprites that only touch along an edge
      do not collide. */
  lemma TouchingIsNoOverlap(s: Ship, a: Rock)
    requires s.x + s.width == a.x || a.x + a.size == s.x || s.y + s.height == a.y || a.y + a.size == s.y
    ensures !Overlaps(s, a)
  {
  }

  /** The scan of `checkCollisions` from position `k` on: the index of the first
      asteroid the ship overlaps, or None when it overlaps none of them. */
  function FirstHitFrom(s: Ship, rocks: seq<Rock>, k: nat): (r: Option<nat>)
    requires k <= |rocks|
    ensures r.Some? ==> k <= r.value < |rocks| && Overlaps(s, rocks[r.value])
    ensures r.Some? ==> forall j :: k <= j < r.value ==> !Overlaps(s, rocks[j])
    ensures r.None? <==> forall j :: k <= j < |rocks| ==> !Overlaps(s, rocks[j])
    decreases |rocks| - k
  {
    if k == |rocks| then None
    else if Overlaps(s, rocks[k]) then Some(k)
    else FirstHitFrom(s, rocks, k + 1)
  }

  /** The whole scan, in array order. */
  function FirstHit(s: Ship, rocks: seq<Rock>): Option<nat>
  {
    FirstHitFrom(s, rocks, 0)
  }

  /** The scan's result is determined: it is `Some(k)` exactly when asteroid `k`
      is overlapped and no earlier one is. */
  lemma FirstHitIsFirst(s: Ship, rocks: seq<Rock>, k: nat)
    requires k < |rocks|
    ensures FirstHit(s, rocks) == Some(k) <==>
              Overlaps(s, rocks[k]) && forall j :: 0 <= j < k ==> !Overlaps(s, rocks[j])
  {
  }
}

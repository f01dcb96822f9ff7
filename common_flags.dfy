/**
  The cell-type flags of `common.h`, shared by the OpenCL host and kernels,
  and the predicates over them.  Here the moving face is a flag of its own,
  MOVING, set beside FRONT; `is_moving_init` looks at FRONT and `is_moving`
  at MOVING.
*/
module CommonFlags {

  type Tag = bv32

  const NONE: Tag := 0x0000_0000
  const FLUID: Tag := 0x0000_0001
  const MOVING: Tag := 0x0000_0002
  const CORNER: Tag := 0x0000_0004
  const WALL: Tag := 0x0000_0008
  const LEFT: Tag := 0x0000_0010
  const RIGHT: Tag := 0x0000_0020
  const TOP: Tag := 0x0000_0040
  const BOTTOM: Tag := 0x0000_0080
  const FRONT: Tag := 0x0000_0100
  const BACK: Tag := 0x0000_0200

  const MOVING_BOUNDARY: Tag := FRONT

  /** The six face flags. */
  const FACES: Tag := LEFT | RIGHT | BOTTOM | TOP | BACK | FRONT

  /** Every flag the header defines, in declaration order. */
  const Flags: seq<Tag> := [FLUID, MOVING, CORNER, WALL, LEFT, RIGHT, TOP, BOTTOM, FRONT, BACK]

  predicate IsMovingInit(c: Tag) { c & MOVING_BOUNDARY != 0 }
  predicate IsFluid(c: Tag) { c == FLUID }
  predicate IsWall(c: Tag) { c == WALL }
  predicate IsCorner(c: Tag) { c == CORNER }
  predicate IsBoundary(c: Tag) { c & FACES != 0 }
  predicate IsMoving(c: Tag) { c & MOVING != 0 }
  predicate IsStoreMacro(c: Tag) { IsFluid(c) || IsMoving(c) }
  predicate IsCollision(c: Tag) { IsFluid(c) || IsMoving(c) }
  predicate IsBounceback(c: Tag) { IsBoundary(c) && !(c & MOVING != 0) }

  /** A single set bit. */
  predicate SingleBit(b: Tag) { b != 0 && b & (b - 1) == 0 }

  /** The ten flags are distinct single bits. */
  lemma FlagsAreDistinctBits()
    ensures forall m :: 0 <= m < |Flags| ==> SingleBit(Flags[m])
    ensures forall m, n :: 0 <= m < n < |Flags| ==> Flags[m] & Flags[n] == 0
  {
  }

  /** The cells that collide are exactly the cells whose macroscopic values
      are stored. */
  lemma CollisionIsStoreMacro(c: Tag)
    ensures IsCollision(c) <==> IsStoreMacro(c)
  {
  }

  /** Bounce-back happens only on boundary cells that do not move. */
  lemma BouncebackIsStaticBoundary(c: Tag)
    ensures IsBounceback(c) <==> IsBoundary(c) && !IsMoving(c)
  {
  }

  /** `is_fluid`, `is_wall` and `is_corner` compare the whole tag, so at most
      one of them holds, and a fluid cell is neither boundary nor moving. */
  lemma ExactTestsExclusive(c: Tag)
    ensures !(IsFluid(c) && IsWall(c)) && !(IsFluid(c) && IsCorner(c)) && !(IsWall(c) && IsCorner(c))
    ensures IsFluid(c) ==> !IsBoundary(c) && !IsMoving(c) && !IsBounceback(c)
  {
  }

  /** `is_moving_init` reads only the FRONT bit and `is_moving` only the
      MOVING bit: tags that agree on that bit agree on the predicate. */
  lemma MovingTestsAreLocal(c: Tag, d: Tag)
    ensures c & FRONT == d & FRONT ==> (IsMovingInit(c) <==> IsMovingInit(d))
    ensures c & MOVING == d & MOVING ==> (IsMoving(c) <==> IsMoving(d))
  {
  }

  /** A cell of the moving face, tagged FRONT | MOVING together with any other
      face flags, is a boundary cell that moves, collides, stores its moments
      and does not bounce back. */
  lemma MovingFaceTag(faces: Tag)
    requires faces & !FACES == 0
    ensures var c := faces | FRONT | MOVING;
      IsBoundary(c) && IsMoving(c) && IsMovingInit(c) && IsCollision(c)
      && IsStoreMacro(c) && !IsBounceback(c)
  {
  }
}

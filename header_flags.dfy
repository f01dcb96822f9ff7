/**
  The cell-type flags of `constants.h` and the predicates the kernels use to
  read them.  The header numbers its flags differently from `common.h` and
  from the stand-alone solver, so each set of flags is its own module.
  A tag is a C `int`, modelled as a 32-bit vector so that `&`, `|` and `~`
  are the machine operations.
*/
module HeaderFlags {

  type Tag = bv32

  const NONE: Tag := 0
  const FLUID: Tag := 1 << 0
  const CORNER: Tag := 1 << 1
  const WALL: Tag := 1 << 2
  const LEFT: Tag := 1 << 3
  const RIGHT: Tag := 1 << 4
  const TOP: Tag := 1 << 5
  const BOTTOM: Tag := 1 << 6
  const FRONT: Tag := 1 << 7
  const BACK: Tag := 1 << 8

  /** The face that moves (the lid of the cavity). */
  const MOVING_BOUNDARY: Tag := FRONT

  /** The six face flags. */
  const FACES: Tag := LEFT | RIGHT | BOTTOM | TOP | BACK | FRONT

  /** Every flag the header defines, in declaration order. */
  const Flags: seq<Tag> := [FLUID, CORNER, WALL, LEFT, RIGHT, TOP, BOTTOM, FRONT, BACK]

  predicate IsFluid(c: Tag) { c == FLUID }
  predicate IsWall(c: Tag) { c == WALL }
  predicate IsCorner(c: Tag) { c == CORNER }
  predicate IsBoundary(c: Tag) { c & FACES != 0 }
  predicate IsMoving(c: Tag) { c == MOVING_BOUNDARY }
  predicate IsBounceback(c: Tag) { c & (FACES & !MOVING_BOUNDARY) != 0 }

  /** A single set bit. */
  predicate SingleBit(b: Tag) { b != 0 && b & (b - 1) == 0 }

  /** The nine flags are distinct single bits, none of them zero. */
  lemma FlagsAreDistinctBits()
    ensures forall m :: 0 <= m < |Flags| ==> SingleBit(Flags[m])
    ensures forall m, n :: 0 <= m < n < |Flags| ==> Flags[m] & Flags[n] == 0
  {
  }

  /** Only the exact tag FRONT moves; a cell bounces back exactly when it
      carries a face flag other than FRONT.  So no cell does both. */
  lemma MovingAndBounceback(c: Tag)
    ensures IsMoving(c) <==> c == FRONT
    ensures IsBounceback(c) <==>
      (c & LEFT != 0 || c & RIGHT != 0 || c & BOTTOM != 0 || c & TOP != 0 || c & BACK != 0)
    ensures !(IsMoving(c) && IsBounceback(c))
  {
  }

  /** A bounce-back cell is a boundary cell; the moving face is a boundary
      cell that does not bounce back. */
  lemma BouncebackIsBoundary(c: Tag)
    ensures IsBounceback(c) ==> IsBoundary(c)
    ensures IsMoving(c) ==> IsBoundary(c) && !IsBounceback(c)
  {
  }
}

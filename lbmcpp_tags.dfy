/**
  Cell tags of the stand-alone solver `lbmcpp.cpp` and the classification
  that `init` computes for each cell of a DIM^3 box: the outermost layer is
  WALL, the layer inside it carries one face flag per face it touches, and
  everything else is FLUID.  The flag values are the solver's own.
*/
module LbmcppTags {

  type Tag = bv32

  const NONE: Tag := 0
  const FLUID: Tag := 1 << 0
  const WALL: Tag := 1 << 1
  const LEFT: Tag := 1 << 2
  const RIGHT: Tag := 1 << 3
  const TOP: Tag := 1 << 4
  const BOTTOM: Tag := 1 << 5
  const FRONT: Tag := 1 << 6
  const BACK: Tag := 1 << 7

  /** The face whose cells are driven at the wall velocity. */
  const BOUNDARY_MOVING: Tag := FRONT

  /** The six face flags. */
  const FACES: Tag := LEFT | RIGHT | TOP | BOTTOM | FRONT | BACK

  /** `is_boundary`: some face flag is set. */
  predicate IsBoundary(c: Tag) { c & FACES != 0 }

  /** The cells `collision` relaxes: `cell_type & (BOUNDARY_MOVING | FLUID)`. */
  predicate Collides(c: Tag) { c & (BOUNDARY_MOVING | FLUID) != 0 }

  /** The cells whose stored density and velocity are replaced by NaN in
      `store_data`: some face flag or WALL, unless the tag is exactly the
      moving face. */
  predicate Masked(c: Tag) { FaceOrWall(c) && c != BOUNDARY_MOVING }

  /** Some face flag or WALL: `cell_type & (FACES | WALL)`. */
  predicate FaceOrWall(c: Tag) { c & (FACES | WALL) != 0 }

  /** Whether a coordinate lies on the outermost layer. */
  predicate OnShell(v: int, dim: int) { v == 0 || v == dim - 1 }

  /** Whether a coordinate lies on the layer just inside the shell. */
  predicate OnFaceLayer(v: int, dim: int) { v == 1 || v == dim - 2 }

  /** The face flags of a cell: one per coordinate that is 1 or DIM-2. */
  function FaceBits(x: int, y: int, z: int, dim: int): Tag
  {
    (if x == 1 then LEFT else NONE)
    | (if x == dim - 2 then RIGHT else NONE)
    | (if y == 1 then BOTTOM else NONE)
    | (if y == dim - 2 then TOP else NONE)
    | (if z == 1 then BACK else NONE)
    | (if z == dim - 2 then FRONT else NONE)
  }

  /** The tag `init` stores for cell (x, y, z): the face flags, overwritten by
      WALL on the shell, and FLUID when nothing was set. */
  function Classify(x: int, y: int, z: int, dim: int): Tag
  {
    var faces := FaceBits(x, y, z, dim);
    var walled := if OnShell(x, dim) || OnShell(y, dim) || OnShell(z, dim) then WALL else faces;
    if walled == NONE then FLUID else walled
  }

  /** A cell is tagged WALL exactly when one of its coordinates is 0 or
      DIM-1; the assignment of WALL discards any face flag. */
  lemma WallIffShell(x: int, y: int, z: int, dim: int)
    ensures Classify(x, y, z, dim) == WALL <==> OnShell(x, dim) || OnShell(y, dim) || OnShell(z, dim)
    ensures Classify(x, y, z, dim) & WALL != 0 ==> Classify(x, y, z, dim) == WALL
  {
    FaceBitsAreFaces(x, y, z, dim);
  }

  /** Off the shell the tag is the OR of the face flags of the coordinates
      that are 1 or DIM-2, or FLUID when there is none. */
  lemma InteriorTag(x: int, y: int, z: int, dim: int)
    requires !OnShell(x, dim) && !OnShell(y, dim) && !OnShell(z, dim)
    ensures Classify(x, y, z, dim) == if FaceBits(x, y, z, dim) == NONE then FLUID else FaceBits(x, y, z, dim)
    ensures Classify(x, y, z, dim) == FLUID <==>
      !OnFaceLayer(x, dim) && !OnFaceLayer(y, dim) && !OnFaceLayer(z, dim)
    ensures IsBoundary(Classify(x, y, z, dim)) <==>
      OnFaceLayer(x, dim) || OnFaceLayer(y, dim) || OnFaceLayer(z, dim)
    ensures Classify(x, y, z, dim) & FRONT != 0 <==> z == dim - 2
  {
    FaceBitsAreFaces(x, y, z, dim);
  }

  /** The face flags are exactly the faces the coordinates touch. */
  lemma FaceBitsAreFaces(x: int, y: int, z: int, dim: int)
    ensures FaceBits(x, y, z, dim) & !FACES == 0
    ensures FaceBits(x, y, z, dim) & LEFT != 0 <==> x == 1
    ensures FaceBits(x, y, z, dim) & RIGHT != 0 <==> x == dim - 2
    ensures FaceBits(x, y, z, dim) & BOTTOM != 0 <==> y == 1
    ensures FaceBits(x, y, z, dim) & TOP != 0 <==> y == dim - 2
    ensures FaceBits(x, y, z, dim) & BACK != 0 <==> z == 1
    ensures FaceBits(x, y, z, dim) & FRONT != 0 <==> z == dim - 2
    ensures FaceBits(x, y, z, dim) == NONE <==> !OnFaceLayer(x, dim) && !OnFaceLayer(y, dim) && !OnFaceLayer(z, dim)
  {
  }

  /** The moving face proper (tag exactly FRONT) is the layer z = DIM-2 away
      from the four side faces; its edges and corners carry further flags. */
  lemma MovingFaceCells(x: int, y: int, z: int, dim: int)
    requires dim >= 4 && 0 <= x < dim && 0 <= y < dim && 0 <= z < dim
    ensures Classify(x, y, z, dim) == BOUNDARY_MOVING <==>
      z == dim - 2 && 2 <= x <= dim - 3 && 2 <= y <= dim - 3
  {
    FaceBitsAreFaces(x, y, z, dim);
  }

  /** Cells the collision relaxes: the fluid and every cell on the moving
      face, edges and corners included; never a wall. */
  lemma CollidingCells(x: int, y: int, z: int, dim: int)
    ensures Collides(Classify(x, y, z, dim)) <==>
      !OnShell(x, dim) && !OnShell(y, dim) && !OnShell(z, dim)
      && (z == dim - 2 || (!OnFaceLayer(x, dim) && !OnFaceLayer(y, dim) && !OnFaceLayer(z, dim)))
  {
    FaceBitsAreFaces(x, y, z, dim);
  }

  /** Cells whose stored macroscopic values survive the NaN mask: fluid
      cells and the moving face proper. */
  lemma UnmaskedCells(x: int, y: int, z: int, dim: int)
    ensures !Masked(Classify(x, y, z, dim)) <==>
      Classify(x, y, z, dim) == FLUID || Classify(x, y, z, dim) == BOUNDARY_MOVING
  {
    FaceBitsAreFaces(x, y, z, dim);
  }
}

/**
  The grid kernels of the stand-alone solver `lbmcpp.cpp` on its fixed
  8 x 8 x 8 box: `init`, `boundary_condition`, `collision`, `streaming` and
  the NaN mask of `store_data`.  Each kernel walks the cells in z, y, x order
  and changes the population buffers in place; each is proved against a
  function on the whole buffer that says what every entry holds afterwards.

  Populations are an abstract type P: the kernels only move, copy and
  overwrite them.  The arithmetic a kernel applies to one cell (the
  equilibrium that seeds a cell, the rebuild of a moving-face cell, the BGK
  relaxation, the sums of `store_data`) is supplied as the functions of a
  `CellOps` value; module Physics states that arithmetic over exact reals.
*/
module LbmcppKernels {
  import opened Lattice
  import opened LbmcppTags
  import Physics

  /** The edge of the box (`DIM`). */
  const DIM: int := 8

  /** The number of cells. */
  const N: int := DIM * DIM * DIM

  /** The length of a population buffer: Q entries per cell. */
  const NQ: int := N * Q

  /** Cell id of (x, y, z) (`IDxyz`). */
  function IDxyz(x: int, y: int, z: int): int
  {
    x + y * DIM + z * DIM * DIM
  }

  /** Position of population w of cell id in a buffer (`IDxyzw`). */
  function IDxyzw(id: int, w: int): int
  {
    id * Q + w
  }

  /** Coordinates of a cell id. */
  function X(id: int): int { id % DIM }
  function Y(id: int): int { (id / DIM) % DIM }
  function Z(id: int): int { id / (DIM * DIM) }

  /** `IDxyz` numbers the cells of the box 0 .. N-1, one id per cell, and the
      coordinates are recovered from the id. */
  lemma IdCoords(x: int, y: int, z: int)
    requires 0 <= x < DIM && 0 <= y < DIM && 0 <= z < DIM
    ensures 0 <= IDxyz(x, y, z) < N
    ensures X(IDxyz(x, y, z)) == x && Y(IDxyz(x, y, z)) == y && Z(IDxyz(x, y, z)) == z
  {
  }

  /** Every id of the box is the `IDxyz` of its coordinates. */
  lemma CoordsId(id: int)
    requires 0 <= id < N
    ensures 0 <= X(id) < DIM && 0 <= Y(id) < DIM && 0 <= Z(id) < DIM
    ensures IDxyz(X(id), Y(id), Z(id)) == id
  {
  }

  /** `IDxyzw` numbers the populations of the buffer 0 .. NQ-1, one position
      per (cell, direction). */
  lemma SplitIndex(k: int)
    requires 0 <= k < NQ
    ensures 0 <= k / Q < N && 0 <= k % Q < Q && IDxyzw(k / Q, k % Q) == k
  {
  }

  /** Entry k of the stretch of cell id is population k - IDxyzw(id, 0) of
      that cell. */
  lemma InCell(id: int, k: int)
    requires 0 <= id < N && IDxyzw(id, 0) <= k < IDxyzw(id, Q)
    ensures 0 <= k < NQ && k / Q == id && k % Q == k - IDxyzw(id, 0)
  {
  }

  /** The arithmetic the kernels apply to the populations of one cell. */
  datatype CellOps<!P> = CellOps(
    /** The NaN written to walls and unwritten entries. */
    nan: P,
    /** Population i of the equilibrium at density 1 and velocity (ux, 0, 0). */
    seed: (real, int) -> P,
    /** Population i of the equilibrium rebuilt on a moving-face cell from the
        cell's populations (after the five copies). */
    rebuild: (seq<P>, int) -> P,
    /** Population i after the BGK relaxation of the cell; the flag says
        whether the cell is the moving face, whose state is forced. */
    relax: (seq<P>, bool, int) -> P,
    /** The density sum of a cell, as `store_data` computes it. */
    density: seq<P> -> P,
    /** Momentum component k (0, 1, 2) of a cell, as `store_data` computes it. */
    momentum: (seq<P>, int) -> P)

  // ---------------------------------------------------------------------
  // What each kernel computes, entry by entry
  // ---------------------------------------------------------------------

  /** The populations of cell id. */
  function Cell<P>(f: seq<P>, id: int): (c: seq<P>)
    requires |f| == NQ && 0 <= id < N
    ensures |c| == Q
    ensures forall i :: 0 <= i < Q ==> c[i] == f[IDxyzw(id, i)]
  {
    f[IDxyzw(id, 0)..IDxyzw(id, 0) + Q]
  }

  /** The tag of cell id as `init` computes it. */
  function ClassAt(id: int): Tag
    requires 0 <= id < N
  {
    Classify(X(id), Y(id), Z(id), DIM)
  }

  /** The map `init` writes. */
  function ClassMap(): (m: seq<Tag>)
    ensures |m| == N
  {
    seq(N, id requires 0 <= id < N => ClassAt(id))
  }

  /** The x velocity `init` gives a non-wall cell. */
  function InitialVelocity(t: Tag): real
  {
    if t == BOUNDARY_MOVING then Physics.WallVelocity else 0.0
  }

  /** Population i of a cell with tag t in `f_collide` after `init`. */
  function InitialPopulation<P>(ops: CellOps<P>, t: Tag, i: int): P
  {
    if t == WALL then ops.nan else ops.seed(InitialVelocity(t), i)
  }

  /** `f_collide` after `init`. */
  function InitialCollide<P>(ops: CellOps<P>): (f: seq<P>)
    ensures |f| == NQ
  {
    seq(NQ, k requires 0 <= k < NQ => InitialPopulation(ops, ClassAt(k / Q), k % Q))
  }

  /** The five copies of the moving-face branch: f6, f15, f16, f17 and f18
      take the value of their opposite direction. */
  function MovingCopies<P>(c: seq<P>): (r: seq<P>)
    requires |c| == Q
    ensures |r| == Q
  {
    c[6 := c[Opp(6)]][15 := c[Opp(15)]][16 := c[Opp(16)]][17 := c[Opp(17)]][18 := c[Opp(18)]]
  }

  /** Population i after the five copies. */
  lemma MovingCopiesAt<P>(c: seq<P>, i: int)
    requires |c| == Q && 0 <= i < Q
    ensures MovingCopies(c)[i] == if i == 6 || 15 <= i then c[Opp(i)] else c[i]
  {
  }

  /** The directions of a bounce-back swap list. */
  predicate ValidHalf(half: seq<int>)
  {
    forall j :: 0 <= j < |half| ==> IsDir(half[j])
  }

  /** One cell after `boundary_condition`: untouched without a face flag,
      rebuilt at the wall velocity when the tag is exactly the moving face,
      and otherwise the swaps f[i] <-> f[S_i] for the listed directions. */
  function BoundaryCell<P>(c: seq<P>, t: Tag, ops: CellOps<P>, half: seq<int>): (r: seq<P>)
    requires |c| == Q && ValidHalf(half)
    ensures |r| == Q
  {
    if !IsBoundary(t) then c
    else if t == BOUNDARY_MOVING then
      var m := MovingCopies(c);
      seq(Q, i => ops.rebuild(m, i))
    else ApplySwaps(c, half)
  }

  /** The buffer after `boundary_condition`. */
  function Boundary<P>(f: seq<P>, m: seq<Tag>, ops: CellOps<P>, half: seq<int>): (r: seq<P>)
    requires |f| == NQ && |m| == N && ValidHalf(half)
    ensures |r| == NQ
  {
    seq(NQ, k requires 0 <= k < NQ => BoundaryCell(Cell(f, k / Q), m[k / Q], ops, half)[k % Q])
  }

  /** Population i of a cell after `collision`. */
  function CollideAt<P>(c: seq<P>, t: Tag, ops: CellOps<P>, i: int): P
    requires |c| == Q && IsDir(i)
  {
    if Collides(t) then ops.relax(c, t == BOUNDARY_MOVING, i) else c[i]
  }

  /** The buffer after `collision`. */
  function Collide<P>(f: seq<P>, m: seq<Tag>, ops: CellOps<P>): (r: seq<P>)
    requires |f| == NQ && |m| == N
    ensures |r| == NQ
  {
    seq(NQ, k requires 0 <= k < NQ => CollideAt(Cell(f, k / Q), m[k / Q], ops, k % Q))
  }

  /** A cell strictly inside the box, whose 18 neighbours are all in it. */
  predicate Interior(id: int)
  {
    0 <= id < N && 1 <= X(id) <= DIM - 2 && 1 <= Y(id) <= DIM - 2 && 1 <= Z(id) <= DIM - 2
  }

  /** Every cell that is not WALL lies inside the shell. */
  predicate ShellIsWall(m: seq<Tag>)
  {
    |m| == N && forall id :: 0 <= id < N && m[id] != WALL ==> Interior(id)
  }

  /** The cell population i streams from: the neighbour at -e_i. */
  function Upwind(id: int, i: int): int
    requires Interior(id) && IsDir(i)
  {
    IDxyz(X(id) - Ex(i), Y(id) - Ey(i), Z(id) - Ez(i))
  }

  /** The stream buffer after `streaming`: a non-wall cell gathers
      population i from its upwind neighbour in the collide buffer; wall
      entries keep what they held. */
  function Stream<P>(fs: seq<P>, fc: seq<P>, m: seq<Tag>): (r: seq<P>)
    requires |fs| == NQ && |fc| == NQ && ShellIsWall(m)
    ensures |r| == NQ
  {
    seq(NQ, k requires 0 <= k < NQ =>
      var id, i := k / Q, k % Q;
      if m[id] == WALL then fs[k] else fc[IDxyzw(Upwind(id, i), i)])
  }

  /** Density stored for cell id by `store_data`. */
  function StoredDensityAt<P>(f: seq<P>, m: seq<Tag>, ops: CellOps<P>, id: int): P
    requires |f| == NQ && |m| == N && 0 <= id < N
  {
    if Masked(m[id]) then ops.nan else ops.density(Cell(f, id))
  }

  /** Momentum sum k (not divided by the density) stored for cell id by
      `store_data`. */
  function StoredMomentumAt<P>(f: seq<P>, m: seq<Tag>, ops: CellOps<P>, id: int, k: int): P
    requires |f| == NQ && |m| == N && 0 <= id < N
  {
    if Masked(m[id]) then ops.nan else ops.momentum(Cell(f, id), k)
  }

  /** The `rho` array written by `store_data`. */
  function StoredDensity<P>(f: seq<P>, m: seq<Tag>, ops: CellOps<P>): (r: seq<P>)
    requires |f| == NQ && |m| == N
    ensures |r| == N
  {
    seq(N, id requires 0 <= id < N => StoredDensityAt(f, m, ops, id))
  }

  /** The `u` array written by `store_data`: three momentum sums per cell,
      not divided by the density. */
  function StoredMomentum<P>(f: seq<P>, m: seq<Tag>, ops: CellOps<P>): (r: seq<P>)
    requires |f| == NQ && |m| == N
    ensures |r| == 3 * N
  {
    seq(3 * N, k requires 0 <= k < 3 * N => StoredMomentumAt(f, m, ops, k / 3, k % 3))
  }

  // ---------------------------------------------------------------------
  // Properties of the kernels
  // ---------------------------------------------------------------------

  /** The tag map `init` writes satisfies the streaming precondition. */
  lemma ClassMapShellIsWall()
    ensures ShellIsWall(ClassMap())
  {
    forall id | 0 <= id < N && ClassMap()[id] != WALL ensures Interior(id) {
      CoordsId(id);
      WallIffShell(X(id), Y(id), Z(id), DIM);
    }
  }

  /** Streaming reads inside the box: the upwind neighbour of an interior
      cell is a cell of the box, displaced by -e_i. */
  lemma UpwindInBox(id: int, i: int)
    requires Interior(id) && IsDir(i)
    ensures 0 <= Upwind(id, i) < N
    ensures X(Upwind(id, i)) == X(id) - Ex(i) && Y(Upwind(id, i)) == Y(id) - Ey(i)
    ensures Z(Upwind(id, i)) == Z(id) - Ez(i)
  {
    IdCoords(X(id) - Ex(i), Y(id) - Ey(i), Z(id) - Ez(i));
  }

  /** Every entry an interior cell gathers lies in the buffer. */
  lemma UpwindEntriesInBuffer(id: int)
    requires Interior(id)
    ensures forall i :: IsDir(i) ==> 0 <= Upwind(id, i) < N && 0 <= IDxyzw(Upwind(id, i), i) < NQ
  {
    forall i | IsDir(i) ensures 0 <= Upwind(id, i) < N && 0 <= IDxyzw(Upwind(id, i), i) < NQ {
      UpwindInBox(id, i);
    }
  }

  /** For one direction, distinct cells gather from distinct neighbours, so
      no population of the collide buffer is streamed twice. */
  lemma UpwindInjective(a: int, b: int, i: int)
    requires Interior(a) && Interior(b) && IsDir(i)
    ensures Upwind(a, i) == Upwind(b, i) <==> a == b
  {
    UpwindInBox(a, i);
    UpwindInBox(b, i);
    CoordsId(a);
    CoordsId(b);
  }

  /** Going upwind along e_i and then along e_{S_i} returns to the cell:
      streaming along opposite directions uses opposite neighbours. */
  lemma UpwindOpposite(id: int, i: int)
    requires Interior(id) && IsDir(i) && Interior(Upwind(id, i))
    ensures Upwind(Upwind(id, i), Opp(i)) == id
  {
    UpwindInBox(id, i);
    OppositeNegates(i);
    CoordsId(id);
  }

  /** `boundary_condition` leaves every cell without a face flag (fluid and
      wall cells) as it was, rewrites all 19 populations of a cell tagged
      exactly BOUNDARY_MOVING, and permutes the populations of every other
      boundary cell by the swap list. */
  lemma BoundaryEffect<P>(f: seq<P>, m: seq<Tag>, ops: CellOps<P>, half: seq<int>, id: int)
    requires |f| == NQ && |m| == N && ValidHalf(half) && 0 <= id < N
    ensures !IsBoundary(m[id]) ==> Cell(Boundary(f, m, ops, half), id) == Cell(f, id)
    ensures m[id] == BOUNDARY_MOVING ==> forall i :: 0 <= i < Q ==>
      Cell(Boundary(f, m, ops, half), id)[i] == ops.rebuild(MovingCopies(Cell(f, id)), i)
    ensures IsBoundary(m[id]) && m[id] != BOUNDARY_MOVING ==>
      Cell(Boundary(f, m, ops, half), id) == ApplySwaps(Cell(f, id), half)
  {
    var r := Boundary(f, m, ops, half);
    forall i | 0 <= i < Q ensures Cell(r, id)[i] == BoundaryCell(Cell(f, id), m[id], ops, half)[i] {
      var k := IDxyzw(id, i);
      assert k / Q == id && k % Q == i;
    }
  }

  /** The stretch of cell id in the buffer after `boundary_condition` is the
      cell after `boundary_condition`. */
  lemma BoundaryOfCell<P>(f: seq<P>, m: seq<Tag>, ops: CellOps<P>, half: seq<int>, id: int)
    requires |f| == NQ && |m| == N && ValidHalf(half) && 0 <= id < N
    ensures forall k :: IDxyzw(id, 0) <= k < IDxyzw(id, Q) ==>
      Boundary(f, m, ops, half)[k] == BoundaryCell(Cell(f, id), m[id], ops, half)[k - IDxyzw(id, 0)]
  {
    forall k | IDxyzw(id, 0) <= k < IDxyzw(id, Q)
      ensures Boundary(f, m, ops, half)[k] == BoundaryCell(Cell(f, id), m[id], ops, half)[k - IDxyzw(id, 0)]
    {
      InCell(id, k);
    }
  }

  /** The stretch of cell id in the buffer after `collision` is the cell
      after `collision`. */
  lemma CollideOfCell<P>(f: seq<P>, m: seq<Tag>, ops: CellOps<P>, id: int)
    requires |f| == NQ && |m| == N && 0 <= id < N
    ensures forall k :: IDxyzw(id, 0) <= k < IDxyzw(id, Q) ==>
      Collide(f, m, ops)[k] == CollideAt(Cell(f, id), m[id], ops, k - IDxyzw(id, 0))
  {
    forall k | IDxyzw(id, 0) <= k < IDxyzw(id, Q)
      ensures Collide(f, m, ops)[k] == CollideAt(Cell(f, id), m[id], ops, k - IDxyzw(id, 0))
    {
      InCell(id, k);
    }
  }

  /** `collision` changes exactly the cells whose tag has the FLUID or the
      FRONT bit, and forces the state of the moving face only for the tag
      exactly FRONT; on the map `init` writes, those are the fluid cells and
      every cell of the layer z = DIM-2 off the shell. */
  lemma CollisionEffect<P>(f: seq<P>, ops: CellOps<P>, id: int)
    requires |f| == NQ && 0 <= id < N
    ensures var t := ClassMap()[id];
      && (!Collides(t) ==> Cell(Collide(f, ClassMap(), ops), id) == Cell(f, id))
      && (Collides(t) ==> forall i :: 0 <= i < Q ==>
            Cell(Collide(f, ClassMap(), ops), id)[i] == ops.relax(Cell(f, id), t == BOUNDARY_MOVING, i))
    ensures Collides(ClassMap()[id]) <==>
      !OnShell(X(id), DIM) && !OnShell(Y(id), DIM) && !OnShell(Z(id), DIM)
      && (Z(id) == DIM - 2 || (!OnFaceLayer(X(id), DIM) && !OnFaceLayer(Y(id), DIM) && !OnFaceLayer(Z(id), DIM)))
  {
    var r := Collide(f, ClassMap(), ops);
    forall i | 0 <= i < Q ensures Cell(r, id)[i] == CollideAt(Cell(f, id), ClassMap()[id], ops, i) {
      var k := IDxyzw(id, i);
      assert k / Q == id && k % Q == i;
    }
    CollidingCells(X(id), Y(id), Z(id), DIM);
  }

  // ---------------------------------------------------------------------
  // The kernels
  // ---------------------------------------------------------------------

  /** `init`: classify every cell into `map`, seed `f_collide` with the
      equilibrium at density 1 (at the wall velocity on the moving face, at
      rest elsewhere), and fill walls and `f_stream` with NaN. */
  method Init<P>(fStream: array<P>, fCollide: array<P>, tags: array<Tag>, ops: CellOps<P>)
    requires fStream.Length == NQ && fCollide.Length == NQ && tags.Length == N
    requires fStream != fCollide && fStream as object != tags && fCollide as object != tags
    modifies fStream, fCollide, tags
    ensures tags[..] == ClassMap()
    ensures fCollide[..] == InitialCollide(ops)
    ensures forall k :: 0 <= k < NQ ==> fStream[k] == ops.nan
  {
    for z := 0 to DIM
      invariant forall id :: 0 <= id < IDxyz(0, 0, z) ==> tags[id] == ClassAt(id)
      invariant forall k :: 0 <= k < IDxyzw(IDxyz(0, 0, z), 0) ==>
        fStream[k] == ops.nan && fCollide[k] == InitialCollide(ops)[k]
    {
      for y := 0 to DIM
        invariant forall id :: 0 <= id < IDxyz(0, y, z) ==> tags[id] == ClassAt(id)
        invariant forall k :: 0 <= k < IDxyzw(IDxyz(0, y, z), 0) ==>
          fStream[k] == ops.nan && fCollide[k] == InitialCollide(ops)[k]
      {
        for x := 0 to DIM
          invariant forall id :: 0 <= id < IDxyz(x, y, z) ==> tags[id] == ClassAt(id)
          invariant forall k :: 0 <= k < IDxyzw(IDxyz(x, y, z), 0) ==>
            fStream[k] == ops.nan && fCollide[k] == InitialCollide(ops)[k]
        {
          InitCell(fStream, fCollide, tags, ops, x, y, z);
        }
      }
    }
    assert tags[..] == ClassMap();
  }

  /** The body of `init` for cell (x, y, z). */
  method InitCell<P>(fStream: array<P>, fCollide: array<P>, tags: array<Tag>, ops: CellOps<P>, x: int, y: int, z: int)
    requires fStream.Length == NQ && fCollide.Length == NQ && tags.Length == N
    requires fStream != fCollide && fStream as object != tags && fCollide as object != tags
    requires 0 <= x < DIM && 0 <= y < DIM && 0 <= z < DIM
    modifies fStream, fCollide, tags
    ensures var id := IDxyz(x, y, z);
      && tags[id] == ClassAt(id)
      && (forall id' :: 0 <= id' < N && id' != id ==> tags[id'] == old(tags[id']))
      && (forall k :: IDxyzw(id, 0) <= k < IDxyzw(id, Q) ==>
            fStream[k] == ops.nan && fCollide[k] == InitialCollide(ops)[k])
      && (forall k :: 0 <= k < NQ && !(IDxyzw(id, 0) <= k < IDxyzw(id, Q)) ==>
            fStream[k] == old(fStream[k]) && fCollide[k] == old(fCollide[k]))
  {
    var id := IDxyz(x, y, z);
    IdCoords(x, y, z);
    InitialCollideOfCell(ops, id);
    var cellType := Classify(x, y, z, DIM);
    tags[id] := cellType;
    var nans := seq(Q, i => ops.nan);
    if cellType == WALL {
      WriteCell(fStream, id, nans);
      WriteCell(fCollide, id, nans);
    } else {
      var ux := if cellType == BOUNDARY_MOVING then Physics.WallVelocity else 0.0;
      WriteCell(fCollide, id, seq(Q, i => ops.seed(ux, i)));
      WriteCell(fStream, id, nans);
    }
  }

  /** The stretch of cell id in `f_collide` after `init`: NaN on a wall,
      otherwise the equilibrium at density 1, moving at the wall velocity
      exactly when the tag is BOUNDARY_MOVING and at rest elsewhere. */
  lemma InitialCollideOfCell<P>(ops: CellOps<P>, id: int)
    requires 0 <= id < N
    ensures forall k :: IDxyzw(id, 0) <= k < IDxyzw(id, Q) ==>
      InitialCollide(ops)[k] == InitialPopulation(ops, ClassAt(id), k - IDxyzw(id, 0))
    ensures ClassAt(id) == WALL ==>
      forall k :: IDxyzw(id, 0) <= k < IDxyzw(id, Q) ==> InitialCollide(ops)[k] == ops.nan
    ensures ClassAt(id) == BOUNDARY_MOVING ==>
      forall k :: IDxyzw(id, 0) <= k < IDxyzw(id, Q) ==>
        InitialCollide(ops)[k] == ops.seed(Physics.WallVelocity, k - IDxyzw(id, 0))
    ensures ClassAt(id) != WALL && ClassAt(id) != BOUNDARY_MOVING ==>
      forall k :: IDxyzw(id, 0) <= k < IDxyzw(id, Q) ==>
        InitialCollide(ops)[k] == ops.seed(0.0, k - IDxyzw(id, 0))
  {
    forall k | IDxyzw(id, 0) <= k < IDxyzw(id, Q)
      ensures InitialCollide(ops)[k] == InitialPopulation(ops, ClassAt(id), k - IDxyzw(id, 0))
    {
      InCell(id, k);
    }
  }

  /** Write the Q populations c into cell id, one direction at a time
      (the unrolled loops of the kernels). */
  method WriteCell<P>(f: array<P>, id: int, c: seq<P>)
    requires f.Length == NQ && 0 <= id < N && |c| == Q
    modifies f
    ensures forall k :: IDxyzw(id, 0) <= k < IDxyzw(id, Q) ==> f[k] == c[k - IDxyzw(id, 0)]
    ensures forall k :: 0 <= k < NQ && !(IDxyzw(id, 0) <= k < IDxyzw(id, Q)) ==> f[k] == old(f[k])
  {
    for i := 0 to Q
      invariant forall k :: IDxyzw(id, 0) <= k < IDxyzw(id, i) ==> f[k] == c[k - IDxyzw(id, 0)]
      invariant forall k :: 0 <= k < NQ && !(IDxyzw(id, 0) <= k < IDxyzw(id, i)) ==> f[k] == old(f[k])
    {
      f[IDxyzw(id, i)] := c[i];
    }
  }

  /** `boundary_condition`: every boundary cell of `f_collide` is rebuilt
      (moving face) or has its populations swapped with their opposites
      along the swap list `half` (every other face, edge and corner). */
  method BoundaryCondition<P>(f: array<P>, tags: array<Tag>, ops: CellOps<P>, half: seq<int>)
    requires f.Length == NQ && tags.Length == N && f as object != tags && ValidHalf(half)
    modifies f
    ensures f[..] == Boundary(old(f[..]), tags[..], ops, half)
  {
    ghost var f0 := f[..];
    ghost var target := Boundary(f0, tags[..], ops, half);
    for z := 0 to DIM
      invariant forall k :: 0 <= k < IDxyzw(IDxyz(0, 0, z), 0) ==> f[k] == target[k]
      invariant forall k :: IDxyzw(IDxyz(0, 0, z), 0) <= k < NQ ==> f[k] == f0[k]
    {
      for y := 0 to DIM
        invariant forall k :: 0 <= k < IDxyzw(IDxyz(0, y, z), 0) ==> f[k] == target[k]
        invariant forall k :: IDxyzw(IDxyz(0, y, z), 0) <= k < NQ ==> f[k] == f0[k]
      {
        for x := 0 to DIM
          invariant forall k :: 0 <= k < IDxyzw(IDxyz(x, y, z), 0) ==> f[k] == target[k]
          invariant forall k :: IDxyzw(IDxyz(x, y, z), 0) <= k < NQ ==> f[k] == f0[k]
        {
          IdCoords(x, y, z);
          BoundaryAt(f, tags, ops, half, IDxyz(x, y, z), f0);
        }
      }
    }
    assert f[..] == target;
  }

  /** The body of `boundary_condition` for cell id, whose populations are
      still those of f0. */
  method BoundaryAt<P>(f: array<P>, tags: array<Tag>, ops: CellOps<P>, half: seq<int>, id: int, ghost f0: seq<P>)
    requires f.Length == NQ && tags.Length == N && f as object != tags && ValidHalf(half)
    requires 0 <= id < N && |f0| == NQ
    requires forall k :: IDxyzw(id, 0) <= k < IDxyzw(id, Q) ==> f[k] == f0[k]
    modifies f
    ensures forall k :: IDxyzw(id, 0) <= k < IDxyzw(id, Q) ==> f[k] == Boundary(f0, tags[..], ops, half)[k]
    ensures forall k :: 0 <= k < NQ && !(IDxyzw(id, 0) <= k < IDxyzw(id, Q)) ==> f[k] == old(f[k])
  {
    ghost var c0 := Cell(f0, id);
    BoundaryOfCell(f0, tags[..], ops, half, id);
    var cellType := tags[id];
    if !IsBoundary(cellType) {
      return;
    }
    if cellType == BOUNDARY_MOVING {
      MovingWallAt(f, ops, id, c0);
    } else {
      BounceBackAt(f, half, id, c0);
    }
  }

  /** The moving-face branch of `boundary_condition` for cell id: copy
      f5, f13, f14, f11, f12 into their opposites, then rewrite all 19
      populations with the rebuilt equilibrium. */
  method MovingWallAt<P>(f: array<P>, ops: CellOps<P>, id: int, ghost c0: seq<P>)
    requires f.Length == NQ && 0 <= id < N && |c0| == Q
    requires forall k :: IDxyzw(id, 0) <= k < IDxyzw(id, Q) ==> f[k] == c0[k - IDxyzw(id, 0)]
    modifies f
    ensures forall k :: IDxyzw(id, 0) <= k < IDxyzw(id, Q) ==>
      f[k] == ops.rebuild(MovingCopies(c0), k - IDxyzw(id, 0))
    ensures forall k :: 0 <= k < NQ && !(IDxyzw(id, 0) <= k < IDxyzw(id, Q)) ==> f[k] == old(f[k])
  {
    f[IDxyzw(id, 6)] := f[IDxyzw(id, Opp(6))];
    f[IDxyzw(id, 15)] := f[IDxyzw(id, Opp(15))];
    f[IDxyzw(id, 16)] := f[IDxyzw(id, Opp(16))];
    f[IDxyzw(id, 17)] := f[IDxyzw(id, Opp(17))];
    f[IDxyzw(id, 18)] := f[IDxyzw(id, Opp(18))];
    // the density is summed over the copied cell before anything is rewritten
    var copied := f[IDxyzw(id, 0)..IDxyzw(id, Q)];
    forall i | 0 <= i < Q ensures copied[i] == MovingCopies(c0)[i] {
      MovingCopiesAt(c0, i);
    }
    assert copied == MovingCopies(c0);
    WriteCell(f, id, seq(Q, i => ops.rebuild(copied, i)));
  }

  /** The bounce-back branch of `boundary_condition` for cell id: the swaps
      `temp = f[S_i]; f[S_i] = f[i]; f[i] = temp` in the order of `half`. */
  method BounceBackAt<P>(f: array<P>, half: seq<int>, id: int, ghost c0: seq<P>)
    requires f.Length == NQ && 0 <= id < N && |c0| == Q && ValidHalf(half)
    requires forall k :: IDxyzw(id, 0) <= k < IDxyzw(id, Q) ==> f[k] == c0[k - IDxyzw(id, 0)]
    modifies f
    ensures forall k :: IDxyzw(id, 0) <= k < IDxyzw(id, Q) ==> f[k] == ApplySwaps(c0, half)[k - IDxyzw(id, 0)]
    ensures forall k :: 0 <= k < NQ && !(IDxyzw(id, 0) <= k < IDxyzw(id, Q)) ==> f[k] == old(f[k])
  {
    assert f[IDxyzw(id, 0)..IDxyzw(id, Q)] == c0;
    for j := 0 to |half|
      invariant f[IDxyzw(id, 0)..IDxyzw(id, Q)] == ApplySwaps(c0, half[..j])
      invariant forall k :: 0 <= k < NQ && !(IDxyzw(id, 0) <= k < IDxyzw(id, Q)) ==> f[k] == old(f[k])
    {
      SwapInCell(f, id, half[j]);
      ApplySwapsSnoc(c0, half[..j], half[j]);
      assert half[..j + 1] == half[..j] + [half[j]];
    }
    assert half[..|half|] == half;
  }

  /** `temp = f[S_d]; f[S_d] = f[d]; f[d] = temp` in cell id. */
  method SwapInCell<P>(f: array<P>, id: int, d: int)
    requires f.Length == NQ && 0 <= id < N && IsDir(d)
    modifies f
    ensures f[IDxyzw(id, 0)..IDxyzw(id, Q)] == SwapOpp(old(f[IDxyzw(id, 0)..IDxyzw(id, Q)]), d)
    ensures forall k :: 0 <= k < NQ && !(IDxyzw(id, 0) <= k < IDxyzw(id, Q)) ==> f[k] == old(f[k])
  {
    OppositeNegates(d);
    var temp := f[IDxyzw(id, Opp(d))];
    f[IDxyzw(id, Opp(d))] := f[IDxyzw(id, d)];
    f[IDxyzw(id, d)] := temp;
  }

  /** `collision`: every cell whose tag has the FLUID or the FRONT bit is
      relaxed; all others are left alone. */
  method Collision<P>(f: array<P>, tags: array<Tag>, ops: CellOps<P>)
    requires f.Length == NQ && tags.Length == N && f as object != tags
    modifies f
    ensures f[..] == Collide(old(f[..]), tags[..], ops)
  {
    ghost var f0 := f[..];
    ghost var target := Collide(f0, tags[..], ops);
    for z := 0 to DIM
      invariant forall k :: 0 <= k < IDxyzw(IDxyz(0, 0, z), 0) ==> f[k] == target[k]
      invariant forall k :: IDxyzw(IDxyz(0, 0, z), 0) <= k < NQ ==> f[k] == f0[k]
    {
      for y := 0 to DIM
        invariant forall k :: 0 <= k < IDxyzw(IDxyz(0, y, z), 0) ==> f[k] == target[k]
        invariant forall k :: IDxyzw(IDxyz(0, y, z), 0) <= k < NQ ==> f[k] == f0[k]
      {
        for x := 0 to DIM
          invariant forall k :: 0 <= k < IDxyzw(IDxyz(x, y, z), 0) ==> f[k] == target[k]
          invariant forall k :: IDxyzw(IDxyz(x, y, z), 0) <= k < NQ ==> f[k] == f0[k]
        {
          IdCoords(x, y, z);
          CollisionAt(f, tags, ops, IDxyz(x, y, z), f0);
        }
      }
    }
    assert f[..] == target;
  }

  /** The body of `collision` for cell id, whose populations are still those
      of f0. */
  method CollisionAt<P>(f: array<P>, tags: array<Tag>, ops: CellOps<P>, id: int, ghost f0: seq<P>)
    requires f.Length == NQ && tags.Length == N && f as object != tags
    requires 0 <= id < N && |f0| == NQ
    requires forall k :: IDxyzw(id, 0) <= k < IDxyzw(id, Q) ==> f[k] == f0[k]
    modifies f
    ensures forall k :: IDxyzw(id, 0) <= k < IDxyzw(id, Q) ==> f[k] == Collide(f0, tags[..], ops)[k]
    ensures forall k :: 0 <= k < NQ && !(IDxyzw(id, 0) <= k < IDxyzw(id, Q)) ==> f[k] == old(f[k])
  {
    ghost var c0 := Cell(f0, id);
    CollideOfCell(f0, tags[..], ops, id);
    var cellType := tags[id];
    if Collides(cellType) {
      // the moments are summed over the cell before anything is rewritten
      var cell := f[IDxyzw(id, 0)..IDxyzw(id, Q)];
      assert cell == c0;
      WriteCell(f, id, seq(Q, i => ops.relax(cell, cellType == BOUNDARY_MOVING, i)));
    }
  }

  /** `streaming`: every non-wall cell of `f_stream` gathers each population
      from the upwind neighbour in `f_collide`, which is only read. */
  method Streaming<P>(fStream: array<P>, fCollide: array<P>, tags: array<Tag>)
    requires fStream.Length == NQ && fCollide.Length == NQ && tags.Length == N
    requires fStream != fCollide && fStream as object != tags
    requires ShellIsWall(tags[..])
    modifies fStream
    ensures fStream[..] == Stream(old(fStream[..]), fCollide[..], tags[..])
  {
    ghost var f0 := fStream[..];
    ghost var target := Stream(f0, fCollide[..], tags[..]);
    for z := 0 to DIM
      invariant forall k :: 0 <= k < IDxyzw(IDxyz(0, 0, z), 0) ==> fStream[k] == target[k]
      invariant forall k :: IDxyzw(IDxyz(0, 0, z), 0) <= k < NQ ==> fStream[k] == f0[k]
    {
      for y := 0 to DIM
        invariant forall k :: 0 <= k < IDxyzw(IDxyz(0, y, z), 0) ==> fStream[k] == target[k]
        invariant forall k :: IDxyzw(IDxyz(0, y, z), 0) <= k < NQ ==> fStream[k] == f0[k]
      {
        for x := 0 to DIM
          invariant forall k :: 0 <= k < IDxyzw(IDxyz(x, y, z), 0) ==> fStream[k] == target[k]
          invariant forall k :: IDxyzw(IDxyz(x, y, z), 0) <= k < NQ ==> fStream[k] == f0[k]
        {
          StreamingAt(fStream, fCollide, tags, x, y, z, f0);
        }
      }
    }
    assert fStream[..] == target;
  }

  /** The body of `streaming` for cell (x, y, z), whose stream entries are
      still those of fs0. */
  method StreamingAt<P>(fStream: array<P>, fCollide: array<P>, tags: array<Tag>, x: int, y: int, z: int, ghost fs0: seq<P>)
    requires fStream.Length == NQ && fCollide.Length == NQ && tags.Length == N
    requires fStream != fCollide && fStream as object != tags
    requires ShellIsWall(tags[..]) && |fs0| == NQ
    requires 0 <= x < DIM && 0 <= y < DIM && 0 <= z < DIM
    requires forall k :: IDxyzw(IDxyz(x, y, z), 0) <= k < IDxyzw(IDxyz(x, y, z), Q) ==> fStream[k] == fs0[k]
    modifies fStream
    ensures var id := IDxyz(x, y, z);
      forall k :: IDxyzw(id, 0) <= k < IDxyzw(id, Q) ==> fStream[k] == Stream(fs0, fCollide[..], tags[..])[k]
    ensures var id := IDxyz(x, y, z);
      forall k :: 0 <= k < NQ && !(IDxyzw(id, 0) <= k < IDxyzw(id, Q)) ==> fStream[k] == old(fStream[k])
  {
    var id := IDxyz(x, y, z);
    IdCoords(x, y, z);
    ghost var target := Stream(fs0, fCollide[..], tags[..]);
    var cellType := tags[id];
    if cellType != WALL {
      assert Interior(id);
      GatherCell(fStream, fCollide, x, y, z);
      forall k | IDxyzw(id, 0) <= k < IDxyzw(id, Q) ensures fStream[k] == target[k] {
        var i := k - IDxyzw(id, 0);
        assert k == IDxyzw(id, i);
        StreamEntry(fs0, fCollide[..], tags[..], id, i);
      }
    } else {
      StreamSkipsWall(fs0, fCollide[..], tags[..], id);
    }
  }

  /** The unrolled gather of `streaming` for the interior cell (x, y, z). */
  method GatherCell<P>(fStream: array<P>, fCollide: array<P>, x: int, y: int, z: int)
    requires fStream.Length == NQ && fCollide.Length == NQ && fStream != fCollide
    requires Interior(IDxyz(x, y, z)) && 0 <= x < DIM && 0 <= y < DIM && 0 <= z < DIM
    modifies fStream
    ensures var id := IDxyz(x, y, z);
      forall i :: 0 <= i < Q ==> fStream[IDxyzw(id, i)] == fCollide[IDxyzw(Upwind(id, i), i)]
    ensures var id := IDxyz(x, y, z);
      forall k :: 0 <= k < NQ && !(IDxyzw(id, 0) <= k < IDxyzw(id, Q)) ==> fStream[k] == old(fStream[k])
  {
    var id := IDxyz(x, y, z);
    IdCoords(x, y, z);
    UpwindEntriesInBuffer(id);
    for i := 0 to Q
      invariant forall j :: 0 <= j < i ==> fStream[IDxyzw(id, j)] == fCollide[IDxyzw(Upwind(id, j), j)]
      invariant forall k :: 0 <= k < NQ && !(IDxyzw(id, 0) <= k < IDxyzw(id, i)) ==> fStream[k] == old(fStream[k])
    {
      UpwindInBox(id, i);
      var index := IDxyz(x - Ex(i), y - Ey(i), z - Ez(i));
      assert index == Upwind(id, i);
      fStream[IDxyzw(id, i)] := fCollide[IDxyzw(index, i)];
    }
  }

  /** `streaming` leaves the entries of a wall cell as they were. */
  lemma StreamSkipsWall<P>(fs: seq<P>, fc: seq<P>, m: seq<Tag>, id: int)
    requires |fs| == NQ && |fc| == NQ && ShellIsWall(m) && 0 <= id < N && m[id] == WALL
    ensures forall k :: IDxyzw(id, 0) <= k < IDxyzw(id, Q) ==> Stream(fs, fc, m)[k] == fs[k]
  {
    forall k | IDxyzw(id, 0) <= k < IDxyzw(id, Q) ensures Stream(fs, fc, m)[k] == fs[k] {
      var i := k - IDxyzw(id, 0);
      assert k == IDxyzw(id, i);
      StreamEntry(fs, fc, m, id, i);
    }
  }

  /** Entry (id, i) of the stream buffer after `streaming`. */
  lemma StreamEntry<P>(fs: seq<P>, fc: seq<P>, m: seq<Tag>, id: int, i: int)
    requires |fs| == NQ && |fc| == NQ && ShellIsWall(m) && 0 <= id < N && IsDir(i)
    ensures m[id] != WALL ==>
      && Interior(id) && 0 <= Upwind(id, i) < N
      && Upwind(id, i) == IDxyz(X(id) - Ex(i), Y(id) - Ey(i), Z(id) - Ez(i))
    ensures Stream(fs, fc, m)[IDxyzw(id, i)] ==
      if m[id] == WALL then fs[IDxyzw(id, i)] else fc[IDxyzw(Upwind(id, i), i)]
  {
    var k := IDxyzw(id, i);
    assert k / Q == id && k % Q == i;
    if m[id] != WALL {
      UpwindInBox(id, i);
    }
  }

  /** `store_data` without its file output: the density and momentum sums
      of every cell, replaced by NaN on walls and on every face cell but the
      moving face proper. */
  method StoreData<P>(rho: array<P>, u: array<P>, f: array<P>, tags: array<Tag>, ops: CellOps<P>)
    requires rho.Length == N && u.Length == 3 * N && f.Length == NQ && tags.Length == N
    requires rho != u && rho != f && u != f && rho as object != tags && u as object != tags
    modifies rho, u
    ensures rho[..] == StoredDensity(f[..], tags[..], ops)
    ensures u[..] == StoredMomentum(f[..], tags[..], ops)
  {
    for z := 0 to DIM
      invariant forall id :: 0 <= id < IDxyz(0, 0, z) ==> rho[id] == StoredDensityAt(f[..], tags[..], ops, id)
      invariant forall k :: 0 <= k < 3 * IDxyz(0, 0, z) ==> u[k] == StoredMomentumAt(f[..], tags[..], ops, k / 3, k % 3)
    {
      for y := 0 to DIM
        invariant forall id :: 0 <= id < IDxyz(0, y, z) ==> rho[id] == StoredDensityAt(f[..], tags[..], ops, id)
        invariant forall k :: 0 <= k < 3 * IDxyz(0, y, z) ==> u[k] == StoredMomentumAt(f[..], tags[..], ops, k / 3, k % 3)
      {
        for x := 0 to DIM
          invariant forall id :: 0 <= id < IDxyz(x, y, z) ==> rho[id] == StoredDensityAt(f[..], tags[..], ops, id)
          invariant forall k :: 0 <= k < 3 * IDxyz(x, y, z) ==> u[k] == StoredMomentumAt(f[..], tags[..], ops, k / 3, k % 3)
        {
          IdCoords(x, y, z);
          StoreCell(rho, u, f, tags, ops, IDxyz(x, y, z));
        }
      }
    }
    assert rho[..] == StoredDensity(f[..], tags[..], ops);
    assert u[..] == StoredMomentum(f[..], tags[..], ops);
  }

  /** The body of `store_data` for cell id. */
  method StoreCell<P>(rho: array<P>, u: array<P>, f: array<P>, tags: array<Tag>, ops: CellOps<P>, id: int)
    requires rho.Length == N && u.Length == 3 * N && f.Length == NQ && tags.Length == N
    requires rho != u && rho != f && u != f && rho as object != tags && u as object != tags
    requires 0 <= id < N
    modifies rho, u
    ensures rho[id] == StoredDensityAt(f[..], tags[..], ops, id)
    ensures forall j :: 0 <= j < N && j != id ==> rho[j] == old(rho[j])
    ensures forall k :: 3 * id <= k < 3 * id + 3 ==> u[k] == StoredMomentumAt(f[..], tags[..], ops, k / 3, k % 3)
    ensures forall k :: 0 <= k < 3 * N && !(3 * id <= k < 3 * id + 3) ==> u[k] == old(u[k])
  {
    var cell := f[IDxyzw(id, 0)..IDxyzw(id, Q)];
    rho[id] := ops.density(cell);
    u[id * 3 + 0] := ops.momentum(cell, 0);
    u[id * 3 + 1] := ops.momentum(cell, 1);
    u[id * 3 + 2] := ops.momentum(cell, 2);
    var cellType := tags[id];
    if FaceOrWall(cellType) {
      if cellType != BOUNDARY_MOVING {
        rho[id] := ops.nan;
        u[id * 3 + 0] := ops.nan;
        u[id * 3 + 1] := ops.nan;
        u[id * 3 + 2] := ops.nan;
      }
    }
    assert cell == Cell(f[..], id);
    assert forall k :: 3 * id <= k < 3 * id + 3 ==> k / 3 == id && k % 3 == k - 3 * id;
  }

  // ---------------------------------------------------------------------
  // The kernels with the cell arithmetic read over exact reals
  // ---------------------------------------------------------------------

  /** Cell operations that do over exact reals what the float code does:
      `init` seeds the equilibrium at density 1, `boundary_condition`
      rebuilds a moving-face cell as the equilibrium of its density at the
      wall velocity, `collision` is the BGK step of module Physics wherever
      its division by the density is defined, and `store_data` stores the
      density and the three momentum sums.  NaN has no real counterpart and
      is left free. */
  ghost predicate ExactOps(ops: CellOps<real>, invTau: real)
  {
    && (forall ux: real, i: int {:trigger ops.seed(ux, i)} :: ops.seed(ux, i) == Physics.Feq(i, 1.0, ux, 0.0, 0.0))
    && (forall c: seq<real>, i: int {:trigger ops.rebuild(c, i)} :: |c| == Q && 0 <= i < Q ==>
          ops.rebuild(c, i) == Physics.MovingRebuild(c)[i])
    && (forall c: seq<real>, moving: bool, i: int {:trigger ops.relax(c, moving, i)} ::
          |c| == Q && 0 <= i < Q && (moving || Physics.Density(c) != 0.0) ==>
          ops.relax(c, moving, i) == Physics.CollideCell(c, moving, invTau)[i])
    && (forall c: seq<real> {:trigger ops.density(c)} :: |c| == Q ==> ops.density(c) == Physics.Density(c))
    && (forall c: seq<real> {:trigger ops.momentum(c, 0)} :: |c| == Q ==> ops.momentum(c, 0) == Physics.MomentumX(c))
    && (forall c: seq<real> {:trigger ops.momentum(c, 1)} :: |c| == Q ==> ops.momentum(c, 1) == Physics.MomentumY(c))
    && (forall c: seq<real> {:trigger ops.momentum(c, 2)} :: |c| == Q ==> ops.momentum(c, 2) == Physics.MomentumZ(c))
  }

  /** Exact cell operations exist for every relaxation rate. */
  function ExactCellOps(nan: real, invTau: real): (ops: CellOps<real>)
    ensures ExactOps(ops, invTau) && ops.nan == nan
  {
    CellOps(
      nan,
      (ux: real, i: int) => Physics.Feq(i, 1.0, ux, 0.0, 0.0),
      (c: seq<real>, i: int) => if |c| == Q && 0 <= i < Q then Physics.MovingRebuild(c)[i] else nan,
      (c: seq<real>, moving: bool, i: int) =>
        if |c| == Q && 0 <= i < Q && (moving || Physics.Density(c) != 0.0)
        then Physics.CollideCell(c, moving, invTau)[i] else nan,
      (c: seq<real>) => if |c| == Q then Physics.Density(c) else nan,
      (c: seq<real>, k: int) =>
        if |c| != Q then nan
        else if k == 0 then Physics.MomentumX(c)
        else if k == 1 then Physics.MomentumY(c)
        else if k == 2 then Physics.MomentumZ(c)
        else nan)
  }

  /** With exact cell operations, every cell `init` does not make a wall
      leaves it as the equilibrium at density 1: its density is 1, its x
      momentum is the wall velocity on the moving face and 0 elsewhere, and
      it has no y or z momentum. */
  lemma InitialMoments(ops: CellOps<real>, invTau: real, id: int)
    requires ExactOps(ops, invTau) && 0 <= id < N && ClassAt(id) != WALL
    ensures Cell(InitialCollide(ops), id) == Physics.Equilibrium(1.0, InitialVelocity(ClassAt(id)), 0.0, 0.0)
    ensures Physics.Density(Cell(InitialCollide(ops), id)) == 1.0
    ensures Physics.MomentumX(Cell(InitialCollide(ops), id))
      == if ClassAt(id) == BOUNDARY_MOVING then Physics.WallVelocity else 0.0
    ensures Physics.MomentumY(Cell(InitialCollide(ops), id)) == 0.0
    ensures Physics.MomentumZ(Cell(InitialCollide(ops), id)) == 0.0
  {
    var ux := InitialVelocity(ClassAt(id));
    var c := Cell(InitialCollide(ops), id);
    var e := Physics.Equilibrium(1.0, ux, 0.0, 0.0);
    InitialCollideOfCell(ops, id);
    forall i | 0 <= i < Q ensures c[i] == e[i] {
      assert IDxyzw(id, 0) <= IDxyzw(id, i) < IDxyzw(id, Q);
      assert IDxyzw(id, i) - IDxyzw(id, 0) == i;
    }
    assert c == e;
    Physics.RebuildMoments(1.0, ux);
  }

  /** With exact cell operations, `boundary_condition` leaves a cell tagged
      exactly BOUNDARY_MOVING with the density it had after the five copies,
      the x momentum of that density at the wall velocity, and no y or z
      momentum. */
  lemma MovingBoundaryMoments(f: seq<real>, m: seq<Tag>, ops: CellOps<real>, invTau: real, half: seq<int>, id: int)
    requires ExactOps(ops, invTau)
    requires |f| == NQ && |m| == N && ValidHalf(half) && 0 <= id < N && m[id] == BOUNDARY_MOVING
    ensures var c := MovingCopies(Cell(f, id));
      var r := Cell(Boundary(f, m, ops, half), id);
      && Physics.Density(r) == Physics.Density(c)
      && Physics.MomentumX(r) == Physics.Density(c) * Physics.WallVelocity
      && Physics.MomentumY(r) == 0.0 && Physics.MomentumZ(r) == 0.0
  {
    var c := MovingCopies(Cell(f, id));
    var r := Cell(Boundary(f, m, ops, half), id);
    BoundaryEffect(f, m, ops, half, id);
    forall i | 0 <= i < Q ensures r[i] == Physics.MovingRebuild(c)[i] {
      assert r[i] == ops.rebuild(c, i);
    }
    assert r == Physics.MovingRebuild(c);
    Physics.MovingWallImposed(c);
  }

  /** With exact cell operations, `collision` applies `compute_bgk` to every
      population of a colliding cell, towards the equilibrium of its
      collision target; by `Physics.BgkRelaxes` that shrinks the distance
      to that equilibrium by the factor 1 - 1/tau. */
  lemma CollisionRelaxes(f: seq<real>, m: seq<Tag>, ops: CellOps<real>, invTau: real, id: int)
    requires ExactOps(ops, invTau) && |f| == NQ && |m| == N && 0 <= id < N && Collides(m[id])
    requires m[id] == BOUNDARY_MOVING || Physics.Density(Cell(f, id)) != 0.0
    ensures var c := Cell(f, id);
      var t := Physics.CollisionTarget(c, m[id] == BOUNDARY_MOVING);
      forall i :: 0 <= i < Q ==>
        Cell(Collide(f, m, ops), id)[i] == Physics.BgkLocal(c[i], Physics.Feq(i, t.0, t.1, t.2, t.3), invTau)
  {
    var c := Cell(f, id);
    var moving := m[id] == BOUNDARY_MOVING;
    CollideOfCell(f, m, ops, id);
    forall i | 0 <= i < Q
      ensures var t := Physics.CollisionTarget(c, moving);
        Cell(Collide(f, m, ops), id)[i] == Physics.BgkLocal(c[i], Physics.Feq(i, t.0, t.1, t.2, t.3), invTau)
    {
      assert IDxyzw(id, 0) <= IDxyzw(id, i) < IDxyzw(id, Q);
      assert IDxyzw(id, i) - IDxyzw(id, 0) == i;
      assert Cell(Collide(f, m, ops), id)[i] == ops.relax(c, moving, i);
      RelaxIsBgk(c, moving, ops, invTau, i);
    }
  }

  /** One population of one cell under the exact BGK step. */
  lemma RelaxIsBgk(c: seq<real>, moving: bool, ops: CellOps<real>, invTau: real, i: int)
    requires ExactOps(ops, invTau) && |c| == Q && 0 <= i < Q && (moving || Physics.Density(c) != 0.0)
    ensures var t := Physics.CollisionTarget(c, moving);
      ops.relax(c, moving, i) == Physics.BgkLocal(c[i], Physics.Feq(i, t.0, t.1, t.2, t.3), invTau)
  {
    assert ops.relax(c, moving, i) == Physics.CollideCell(c, moving, invTau)[i];
  }

  /** With exact cell operations, `collision` leaves a cell that is not on
      the moving face as it was when it holds an equilibrium of non-zero
      density. */
  lemma CollisionKeepsEquilibrium(f: seq<real>, m: seq<Tag>, ops: CellOps<real>, invTau: real, id: int,
                                  rho: real, ux: real, uy: real, uz: real)
    requires ExactOps(ops, invTau) && |f| == NQ && |m| == N && 0 <= id < N
    requires m[id] != BOUNDARY_MOVING && rho != 0.0
    requires Cell(f, id) == Physics.Equilibrium(rho, ux, uy, uz)
    ensures Cell(Collide(f, m, ops), id) == Cell(f, id)
  {
    var c := Cell(f, id);
    CollideOfCell(f, m, ops, id);
    Physics.EquilibriumIsCollisionFixedPoint(rho, ux, uy, uz, invTau);
    forall i | 0 <= i < Q ensures Cell(Collide(f, m, ops), id)[i] == c[i] {
      assert IDxyzw(id, 0) <= IDxyzw(id, i) < IDxyzw(id, Q);
      assert IDxyzw(id, i) - IDxyzw(id, 0) == i;
      if Collides(m[id]) {
        assert Cell(Collide(f, m, ops), id)[i] == ops.relax(c, false, i);
      }
    }
  }

  /** With exact cell operations, `store_data` stores the density and the
      three momentum sums of every cell it does not mask. */
  lemma StoredMoments(f: seq<real>, m: seq<Tag>, ops: CellOps<real>, invTau: real, id: int)
    requires ExactOps(ops, invTau) && |f| == NQ && |m| == N && 0 <= id < N && !Masked(m[id])
    ensures StoredDensity(f, m, ops)[id] == Physics.Density(Cell(f, id))
    ensures StoredMomentum(f, m, ops)[3 * id] == Physics.MomentumX(Cell(f, id))
    ensures StoredMomentum(f, m, ops)[3 * id + 1] == Physics.MomentumY(Cell(f, id))
    ensures StoredMomentum(f, m, ops)[3 * id + 2] == Physics.MomentumZ(Cell(f, id))
  {
    assert (3 * id) / 3 == id && (3 * id) % 3 == 0;
    assert (3 * id + 1) / 3 == id && (3 * id + 1) % 3 == 1;
    assert (3 * id + 2) / 3 == id && (3 * id + 2) % 3 == 2;
  }
}

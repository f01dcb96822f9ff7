/**
  The memory layout of the OpenCL host (`lbmcl.hpp`): the cell numbering
  `IDxyzDIM`, the strided population layout `IDxyzqDIM`, the buffer sizes,
  and the code `storeMap` writes for each cell of the map dump.

  A cell is numbered x + y·dim + z·dim², so x runs fastest.  The populations
  of the cells are kept in blocks of `stride` consecutive cells: inside a
  block, population q of all its cells are adjacent, and the Q rows of a
  block follow each other.  The index of population q of cell id is
  ((id / stride)·Q + q)·stride + (id & (stride − 1)).
*/
module LbmclLayout {
  import opened SizeBits
  import CommonFlags

  /** Spatial dimensions and discrete velocities (D3Q19). */
  const D: nat := 3
  const Q: nat := 19

  // ---------------------------------------------------------------------------
  // Arithmetic on division

  lemma MulLess(a: int, b: int, c: int)
    requires 0 <= a && a < b && c > 0
    ensures a * c < b * c
  {
  }

  /** a / (b·c) is (a / b) / c. */
  lemma DivDiv(a: nat, b: nat, c: nat)
    requires b >= 1 && c >= 1
    ensures a / (b * c) == (a / b) / c
  {
    var t := a / b;
    var u := t / c;
    assert a == (u * c + t % c) * b + a % b;
    assert a == u * (b * c) + ((t % c) * b + a % b);
    assert (t % c) * b + a % b < b * c by {
      MulLess(t % c, c, b);
      assert (t % c + 1) * b <= c * b by { MulMonotone(t % c + 1, c, b); }
    }
    DivModUnique(a, b * c, u, (t % c) * b + a % b);
  }

  /** One more digit: a·b + r stays below m·b when a < m and r < b. */
  lemma DigitBelow(a: nat, r: nat, b: nat, m: nat)
    requires a < m && r < b
    ensures a * b + r < m * b
  {
    MulMonotone(a + 1, m, b);
  }

  /** A quotient below c comes from a dividend below c·b. */
  lemma QuotientBound(a: int, b: nat, c: nat)
    requires 0 <= a && b >= 1 && a < c * b
    ensures 0 <= a / b < c && 0 <= a % b < b && a == (a / b) * b + a % b
  {
    if a / b >= c {
      MulMonotone(c, a / b, b);
    }
  }

  // ---------------------------------------------------------------------------
  // IDxyzDIM

  /** `IDxyzDIM(x, y, z, dim)`. */
  function IdXyz(x: int, y: int, z: int, dim: int): int
  {
    x + y * dim + z * dim * dim
  }

  /** The coordinates a cell number stands for. */
  function CoordX(id: nat, dim: nat): nat requires dim >= 1 { id % dim }
  function CoordY(id: nat, dim: nat): nat requires dim >= 1 { (id / dim) % dim }
  function CoordZ(id: nat, dim: nat): nat requires dim >= 1 { id / (dim * dim) }

  /** Every point of the box gets a number below dim³, and the number gives
      the point back. */
  lemma IdXyzInjective(x: nat, y: nat, z: nat, dim: nat)
    requires x < dim && y < dim && z < dim
    ensures 0 <= IdXyz(x, y, z, dim) < dim * dim * dim
    ensures CoordX(IdXyz(x, y, z, dim), dim) == x
    ensures CoordY(IdXyz(x, y, z, dim), dim) == y
    ensures CoordZ(IdXyz(x, y, z, dim), dim) == z
  {
    IdXyzDigits(x, y, z, dim);
    DivModUnique(z * dim + y, dim, z, y);
    DivDiv(IdXyz(x, y, z, dim), dim, dim);
  }

  /** The last digit of a cell number is x, the rest z·dim + y. */
  lemma IdXyzDigits(x: nat, y: nat, z: nat, dim: nat)
    requires x < dim && y < dim && z < dim
    ensures 0 <= IdXyz(x, y, z, dim) < dim * dim * dim
    ensures IdXyz(x, y, z, dim) / dim == z * dim + y
    ensures IdXyz(x, y, z, dim) % dim == x
  {
    var t := z * dim + y;
    IdXyzHorner(x, y, z, dim);
    DivModUnique(t * dim + x, dim, t, x);
    DigitBelow(z, y, dim, dim);
    DigitBelow(t, x, dim, dim * dim);
  }

  lemma IdXyzHorner(x: int, y: int, z: int, dim: int)
    ensures IdXyz(x, y, z, dim) == (z * dim + y) * dim + x
  {
  }

  /** Every number below dim³ is the number of a point of the box. */
  lemma IdXyzSurjective(id: nat, dim: nat)
    requires dim >= 1 && id < dim * dim * dim
    ensures CoordX(id, dim) < dim && CoordY(id, dim) < dim && CoordZ(id, dim) < dim
    ensures IdXyz(CoordX(id, dim), CoordY(id, dim), CoordZ(id, dim), dim) == id
  {
    var t := id / dim;
    DivDiv(id, dim, dim);
    QuotientBound(id, dim, dim * dim);
    QuotientBound(t, dim, dim);
    assert id == t * dim + id % dim;
    assert t == (t / dim) * dim + t % dim;
  }

  // ---------------------------------------------------------------------------
  // IDxyzqDIM

  /** `IDxyzqDIM(id, q, dim, stride)`; the host passes Q for `dim`. */
  function IdXyzq(id: nat, q: nat, dim: nat, stride: nat): int
    requires stride >= 1
  {
    ((id / stride) * dim + q) * stride + And(id, stride - 1)
  }

  /** The cell an index of the population buffer belongs to. */
  function CellOf(k: int, stride: nat): int
    requires stride >= 1
  {
    (k / stride / Q) * stride + k % stride
  }

  /** The direction an index of the population buffer belongs to. */
  function DirOf(k: int, stride: nat): int
    requires stride >= 1
  {
    (k / stride) % Q
  }

  /** `IDxyzqDIM` with the mask read as the remainder it is for a
      power-of-two stride. */
  lemma IdXyzqDivMod(id: nat, q: nat, stride: nat)
    requires IsPowerOfTwo(stride)
    ensures IdXyzq(id, q, Q, stride) == ((id / stride) * Q + q) * stride + id % stride
  {
    StrideShiftAndMask(id, stride);
  }

  /** The digits of a strided index: block b, direction q, lane r. */
  lemma StridedDigits(b: int, q: int, r: int, stride: nat, c: nat)
    requires 0 <= b < c && 0 <= q < Q && 0 <= r < stride
    ensures 0 <= (b * Q + q) * stride + r < (c * stride) * Q
    ensures ((b * Q + q) * stride + r) / stride == b * Q + q
    ensures ((b * Q + q) * stride + r) % stride == r
    ensures (b * Q + q) / Q == b && (b * Q + q) % Q == q
  {
    var t := b * Q + q;
    DivModUnique(t * stride + r, stride, t, r);
    DivModUnique(t, Q, b, q);
    DigitBelow(b, q, Q, c);
    DigitBelow(t, r, stride, c * Q);
    assert (c * Q) * stride == (c * stride) * Q;
  }

  /** A cell below n·stride... lies in a block below n / stride. */
  lemma BlockOf(id: nat, n: nat, stride: nat)
    requires stride >= 1 && n % stride == 0 && id < n
    ensures 0 <= id / stride < n / stride && 0 <= id % stride < stride
    ensures n == (n / stride) * stride
    ensures id == (id / stride) * stride + id % stride
  {
    assert n == (n / stride) * stride;
    QuotientBound(id, stride, n / stride);
  }

  /** A strided index lies below n·Q, and gives back its cell and direction.
      The n cells must fill whole blocks, which for powers of two means
      stride <= n. */
  lemma IdXyzqInjective(id: nat, q: nat, n: nat, stride: nat)
    requires IsPowerOfTwo(stride) && n % stride == 0
    requires id < n && q < Q
    ensures 0 <= IdXyzq(id, q, Q, stride) < n * Q
    ensures CellOf(IdXyzq(id, q, Q, stride), stride) == id
    ensures DirOf(IdXyzq(id, q, Q, stride), stride) == q
  {
    IdXyzqDivMod(id, q, stride);
    BlockOf(id, n, stride);
    var c := n / stride;
    StridedDigits(id / stride, q, id % stride, stride, c);
  }

  /** Every index below n·Q is the strided index of a cell below n and a
      direction below Q. */
  lemma IdXyzqSurjective(k: nat, n: nat, stride: nat)
    requires IsPowerOfTwo(stride) && n % stride == 0
    requires k < n * Q
    ensures 0 <= CellOf(k, stride) < n && 0 <= DirOf(k, stride) < Q
    ensures IdXyzq(CellOf(k, stride), DirOf(k, stride), Q, stride) == k
  {
    var c := n / stride;
    assert n == c * stride;
    StridedSplit(k, stride, c);
    IdXyzqDivMod(CellOf(k, stride), DirOf(k, stride), stride);
  }

  /** The digits of an index below c·stride·Q, read back into a cell of one
      of the c blocks and a direction. */
  lemma StridedSplit(k: nat, stride: nat, c: nat)
    requires stride >= 1 && k < (c * stride) * Q
    ensures 0 <= CellOf(k, stride) < c * stride && 0 <= DirOf(k, stride) < Q
    ensures ((CellOf(k, stride) / stride) * Q + DirOf(k, stride)) * stride
      + CellOf(k, stride) % stride == k
  {
    SplitQuotients(k, stride, c);
    CellDigits(k / stride / Q, k % stride, stride, c);
  }

  lemma SplitQuotients(k: nat, stride: nat, c: nat)
    requires stride >= 1 && k < (c * stride) * Q
    ensures 0 <= k / stride / Q < c && 0 <= (k / stride) % Q < Q && 0 <= k % stride < stride
    ensures k == ((k / stride / Q) * Q + (k / stride) % Q) * stride + k % stride
  {
    assert k < (c * Q) * stride;
    QuotientBound(k, stride, c * Q);
    QuotientBound(k / stride, Q, c);
  }

  lemma CellDigits(b: int, r: int, stride: nat, c: nat)
    requires 0 <= b < c && 0 <= r < stride
    ensures 0 <= b * stride + r < c * stride
    ensures (b * stride + r) / stride == b && (b * stride + r) % stride == r
  {
    DigitBelow(b, r, stride, c);
    DivModUnique(b * stride + r, stride, b, r);
  }

  /** The blocks fill the cells exactly when the stride is at most the number
      of cells: both are powers of two. */
  lemma WholeBlocks(n: nat, stride: nat)
    requires IsPowerOfTwo(n) && IsPowerOfTwo(stride)
    ensures n % stride == 0 <==> stride <= n
  {
    if stride <= n {
      SmallerStrideDivides(n, stride);
    } else {
      DivModUnique(n, stride, 0, n);
    }
  }

  /** A power-of-two stride not larger than a power-of-two cell count
      divides it. */
  lemma SmallerStrideDivides(n: nat, stride: nat)
    requires IsPowerOfTwo(n) && IsPowerOfTwo(stride) && stride <= n
    ensures n % stride == 0
  {
    PowerOfTwoIsPow2(n);
    PowerOfTwoIsPow2(stride);
    var j, k := Log2(stride), Log2(n);
    if j > k {
      Pow2Monotone(k + 1, j);
    }
    var m := Pow2(k - j);
    Pow2Split(j, k);
    DivModUnique(n, stride, m, 0);
  }

  lemma {:induction false} Pow2Split(j: nat, k: nat)
    requires j <= k
    ensures Pow2(k) == Pow2(k - j) * Pow2(j)
  {
    if j < k {
      Pow2Split(j, k - 1);
      assert Pow2(k - j) == 2 * Pow2(k - 1 - j);
    }
  }

  /** A power-of-two edge gives a power-of-two cell count. */
  lemma CubeOfPowerOfTwo(dim: nat)
    requires IsPowerOfTwo(dim)
    ensures IsPowerOfTwo(dim * dim * dim)
  {
    PowerOfTwoIsPow2(dim);
    var k := Log2(dim);
    Pow2Add(k, k);
    Pow2Add(k + k, k);
    Pow2IsPowerOfTwo(k + k + k);
  }

  /** With a stride above the cell count the layout runs past the buffer:
      for dim = 2 and the default stride 32, population 18 of cell 7 lands at
      583, beyond the 2³·19 = 152 entries of the buffer. */
  lemma StrideAboveCells()
    ensures IsPowerOfTwo(32) && IsPowerOfTwo(8)
    ensures IdXyzq(7, 18, Q, 32) == 583 && 583 >= 8 * Q
  {
    Pow2IsPowerOfTwo(5);
    Pow2IsPowerOfTwo(3);
    assert Pow2(5) == 32 && Pow2(3) == 8;
    MaskIsMod(7, 5);
  }

  // ---------------------------------------------------------------------------
  // Buffer sizes (size_t arithmetic, modulo 2^64)

  function Cells(dim: nat): nat { (dim * dim * dim) % WORD }
  function FDim(dim: nat): nat { (dim * dim * dim * Q) % WORD }
  function UDim(dim: nat): nat { (dim * dim * dim * D) % WORD }
  function RhoDim(dim: nat): nat { Cells(dim) }
  function MapDim(dim: nat): nat { Cells(dim) }

  /** `device_memory_size_b`: two population buffers, the velocity, the
      density and the map; `elem` is `sizeof(T)` and an `int` takes 4 bytes. */
  function DeviceMemoryBytes(dim: nat, elem: nat): nat
  {
    ((FDim(dim) * elem) % WORD * 2 + (UDim(dim) * elem) % WORD
      + (RhoDim(dim) * elem) % WORD + (MapDim(dim) * 4) % WORD) % WORD
  }

  /** Short of wrap-around, the device holds dim³ cells of 2·Q + D + 1 values
      of `sizeof(T)` bytes (4 for float, 8 for double) and one 4-byte `int`
      each. */
  lemma DeviceMemoryOfCells(dim: nat)
    requires dim <= 0x1_0000
    ensures DeviceMemoryBytes(dim, 4) == dim * dim * dim * ((2 * Q + D + 1) * 4 + 4)
    ensures DeviceMemoryBytes(dim, 8) == dim * dim * dim * ((2 * Q + D + 1) * 8 + 4)
  {
    var n := dim * dim * dim;
    CubeBelow(dim);
    CellSizes(dim, n);
    BytesOfCount(n, FDim(dim), UDim(dim), Cells(dim), 4);
    BytesOfCount(n, FDim(dim), UDim(dim), Cells(dim), 8);
  }

  lemma CellSizes(dim: nat, n: nat)
    requires n == dim * dim * dim <= 0x1_0000_0000_0000
    ensures Cells(dim) == n && FDim(dim) == n * Q && UDim(dim) == n * D
  {
  }

  lemma BytesOfCount(n: nat, f: nat, u: nat, c: nat, elem: nat)
    requires n <= 0x1_0000_0000_0000 && f == n * Q && u == n * D && c == n
    requires elem == 4 || elem == 8
    ensures ((f * elem) % WORD * 2 + (u * elem) % WORD + (c * elem) % WORD + (c * 4) % WORD) % WORD
      == n * ((2 * Q + D + 1) * elem + 4)
  {
    MulMonotone(n, 0x1_0000_0000_0000, elem * Q);
    ModSmall(f * elem);
    ModSmall(u * elem);
    ModSmall(c * elem);
    ModSmall(c * 4);
    ModSmall(f * elem * 2 + u * elem + c * elem + c * 4);
  }

  lemma ModSmall(v: int)
    requires 0 <= v < WORD
    ensures v % WORD == v
  {
  }

  lemma CubeBelow(dim: nat)
    requires dim <= 0x1_0000
    ensures dim * dim * dim <= 0x1_0000_0000_0000
  {
    if dim > 0 {
      MulMonotone(dim, 0x1_0000, dim);
      MulMonotone(dim * dim, 0x1_0000_0000, dim);
    }
  }

  // ---------------------------------------------------------------------------
  // storeMap

  /** The code `storeMap` writes for a cell: the tests run in the order fluid,
      moving, boundary, wall, corner, and the last one that holds wins. */
  function StoreMapCode(c: CommonFlags.Tag): int
  {
    var v0 := 0;
    var v1 := if CommonFlags.IsFluid(c) then 1 else v0;
    var v2 := if CommonFlags.IsMoving(c) then 2 else v1;
    var v3 := if CommonFlags.IsBoundary(c) then 3 else v2;
    var v4 := if CommonFlags.IsWall(c) then 4 else v3;
    if CommonFlags.IsCorner(c) then 5 else v4
  }

  /** The code in closed form: 5 for the exact CORNER tag, 4 for WALL, 3 for
      any face flag, 2 for MOVING without a face flag, 1 for FLUID, else 0. */
  lemma StoreMapCodeCases(c: CommonFlags.Tag)
    ensures StoreMapCode(c) == 5 <==> c == CommonFlags.CORNER
    ensures StoreMapCode(c) == 4 <==> c == CommonFlags.WALL
    ensures StoreMapCode(c) == 3 <==> c & CommonFlags.FACES != 0
    ensures StoreMapCode(c) == 2 <==> c & CommonFlags.MOVING != 0 && c & CommonFlags.FACES == 0
    ensures StoreMapCode(c) == 1 <==> c == CommonFlags.FLUID
    ensures StoreMapCode(c) == 0 <==>
      c & (CommonFlags.FACES | CommonFlags.MOVING) == 0 && c != CommonFlags.FLUID
      && c != CommonFlags.WALL && c != CommonFlags.CORNER
  {
  }

  /** A lid cell is tagged FRONT | MOVING: `storeMap` writes it as a boundary
      cell, 3, so no cell of the classified box is ever written as 2. */
  lemma StoreMapLid(faces: CommonFlags.Tag)
    requires faces & !CommonFlags.FACES == 0
    ensures StoreMapCode(faces | CommonFlags.FRONT | CommonFlags.MOVING) == 3
  {
  }

  /** The code the legend of the dump promises: moving cells as 2, other
      boundary cells as 3. */
  function StoreMapCodeIntended(c: CommonFlags.Tag): int
  {
    if c == CommonFlags.CORNER then 5
    else if c == CommonFlags.WALL then 4
    else if c & CommonFlags.MOVING != 0 then 2
    else if c & CommonFlags.FACES != 0 then 3
    else if c == CommonFlags.FLUID then 1
    else 0
  }

  /** The intended code writes every lid cell as 2, and agrees with
      `storeMap` on every tag without the MOVING flag. */
  lemma StoreMapCodeIntendedCases(c: CommonFlags.Tag, faces: CommonFlags.Tag)
    requires faces & !CommonFlags.FACES == 0
    ensures StoreMapCodeIntended(faces | CommonFlags.FRONT | CommonFlags.MOVING) == 2
    ensures c & CommonFlags.MOVING == 0 ==> StoreMapCodeIntended(c) == StoreMapCode(c)
  {
  }
}

/**
  The time loop of the stand-alone solver `lbmcpp.cpp`: `init`, a first
  `store_data` of `f_collide`, then passes of boundary condition, collision
  and streaming, after each of which the two buffer pointers are exchanged
  and `store_data` reads the buffer that now goes by `f_stream`.

  The solver defines its own bounce-back list `UNROLL_HALF_19` as the
  directions 1..9, and its loop runs ten passes whatever count was given on
  the command line.  Both are modelled as written (`SolverMain`) and, next
  to them, as evidently intended (`SolverMainCorrected`: the half set of
  `constants.h` and the requested number of passes).
*/
module LbmcppMain {
  import opened Lattice
  import opened LbmcppTags
  import opened LbmcppKernels

  /** The directions of the solver's local `UNROLL_HALF_19`. */
  const LocalHalf: seq<int> := [1, 2, 3, 4, 5, 6, 7, 8, 9]

  /** The number of passes the loop of `main` runs. */
  const MainPasses: nat := 10

  // ---------------------------------------------------------------------
  // The bounce-back swap lists
  // ---------------------------------------------------------------------

  /** As written, the local list swaps (1,3), (2,4), (5,6) and (7,9) twice
      each, so those swaps cancel: the static boundary only exchanges f8 and
      f10 and leaves the other seventeen populations where they were. */
  lemma LocalHalfNetEffect<P>(c: seq<P>)
    requires |c| == Q
    ensures ApplySwaps(c, LocalHalf) == SwapOpp(c, 8)
  {
    LocalHalfChunks();
    ApplySwapsAppend(c, [1, 2, 3, 4], [5, 6] + [7, 8, 9]);
    FirstFourCancel(c);
    ApplySwapsAppend(c, [5, 6], [7, 8, 9]);
    FifthSixthCancel(c);
    LastThree(c);
  }

  /** The local list in three chunks, each a list of directions. */
  lemma LocalHalfChunks()
    ensures ValidHalf([1, 2, 3, 4]) && ValidHalf([5, 6]) && ValidHalf([7, 8, 9])
    ensures ValidHalf([5, 6] + [7, 8, 9])
    ensures LocalHalf == [1, 2, 3, 4] + ([5, 6] + [7, 8, 9])
  {
  }

  /** A list of swaps split in two executes as its first part and then its
      second. */
  lemma {:induction false} ApplySwapsAppend<P>(c: seq<P>, a: seq<int>, b: seq<int>)
    requires |c| == Q && ValidHalf(a) && ValidHalf(b)
    ensures ValidHalf(a + b)
    ensures ApplySwaps(c, a + b) == ApplySwaps(ApplySwaps(c, a), b)
    decreases |a|
  {
    if a == [] {
      assert a + b == b;
    } else {
      assert (a + b)[0] == a[0];
      assert (a + b)[1..] == a[1..] + b;
      ApplySwapsAppend(SwapOpp(c, a[0]), a[1..], b);
    }
  }

  /** Directions 1, 2, 3, 4 swap the pairs (1,3) and (2,4) twice each. */
  lemma FirstFourCancel<P>(c: seq<P>)
    requires |c| == Q
    ensures ApplySwaps(c, [1, 2, 3, 4]) == c
  {
    var c1 := SwapOpp(c, 1);
    var c2 := SwapOpp(c1, 2);
    UnfoldFour(c, 1, 2, 3, 4);
    UnfoldThree(c1, 2, 3, 4);
    UnfoldTwo(c2, 3, 4);
    UnfoldOne(SwapOpp(c2, 3), 4);
    SwapsOneToFour(c);
  }

  /** Directions 5, 6 swap the pair (5,6) twice. */
  lemma FifthSixthCancel<P>(c: seq<P>)
    requires |c| == Q
    ensures ApplySwaps(c, [5, 6]) == c
  {
    UnfoldTwo(c, 5, 6);
    UnfoldOne(SwapOpp(c, 5), 6);
    SwapsFiveSix(c);
  }

  /** Directions 7, 8, 9 swap (7,9) twice and (8,10) once. */
  lemma LastThree<P>(c: seq<P>)
    requires |c| == Q
    ensures ApplySwaps(c, [7, 8, 9]) == SwapOpp(c, 8)
  {
    var c7 := SwapOpp(c, 7);
    UnfoldThree(c, 7, 8, 9);
    UnfoldTwo(c7, 8, 9);
    UnfoldOne(SwapOpp(c7, 8), 9);
    SwapsSevenToNine(c);
  }

  // One step of `ApplySwaps` on short lists of directions.

  lemma UnfoldOne<P>(c: seq<P>, a: int)
    requires |c| == Q && IsDir(a)
    ensures ApplySwaps(c, [a]) == SwapOpp(c, a)
  {
    assert [a][1..] == [];
  }

  lemma UnfoldTwo<P>(c: seq<P>, a: int, b: int)
    requires |c| == Q && IsDir(a) && IsDir(b)
    ensures ApplySwaps(c, [a, b]) == ApplySwaps(SwapOpp(c, a), [b])
  {
    assert [a, b][1..] == [b];
  }

  lemma UnfoldThree<P>(c: seq<P>, a: int, b: int, d: int)
    requires |c| == Q && IsDir(a) && IsDir(b) && IsDir(d)
    ensures ApplySwaps(c, [a, b, d]) == ApplySwaps(SwapOpp(c, a), [b, d])
  {
    assert [a, b, d][1..] == [b, d];
  }

  lemma UnfoldFour<P>(c: seq<P>, a: int, b: int, d: int, e: int)
    requires |c| == Q && IsDir(a) && IsDir(b) && IsDir(d) && IsDir(e)
    ensures ApplySwaps(c, [a, b, d, e]) == ApplySwaps(SwapOpp(c, a), [b, d, e])
  {
    assert [a, b, d, e][1..] == [b, d, e];
  }

  /** Swapping (1,3), (2,4), (3,1), (4,2) restores the cell. */
  lemma SwapsOneToFour<P>(c: seq<P>)
    requires |c| == Q
    ensures SwapOpp(SwapOpp(SwapOpp(SwapOpp(c, 1), 2), 3), 4) == c
  {
  }

  /** Swapping (5,6) and then (6,5) restores the cell. */
  lemma SwapsFiveSix<P>(c: seq<P>)
    requires |c| == Q
    ensures SwapOpp(SwapOpp(c, 5), 6) == c
  {
  }

  /** Swapping (7,9), (8,10), (9,7) leaves only the swap (8,10). */
  lemma SwapsSevenToNine<P>(c: seq<P>)
    requires |c| == Q
    ensures SwapOpp(SwapOpp(SwapOpp(c, 7), 8), 9) == SwapOpp(c, 8)
  {
  }

  /** The effect the bounce-back evidently intends, which the half set of
      `constants.h` achieves: every population of a static boundary cell is
      replaced by the one of the opposite direction. */
  lemma HalfSetBounceBack<P>(c: seq<P>, t: Tag, ops: CellOps<P>)
    requires |c| == Q && IsBoundary(t) && t != BOUNDARY_MOVING
    ensures ValidHalf(HalfSet)
    ensures forall i :: 0 <= i < Q ==> BoundaryCell(c, t, ops, HalfSet)[i] == Opposite(c, i)
  {
    HalfSetPartition();
    HalfSetSwapsReverse(c, HalfSet);
  }

  /** A cell whose populations are their own direction numbers shows the
      difference: after the as-written bounce-back f1 still holds the value of
      direction 1 instead of that of direction 3. */
  lemma LocalHalfMissesReversal()
    ensures var c := seq(Q, i => i);
      ApplySwaps(c, LocalHalf)[1] == 1 && c[Opp(1)] == 3
  {
    LocalHalfNetEffect(seq(Q, i => i));
  }

  // ---------------------------------------------------------------------
  // The passes of the main loop
  // ---------------------------------------------------------------------

  /** The contents of the arrays that go by `f_stream` and `f_collide`. */
  datatype Buffers<P> = Buffers(stream: seq<P>, collide: seq<P>)

  /** What `store_data` writes: the `rho` and `u` arrays. */
  datatype Snapshot<P> = Snapshot(rho: seq<P>, u: seq<P>)

  predicate WellSized<P>(b: Buffers<P>)
  {
    |b.stream| == NQ && |b.collide| == NQ
  }

  /** One pass of the loop: boundary condition and collision in `f_collide`,
      streaming into `f_stream`, then the pointer exchange, after which
      `f_stream` names the relaxed buffer and `f_collide` the streamed one. */
  function Pass<P>(b: Buffers<P>, m: seq<Tag>, ops: CellOps<P>, half: seq<int>): (r: Buffers<P>)
    requires WellSized(b) && ShellIsWall(m) && ValidHalf(half)
    ensures WellSized(r)
  {
    var relaxed := Collide(Boundary(b.collide, m, ops, half), m, ops);
    Buffers(relaxed, Stream(b.stream, relaxed, m))
  }

  /** The buffers after n passes. */
  function After<P>(b: Buffers<P>, m: seq<Tag>, ops: CellOps<P>, half: seq<int>, n: nat): (r: Buffers<P>)
    requires WellSized(b) && ShellIsWall(m) && ValidHalf(half)
    ensures WellSized(r)
  {
    if n == 0 then b else Pass(After(b, m, ops, half, n - 1), m, ops, half)
  }

  /** What `store_data` writes for buffer f. */
  function Store<P>(f: seq<P>, m: seq<Tag>, ops: CellOps<P>): Snapshot<P>
    requires |f| == NQ && |m| == N
  {
    Snapshot(StoredDensity(f, m, ops), StoredMomentum(f, m, ops))
  }

  /** The buffers right after `init`. */
  function Initial<P>(ops: CellOps<P>): (b: Buffers<P>)
    ensures WellSized(b)
  {
    Buffers(seq(NQ, k => ops.nan), InitialCollide(ops))
  }

  /** The snapshots of `f_stream` taken after each of the first n passes. */
  function Stores<P>(b: Buffers<P>, m: seq<Tag>, ops: CellOps<P>, half: seq<int>, n: nat): (t: seq<Snapshot<P>>)
    requires WellSized(b) && ShellIsWall(m) && ValidHalf(half)
    ensures |t| == n
  {
    if n == 0 then [] else Stores(b, m, ops, half, n - 1) + [Store(After(b, m, ops, half, n).stream, m, ops)]
  }

  /** Snapshot k of the sequence is taken after pass k + 1. */
  lemma {:induction false} StoresAt<P>(b: Buffers<P>, m: seq<Tag>, ops: CellOps<P>, half: seq<int>, n: nat, k: nat)
    requires WellSized(b) && ShellIsWall(m) && ValidHalf(half) && k < n
    ensures Stores(b, m, ops, half, n)[k] == Store(After(b, m, ops, half, k + 1).stream, m, ops)
  {
    var prev := Stores(b, m, ops, half, n - 1);
    if k < n - 1 {
      StoresAt(b, m, ops, half, n - 1, k);
      SnocKeeps(prev, Store(After(b, m, ops, half, n).stream, m, ops), k);
    }
  }

  /** Appending leaves the existing elements where they are. */
  lemma SnocKeeps<T>(s: seq<T>, x: T, k: nat)
    requires k < |s|
    ensures (s + [x])[k] == s[k]
  {
  }

  /** Everything the program stores: the snapshot of `f_collide` after
      `init`, then the snapshot of `f_stream` after each pass. */
  function Trace<P>(ops: CellOps<P>, half: seq<int>, passes: nat): (t: seq<Snapshot<P>>)
    requires ValidHalf(half)
    ensures |t| == passes + 1
  {
    ClassMapShellIsWall();
    [Store(Initial(ops).collide, ClassMap(), ops)] + Stores(Initial(ops), ClassMap(), ops, half, passes)
  }

  /** The passes of the loop on the two buffers and the two macroscopic
      arrays.  The returned references are the arrays that go by `f_stream`
      and `f_collide` at the end: they alternate with the parity of the
      number of passes. */
  method Run<P>(fStream: array<P>, fCollide: array<P>, tags: array<Tag>, rho: array<P>, u: array<P>,
                ops: CellOps<P>, half: seq<int>, passes: nat)
    returns (fs: array<P>, fc: array<P>, snapshots: seq<Snapshot<P>>)
    requires fStream.Length == NQ && fCollide.Length == NQ && tags.Length == N
    requires rho.Length == N && u.Length == 3 * N
    requires fStream != fCollide && rho != u
    requires rho != fStream && rho != fCollide && u != fStream && u != fCollide
    requires fStream as object != tags && fCollide as object != tags
    requires rho as object != tags && u as object != tags
    requires ShellIsWall(tags[..]) && ValidHalf(half)
    modifies fStream, fCollide, rho, u
    ensures fs == (if passes % 2 == 0 then fStream else fCollide)
    ensures fc == (if passes % 2 == 0 then fCollide else fStream)
    ensures Buffers(fs[..], fc[..]) == After(Buffers(old(fStream[..]), old(fCollide[..])), tags[..], ops, half, passes)
    ensures snapshots == Stores(Buffers(old(fStream[..]), old(fCollide[..])), tags[..], ops, half, passes)
  {
    ghost var b0 := Buffers(fStream[..], fCollide[..]);
    ghost var m := tags[..];
    fs, fc := fStream, fCollide;
    snapshots := [];
    for i := 0 to passes
      invariant fs == (if i % 2 == 0 then fStream else fCollide)
      invariant fc == (if i % 2 == 0 then fCollide else fStream)
      invariant tags[..] == m
      invariant fs[..] == After(b0, m, ops, half, i).stream
      invariant fc[..] == After(b0, m, ops, half, i).collide
      invariant snapshots == Stores(b0, m, ops, half, i)
    {
      PassStep(fs, fc, tags, rho, u, ops, half, b0, m, i);
      fs, fc := fc, fs;
      snapshots := snapshots + [Snapshot(rho[..], u[..])];
    }
  }

  /** One pass of the loop body before the pointer exchange: afterwards
      `fCollide` holds the relaxed buffer (the next `f_stream`), `fStream`
      the streamed one, and `rho` and `u` the stored moments of the former. */
  method PassStep<P>(fStream: array<P>, fCollide: array<P>, tags: array<Tag>, rho: array<P>, u: array<P>,
                     ops: CellOps<P>, half: seq<int>, ghost b0: Buffers<P>, ghost m: seq<Tag>, ghost i: nat)
    requires fStream.Length == NQ && fCollide.Length == NQ && tags.Length == N
    requires rho.Length == N && u.Length == 3 * N
    requires fStream != fCollide && rho != u
    requires rho != fStream && rho != fCollide && u != fStream && u != fCollide
    requires fStream as object != tags && fCollide as object != tags
    requires rho as object != tags && u as object != tags
    requires WellSized(b0) && tags[..] == m && ShellIsWall(m) && ValidHalf(half)
    requires fStream[..] == After(b0, m, ops, half, i).stream
    requires fCollide[..] == After(b0, m, ops, half, i).collide
    modifies fStream, fCollide, rho, u
    ensures fCollide[..] == After(b0, m, ops, half, i + 1).stream
    ensures fStream[..] == After(b0, m, ops, half, i + 1).collide
    ensures Stores(b0, m, ops, half, i + 1) == Stores(b0, m, ops, half, i) + [Snapshot(rho[..], u[..])]
  {
    BoundaryCondition(fCollide, tags, ops, half);
    Collision(fCollide, tags, ops);
    Streaming(fStream, fCollide, tags);
    StoreData(rho, u, fCollide, tags, ops);
  }

  /** `main` as written: the iteration count parsed from the command line is
      not used; the loop always runs ten passes with the local swap list. */
  method SolverMain<P>(iterations: int, ops: CellOps<P>) returns (snapshots: seq<Snapshot<P>>)
    ensures |snapshots| == MainPasses + 1
    ensures snapshots == Trace(ops, LocalHalf, MainPasses)
  {
    snapshots := Simulate(ops, LocalHalf, MainPasses);
  }

  /** `main` as evidently intended: the parsed number of passes (none for a
      negative count) with the half set of `constants.h`, so that static
      boundaries reverse every population. */
  method SolverMainCorrected<P>(iterations: int, ops: CellOps<P>) returns (snapshots: seq<Snapshot<P>>)
    ensures |snapshots| == (if iterations < 0 then 0 else iterations) + 1
    ensures snapshots == Trace(ops, HalfSet, if iterations < 0 then 0 else iterations)
  {
    HalfSetPartition();
    var passes: nat := if iterations < 0 then 0 else iterations;
    snapshots := Simulate(ops, HalfSet, passes);
  }

  /** Allocation, `init`, the first `store_data`, and the passes. */
  method Simulate<P>(ops: CellOps<P>, half: seq<int>, passes: nat)
    returns (snapshots: seq<Snapshot<P>>)
    requires ValidHalf(half)
    ensures snapshots == Trace(ops, half, passes)
  {
    var rho := new P[N](_ => ops.nan);
    var u := new P[3 * N](_ => ops.nan);
    var fStream := new P[NQ](_ => ops.nan);
    var fCollide := new P[NQ](_ => ops.nan);
    var tags := new Tag[N];
    Init(fStream, fCollide, tags, ops);
    ClassMapShellIsWall();
    assert fStream[..] == Initial(ops).stream;
    StoreData(rho, u, fCollide, tags, ops);
    var first := Snapshot(rho[..], u[..]);
    var fs, fc, rest := Run(fStream, fCollide, tags, rho, u, ops, half, passes);
    snapshots := [first] + rest;
  }
}

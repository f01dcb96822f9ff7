# LBMCL: the discrete skeleton of a D3Q19 lattice-Boltzmann solver

LBMCL simulates a lid-driven cavity with the D3Q19 lattice-Boltzmann
method. A cubic box of `dim³` cells holds 19 particle populations per cell,
one for each of the 19 lattice directions. Each time step:

- boundary cells reflect their populations (bounce-back), or are rebuilt at
  the wall velocity on the moving lid;
- every fluid cell relaxes towards equilibrium (BGK collision);
- every cell gathers each population from its upwind neighbour (streaming).

The repository has two programs:

- `lbmcpp.cpp` is a stand-alone CPU solver on an 8³ box.
- An OpenCL host (`lbmcl.hpp` with the `LBMCL` class, and `lbmcl.cpp` with
  its own `main`) launches device kernels over a strided population buffer.
  It reads results back every N iterations.

This project models the integer and permutation logic of both programs and
proves what it does. The parts it covers:

- the lattice tables;
- the cell classification and its flag predicates;
- the in-place kernels of the CPU solver and its ping-pong loop;
- the host's buffer layout, bit tricks, constructor normalisation, kernel
  schedule and dump rules.

Population values are only copied, swapped or overwritten by these
operations. The grid model therefore takes them as an abstract type `P`. The
per-cell floating-point work is a record of functions (`CellOps`): the
equilibrium seed, the moving-wall rebuild, the BGK relaxation and the
moment sums. Module `Physics` states that arithmetic over exact reals.
`LbmcppKernels.ExactOps` says when a `CellOps` value does exactly that
arithmetic. Under it, the grid lemmas carry the `Physics` identities over to
the kernels: the moments after `init`, the state `boundary_condition`
imposes on the moving face, the BGK step of `collision`, and the sums
`store_data` stores. Without it, the grid model assumes nothing about the
values of the cell operations.

Modules:

- `Lattice` holds the velocity vectors, opposite table, weights and the
  bounce-back half set of `constants.h`. The `E` tables of `lbmcpp.cpp` are
  the same, entry for entry.
- `HeaderFlags` and `CommonFlags` hold the flag bits and cell predicates of
  `constants.h` and `common.h`. The two headers define different bit values,
  so each has its own module.
- `LbmcppTags` holds the classification `init` performs, with the flag
  values of `lbmcpp.cpp`.
- `LbmcppKernels` holds `init`, `boundary_condition`, `collision`,
  `streaming` and `store_data` as methods on arrays. Each is proved equal to
  a function on the whole buffer, with lemmas on what that function does
  cell by cell.
- `LbmcppMain` holds the pass loop of `main` with its pointer exchange.
- `SizeBits` holds `size_t` arithmetic: `is_power_of_two`, `log2i` and
  `previous_power_of_two`. It models the 64-bit wrap explicitly.
- `LbmclLayout` holds the index macros `IDxyzDIM` and `IDxyzqDIM`, the
  device-memory size, and the `storeMap` codes.
- `LbmclHost` holds the `LBMCL` class: constructor normalisation,
  `setupSimulation` and `performSimulation`.
- `LbmclMain` holds the timestamp loop of `lbmcl.cpp`, `processData` and
  the `dump_map` codes.

Where the host's external effects matter (kernel launches, read-backs,
dumps), the model records them as a log of actions. The ordering
properties are stated over that log.

Some behaviours are stated as the code has them and are worth knowing:

- The strided layout `IDxyzqDIM` is a bijection only when the stride (a power
  of two) is at most the cell count. The constructor does not check this.
  For `dim = 2` and the default stride 32, population 18 of cell 7 lands at
  index 583 of a 152-entry buffer (`LbmclLayout.StrideAboveCells`).
- In `lbmcl.cpp`, an `every` of 0 with `store_vti` on reaches
  `(timestamp - 1) % 0`. The model ends the program there with a
  `DivisionByZero` action. A negative `every` behaves as its absolute value,
  because C's `%` truncates. The default `every = -1` therefore stores after
  every step.
- `collision` in `lbmcpp.cpp` selects tags with the FLUID or the FRONT bit.
  On the map `init` writes, that includes the edges and corners of the
  moving face. The wall velocity is imposed only when the tag is exactly
  FRONT.

## Model

| member | source | states |
|---|---|---|
| Lattice.OppositeNegates | constants.h:53-169 | for every direction i, S_i is a direction and e_{S_i} = -e_i componentwise |
| Lattice.OppInvolution | constants.h:151-169 | S is an involution; S_i = i only for the rest direction 0 |
| Lattice.OppUnique | constants.h:53-169 | S_i is the only direction whose vector is -e_i |
| Lattice.CommentRowsAgree | constants.h:46-127 | the commented component rows agree with the E macros |
| Lattice.WeightsSumToOne | constants.h:130-148 | the nineteen weights sum to exactly 1 as rationals |
| Lattice.WeightsByShell | constants.h:53-169 | e0 is zero with weight 1/3; e1..e6 have squared norm 1 and weight 1/18; e7..e18 have squared norm 2 and weight 1/36; opposite directions have equal weights |
| Lattice.SwapOpp | lbmcpp.cpp:466-468 | the three-assignment swap exchanges f_i and f_{S_i} and leaves the other seventeen populations unchanged |
| Lattice.ApplySwapsSnoc | lbmcpp.cpp:463-470 | running one more swap of the unrolled list applies it after the ones before |
| Lattice.ApplyDisjointSwaps | constants.h:270-279 | swaps of disjoint opposite pairs, in any order, send each touched direction to the value of its opposite and leave untouched ones alone |
| Lattice.HalfSetPartition | constants.h:270-279 | the nine half-set directions and their opposites cover 1..18 exactly once and never touch 0 |
| Lattice.HalfSetSwapsReverse | constants.h:270-279 | the nine half-set swaps, listed in any order, give f'[i] = f[S_i] for every direction |
| HeaderFlags.FlagsAreDistinctBits | constants.h:172-181 | the nine flags are distinct, non-zero single bits |
| HeaderFlags.MovingAndBounceback | constants.h:303-316 | is_moving holds exactly for the tag FRONT; is_bounceback holds exactly when a face bit other than FRONT is set; the two never hold together |
| HeaderFlags.BouncebackIsBoundary | constants.h:303-316 | a bounce-back cell is a boundary cell; the moving tag is a boundary that does not bounce back |
| CommonFlags.FlagsAreDistinctBits | common.h:7-18 | the ten flags are distinct, non-zero single bits |
| CommonFlags.CollisionIsStoreMacro | common.h:53-61 | is_collision(c) == is_store_macro(c) for every tag |
| CommonFlags.BouncebackIsStaticBoundary | common.h:43-66 | is_bounceback implies is_boundary and not is_moving |
| CommonFlags.ExactTestsExclusive | common.h:28-51 | at most one of is_fluid, is_wall and is_corner holds; a fluid tag is neither boundary nor moving |
| CommonFlags.MovingTestsAreLocal | common.h:20-51 | is_moving_init depends only on the FRONT bit and is_moving only on the MOVING bit |
| CommonFlags.MovingFaceTag | common.h:43-66 | a tag FRONT, MOVING and other face bits is boundary, moving and collision-eligible, and not bounce-back |
| LbmcppTags.WallIffShell | lbmcpp.cpp:371-376 | a cell is tagged exactly WALL iff some coordinate is 0 or DIM-1, whatever face flags were set before |
| LbmcppTags.InteriorTag | lbmcpp.cpp:362-378 | off the shell the tag is the OR of the face flags of the coordinates equal to 1 or DIM-2, and FLUID exactly when there is none |
| LbmcppTags.FaceBitsAreFaces | lbmcpp.cpp:364-369 | each face flag is set exactly when its coordinate is on that face layer |
| LbmcppTags.MovingFaceCells | lbmcpp.cpp:364-378 | the tag is exactly FRONT (BOUNDARY_MOVING) iff z = DIM-2 and 2 <= x, y <= DIM-3; the edges and corners of that layer carry further flags |
| LbmcppTags.CollidingCells | lbmcpp.cpp:486 | the cells collision selects are the fluid cells and every cell of the layer z = DIM-2 off the shell, never a wall |
| LbmcppTags.UnmaskedCells | lbmcpp.cpp:289-297 | store_data keeps the computed moments exactly for fluid cells and the moving face proper |
| LbmcppKernels.IdCoords | lbmcpp.cpp:59 | IDxyz sends the box into 0..N-1, and the coordinates are recovered from the id |
| LbmcppKernels.CoordsId | lbmcpp.cpp:59 | every id below N is the IDxyz of its own coordinates |
| LbmcppKernels.SplitIndex | lbmcpp.cpp:60 | IDxyzw numbers the (cell, direction) pairs 0..NQ-1 one to one |
| LbmcppKernels.ClassMapShellIsWall | lbmcpp.cpp:371-376 | the map init writes tags every shell cell WALL, which streaming relies on |
| LbmcppKernels.MovingCopiesAt | lbmcpp.cpp:433-437 | the five copies set f6, f15..f18 to their opposite directions and leave the rest |
| LbmcppKernels.BoundaryEffect | lbmcpp.cpp:424-473 | cells without a face bit are unchanged; a cell tagged exactly FRONT gets all 19 populations rebuilt; every other face cell is permuted by the swap list |
| LbmcppKernels.CollisionEffect | lbmcpp.cpp:480-528 | on the init map, collision changes exactly the cells with the FLUID or FRONT bit, and forces the wall state only for the tag exactly FRONT |
| LbmcppKernels.UpwindInBox | lbmcpp.cpp:545-561 | the neighbour a non-wall cell reads lies in the box at offset -e_i |
| LbmcppKernels.UpwindEntriesInBuffer | lbmcpp.cpp:555-556 | every index streaming reads lies inside f_collide |
| LbmcppKernels.UpwindInjective | lbmcpp.cpp:555-556 | for one direction, distinct cells read distinct neighbours |
| LbmcppKernels.UpwindOpposite | lbmcpp.cpp:555-556 | going upwind along e_i and then along e_{S_i} returns to the cell |
| LbmcppKernels.StreamSkipsWall | lbmcpp.cpp:551 | streaming leaves the entries of wall cells as they were |
| LbmcppKernels.StreamEntry | lbmcpp.cpp:545-561 | entry (id, i) of f_stream after streaming is f_collide at (upwind of id, i) for a non-wall cell, and unchanged for a wall |
| LbmcppKernels.InitialCollideOfCell | lbmcpp.cpp:382-414 | after init a wall cell holds NaN in every entry; any other cell holds the seed at velocity u_wall exactly when its tag is FRONT, and at velocity 0 otherwise |
| LbmcppKernels.ExactCellOps | lbmcpp.cpp:398-404 | cell operations doing the exact arithmetic of Physics exist for every relaxation rate and NaN value, so the lemmas under ExactOps apply to a real case |
| LbmcppKernels.InitialMoments | lbmcpp.cpp:382-414 | with exact cell operations, every non-wall cell after init is the equilibrium at density 1, with x momentum u_wall on the tag FRONT and 0 elsewhere, and no y or z momentum |
| LbmcppKernels.MovingBoundaryMoments | lbmcpp.cpp:439-459 | with exact cell operations, a cell tagged exactly FRONT leaves boundary_condition with the density it had after the five copies and momentum (that density · u_wall, 0, 0) |
| LbmcppKernels.CollisionRelaxes | lbmcpp.cpp:483-526 | with exact cell operations, collision applies compute_bgk to each population of a colliding cell, towards the equilibrium of its collision target |
| LbmcppKernels.CollisionKeepsEquilibrium | lbmcpp.cpp:483-526 | with exact cell operations, a cell off the moving face that holds an equilibrium of non-zero density is unchanged by collision |
| LbmcppKernels.StoredMoments | lbmcpp.cpp:265-297 | with exact cell operations, store_data stores the density and the three momentum sums of every cell it does not mask |
| LbmcppKernels.Init | lbmcpp.cpp:358-417 | init writes the classification map, seeds f_collide as above and fills f_stream with NaN |
| LbmcppKernels.InitCell | lbmcpp.cpp:359-414 | the loop body of init writes only cell (x, y, z) of the three arrays |
| LbmcppKernels.BoundaryCondition | lbmcpp.cpp:424-473 | boundary_condition in place leaves f_collide equal to the whole-buffer boundary function of its old contents |
| LbmcppKernels.BoundaryAt | lbmcpp.cpp:426-472 | one loop body writes only its own cell's 19 entries, with the boundary result |
| LbmcppKernels.MovingWallAt | lbmcpp.cpp:432-459 | the moving branch: five copies, then the rebuild of all 19 entries; other cells unchanged |
| LbmcppKernels.BounceBackAt | lbmcpp.cpp:461-470 | the bounce-back branch: the swaps of the list, in order; other cells unchanged |
| LbmcppKernels.SwapInCell | lbmcpp.cpp:466-468 | one swap exchanges two entries of the cell and nothing else |
| LbmcppKernels.Collision | lbmcpp.cpp:480-528 | collision in place leaves f_collide equal to the whole-buffer collision function of its old contents |
| LbmcppKernels.CollisionAt | lbmcpp.cpp:483-526 | one loop body writes only its own cell's 19 entries, with the collision result |
| LbmcppKernels.Streaming | lbmcpp.cpp:545-561 | streaming leaves f_stream equal to the gather function; f_collide is not modified |
| LbmcppKernels.StreamingAt | lbmcpp.cpp:548-559 | one loop body writes only its own cell's entries of f_stream |
| LbmcppKernels.GatherCell | lbmcpp.cpp:552-558 | the unrolled gather writes entry (id, i) from f_collide at (upwind of id, i) |
| LbmcppKernels.StoreData | lbmcpp.cpp:263-298 | rho and u become the stored density and momentum-sum functions of f and the map |
| LbmcppKernels.StoreCell | lbmcpp.cpp:266-297 | one loop body writes cell id's density and its three momentum sums, masked to NaN for walls and face cells other than the moving face proper |
| LbmcppMain.LocalHalfNetEffect | lbmcpp.cpp:37-46 | the local list 1..9 swaps (1,3), (2,4), (5,6), (7,9) twice each; the net effect is the single exchange of f8 and f10 |
| LbmcppMain.LocalHalfMissesReversal | lbmcpp.cpp:37-46 | on a cell holding its own direction numbers, f1 still holds 1 after the local swaps, not the 3 of its opposite |
| LbmcppMain.HalfSetBounceBack | constants.h:270-279 | with the half set, a static boundary cell gets f'[i] = f[S_i] for every direction |
| LbmcppMain.StoresAt | lbmcpp.cpp:610-621 | snapshot k is taken of the buffer collision relaxed in pass k + 1, the one streaming read, which the swap names f_stream |
| LbmcppMain.PassStep | lbmcpp.cpp:611-620 | one pass: boundary and collision in f_collide, streaming into f_stream, pointer exchange, store_data of the collided buffer |
| LbmcppMain.Run | lbmcpp.cpp:610-621 | after n passes the buffers are the n-fold pass function of the initial ones, with the names exchanged on odd n, and the snapshots are those of each pass |
| LbmcppMain.SolverMain | lbmcpp.cpp:582-628 | main as written stores 11 snapshots, the trace of ten passes with the local list, whatever count is parsed |
| LbmcppMain.SolverMainCorrected | lbmcpp.cpp:582-628 | with the parsed count and the half set, main stores max(iterations, 0) + 1 snapshots, the trace of that many passes |
| LbmcppMain.Simulate | lbmcpp.cpp:592-621 | allocation, init, the first store and the passes produce the trace of the given swap list and pass count |
| Physics.Equilibrium | lbmcpp.cpp:398-404 | population i of the seed is the second-order equilibrium polynomial of its weight and e_i.u |
| Physics.EquilibriumMoments | lbmcpp.cpp:398-404 | the equilibrium has density rho and momentum rho·u exactly |
| Physics.BgkRelaxes | constants.h:283-286 | the two spellings of compute_bgk agree; the distance to f_eq shrinks by 1 - 1/tau; f = f_eq is a fixed point |
| Physics.InvTauBounds | lbmcpp.cpp:62-64 | a positive viscosity gives 0 < 1/tau < 2, so the BGK factor 1 - 1/tau lies strictly between -1 and 1 |
| Physics.CollisionTarget | lbmcpp.cpp:486-513 | the target is the cell's density and velocity, except rho = 1 and u = (u_wall, 0, 0) on the moving face |
| Physics.EquilibriumIsCollisionFixedPoint | lbmcpp.cpp:486-525 | a fluid cell in equilibrium is unchanged by the collision, for any relaxation rate |
| Physics.EquilibriumTarget | lbmcpp.cpp:488-506 | the collision target of an equilibrium cell is the state it was built from |
| Physics.TargetFromMoments | lbmcpp.cpp:488-506 | a fluid cell with moments rho and rho·u relaxes towards (rho, u) |
| Physics.MovingWallImposed | lbmcpp.cpp:439-459 | the moving rebuild keeps the cell's density and gives momentum (rho·u_wall, 0, 0) |
| Physics.RebuildMoments | lbmcpp.cpp:447-459 | the equilibrium at (rho, (ux, 0, 0)) has density rho and momentum (rho·ux, 0, 0) |
| SizeBits.Log2i | lbmcl.hpp:104-109 | the shifting loop returns floor(log2 x) for x >= 1 and 0 for x <= 1 |
| SizeBits.Log2Bounds | lbmcl.hpp:104-109 | 2^n <= x < 2^(n+1) for the count n |
| SizeBits.Log2Unique | lbmcl.hpp:104-109 | the exponent that brackets x is the count log2i returns |
| SizeBits.PowerOfTwoIff | lbmcl.hpp:98-101 | is_power_of_two(x) holds exactly when x = 2^k for some k, so never for 0 |
| SizeBits.PowerOfTwoIsPow2 | lbmcl.hpp:98-101 | a value that passes is_power_of_two is 2 to its logarithm |
| SizeBits.Pow2IsPowerOfTwo | lbmcl.hpp:98-101 | every 2^k passes is_power_of_two |
| SizeBits.ShrIsDiv | lbmcl.hpp:104-109 | x >> s is x / 2^s |
| SizeBits.MaskIsMod | lbmcl.hpp:19 | x & (2^k - 1) is x mod 2^k |
| SizeBits.StrideShiftAndMask | lbmcl.hpp:131-132 | for a power-of-two stride, id >> log2i(stride) is id / stride and id & (stride - 1) is id % stride |
| SizeBits.SmearBit | lbmcl.hpp:114-119 | after t rounds of `x = x or (x >> 2^(r-1))`, bit i is set iff one of the 2^t bits from i up was set |
| SizeBits.SmearFills | lbmcl.hpp:114-119 | the six rounds set every bit below the top bit of a 64-bit value |
| SizeBits.PreviousValue | lbmcl.hpp:112-122 | previous_power_of_two(x) is 2^floor(log2 x), or 0 for x = 0 and for a top bit at 63 |
| SizeBits.PreviousPowerOfTwoSpec | lbmcl.hpp:112-122 | the largest power of two not above x for 1 <= x < 2^63, unchanged on powers of two, 0 for 0 and for x >= 2^63 |
| LbmclLayout.IdXyzInjective | lbmcl.hpp:20 | IDxyzDIM sends [0,dim)³ into [0,dim³), and the point is recovered from its number |
| LbmclLayout.IdXyzSurjective | lbmcl.hpp:20 | every number below dim³ is the IDxyzDIM of its coordinates |
| LbmclLayout.IdXyzqDivMod | lbmcl.hpp:19 | with a power-of-two stride, the mask is the remainder: IDxyzqDIM = ((id / s)·Q + q)·s + id % s |
| LbmclLayout.IdXyzqInjective | lbmcl.hpp:19 | for a power-of-two stride that divides n, each (cell below n, direction below Q) gets an index below n·Q, from which the cell and direction are recovered |
| LbmclLayout.IdXyzqSurjective | lbmcl.hpp:19 | every index below n·Q is the IDxyzqDIM of the cell and direction it decodes to |
| LbmclLayout.WholeBlocks | lbmcl.hpp:19 | a power-of-two stride divides a power-of-two cell count exactly when it is not larger |
| LbmclLayout.SmallerStrideDivides | lbmcl.hpp:19 | a power-of-two stride not larger than a power-of-two cell count divides it |
| LbmclLayout.CubeOfPowerOfTwo | lbmcl.hpp:69-72 | a power-of-two edge gives a power-of-two cell count |
| LbmclLayout.StrideAboveCells | lbmcl.hpp:19 | for dim 2 and stride 32 the layout writes index 583, past the 152 entries of f |
| LbmclLayout.DeviceMemoryOfCells | lbmcl.hpp:69-83 | for dim <= 2^16 the device holds dim³·((2Q + D + 1)·sizeof(T) + 4) bytes, for float and for double |
| LbmclLayout.StoreMapCodeCases | lbmcl.hpp:181-186 | the code is 5 for CORNER, 4 for WALL, 3 for any face bit, 2 for MOVING without a face bit, 1 for FLUID, 0 otherwise |
| LbmclLayout.StoreMapLid | lbmcl.hpp:181-186 | a lid cell, FRONT and MOVING with any face bits, is written as 3 |
| LbmclLayout.StoreMapCodeIntendedCases | lbmcl.hpp:181-186 | the corrected code writes every lid cell as 2 and agrees with storeMap on tags without MOVING |
| LbmclHost.RoundDownSpec | lbmcl.hpp:359-362 | rounding keeps powers of two, gives the largest power of two not above x for 1 <= x < 2^63, and 0 for 0 and for non-powers at or above 2^63 |
| LbmclHost.NormalizedDim | lbmcl.hpp:357-373 | after construction dim is a power of two, at most the input and more than half of it, unchanged if already a power; work-group sizes are at least 1; results are stored iff every != 0 |
| LbmclHost.NormalizedStride | lbmcl.hpp:382-385 | after construction the stride is the largest power of two not above the input, unchanged if already a power |
| LbmclHost.NormalizeAborts | lbmcl.hpp:371-378 | below 2^21, construction aborts exactly when lwx·lwy·lwz, with zeros read as 1, exceeds dim³ for the rounded dim |
| LbmclHost.ZeroDimAccepted | lbmcl.hpp:375-378 | the wrapped product test lets dim 0 through with work groups 2^32 × 2^32 × 1 |
| LbmclHost.NormalizeIntendedDim | lbmcl.hpp:359-378 | with the test done without wrap-around, every accepted dim is a power of two of at least 1 and at most the input |
| LbmclHost.ScheduleAt | lbmcl.hpp:433-465 | kernel i of the schedule is the binding of iteration i + 1 |
| LbmclHost.BindingParity | lbmcl.hpp:435-455 | an even iteration binds f_collide as arg 0 and f_stream as arg 1, an odd one the reverse; the two arguments always differ |
| LbmclHost.PingPong | lbmcl.hpp:454-455 | the buffer bound as arg 1 of iteration it is the one bound as arg 0 of iteration it + 1 |
| LbmclHost.StoreFlag | lbmcl.hpp:434 | the kernel of iteration it >= 1 is told to store iff every != 0 and every divides it |
| LbmclHost.StepsLaunch | lbmcl.hpp:503-518 | iterations 1..n launch exactly the first n kernels, in order, once each |
| LbmclHost.StepLaunches | lbmcl.hpp:504-517 | one iteration launches its own kernel and nothing else |
| LbmclHost.StoreDataMatchesKernel | lbmcl.hpp:511-513 | rho and u are read back after iteration it exactly when its kernel was told to store them |
| LbmclHost.DumpedIsArg1 | lbmcl.hpp:515-517 | the buffer dumped after iteration it is the one bound as arg 1 of its kernel |
| LbmclHost.StepsPrefix | lbmcl.hpp:503-518 | the actions of iterations 1..m are a prefix of those of 1..n for m <= n |
| LbmclHost.LaunchOrder | lbmcl.hpp:433-518 | after setupSimulation, performSimulation launches the kernels of iterations 1..iterations, each once and in order |
| LbmclHost.PrologueLaunchesNothing | lbmcl.hpp:498-501 | the initial dumps launch no compute kernel |
| LbmclHost.Lbmcl.New | lbmcl.hpp:331-386 | the constructor aborts exactly when the normalisation does, and otherwise leaves the normalised settings, no kernels and no events |
| LbmclHost.Lbmcl.Init | lbmcl.hpp:345-357 | the field initialisers store the settings and set dump_data to every != 0 |
| LbmclHost.Lbmcl.SetupSimulation | lbmcl.hpp:433-465 | appends one kernel per iteration 1..iterations, in order, to compute_kernels; events unchanged |
| LbmclHost.Lbmcl.PerformSimulation | lbmcl.hpp:488-519 | appends initialise, the optional initial dumps and each iteration's launch and dumps to events; compute_kernels unchanged |
| LbmclMain.ChoiceParity | lbmcl.cpp:537-555 | step t runs collideAndStream iff t - 1 is even; the buffer dumped is the kernel's arg 4, which is arg 0 of step t + 1; arg 0 and arg 4 differ |
| LbmclMain.StoreVtiWhen | lbmcl.cpp:416-417 | the VTK file is written after step t iff store_vti is on and abs(every) divides t - 1; every = -1 stores each step; dump_f dumps exactly the buffer handed over |
| LbmclMain.FirstStepFaults | lbmcl.cpp:416 | with store_vti and every = 0 the first step launches collideAndStream and then divides by zero |
| LbmclMain.ProcessLaunches | lbmcl.cpp:394-417 | one call of processData launches its kernel and nothing else |
| LbmclMain.StepsLaunch | lbmcl.cpp:535-557 | without a fault, steps 1..n launch the n kernels of those steps, in order |
| LbmclMain.KernelsAlternate | lbmcl.cpp:502-512 | the first launch is collideAndStream and each launch has as arg 0 the buffer the previous one had as arg 4 |
| LbmclMain.RunLaunches | lbmcl.cpp:525-557 | without a fault main launches exactly max(iterations, 0) kernels, alternating from collideAndStream |
| LbmclMain.Driver.ProcessData | lbmcl.cpp:394-417 | logs the launch and the dumps of the current timestamp; reports whether the program goes on |
| LbmclMain.Driver.Run | lbmcl.cpp:515-557 | the log gains the prologue and the steps of every call; timestamp ends at iterations + 1, or 1 after a fault |
| LbmclMain.Driver.Start | lbmcl.cpp:515-528 | the initial launch and dumps are logged and timestamp becomes 1 |
| LbmclMain.Driver.Loop | lbmcl.cpp:535-557 | the while loop logs steps 1..Calls and leaves timestamp one past the last step |
| LbmclMain.Driver.Dispatch | lbmcl.cpp:537-555 | the loop body calls processData with the kernel and buffer of the timestamp's parity |
| LbmclMain.DumpMapCodeCases | lbmcl.cpp:240-243 | the code is 4 exactly for WALL, 2 exactly for the tag FRONT, 3 for other tags with a face bit, 1 otherwise |

## Left out

- The OpenCL plumbing (platform, device, context, program, queue, buffer
  transfers and events as objects) is not modelled. `kernels.cl` is not part
  of this model, so the device kernels `initialize`, `compute`, `init` and
  `collideAndStream` appear only as launches with their argument bindings.
- Which kernel argument is read and which is written is not modelled, since
  `kernels.cl` is not part of this model. The contracts speak of argument
  positions only. Reading arg 0 as the input and arg 1 (arg 4 in
  `lbmcl.cpp`) as the output has one visible consequence. Iteration 1 of
  `lbmcl.hpp` binds `f_stream` as arg 0, while the initial population dump
  is of `f_collide`. Step 1 of `lbmcl.cpp` binds `f_collide` as arg 0
  (`lbmcl.cpp:502`, `lbmcl.cpp:526`).
- Command-line parsing (`libs/ArgsUtil.hpp`, `libs/lbm_options.hpp`,
  `process_args` and `print_help`) is not modelled. `LbmclMain.Options`
  takes any integer for `iterations` and `every`, which covers the default
  `every = -1` and everything the parser accepts.
- File output is not modelled: `storeMap`, `storeF` and `storeData` in
  `lbmcl.hpp`, and `dump_map`, `dump_f` and `store_vti` in `lbmcl.cpp`. The
  same goes for the VTK writing at the end of `store_data` and
  `print_map`/`print_f` in `lbmcpp.cpp`. Only the code choices and the
  order of the read-backs are kept.
- Floating-point rounding, NaN propagation and the value of `TAU` are not
  modelled. The equilibrium, rebuild and relaxation are exact over `real` in
  `Physics`, and the grid model treats them as abstract functions that
  `LbmcppKernels.ExactOps` ties to `Physics`.
- Timing, MLUPS, `totalTime` and the print of the device memory in KB and MB
  (`device_memory_size_k`/`_m`, `wet_dim`) are not modelled. They are only
  printed.
- The size helpers of the `lbmcl.cpp` options class (`lbmcl.cpp:56-78`) are
  not modelled. They differ from those of `lbmcl.hpp` in three ways. They
  multiply the C `int` `dim` in `int` arithmetic, so `f_dim` overflows from
  dim = 484 on if `Q_DIM` is 19. They use `Q_DIM`, which no header in this
  model defines. `device_memory_size_k` divides by a `float`. They also size
  the driver's host read-back arrays, which are not modelled either.
- LbmclMain.DumpMapCode: takes the tag as it is in the map. `dump_map` reads
  the map buffer into `float * map_val` and converts each entry to `int`
  (`lbmcl.cpp:216-238`, `lbmcl.cpp:441`). The buffer is sized as `int`s, and
  `lbmcl.hpp` reads the same buffer as `int *`. If the device stores `int`
  tags, each tag would read as a tiny denormal float that converts to 0, and
  every cell would be dumped as 1. `kernels.cl` is not part of this model, so
  the model assumes the tag arrives intact.
- Data-parallel execution of the kernels on the device is not modelled.
- `verify.py`, `vti2txt.py` and `main.cpp` are not part of this model.
- `init_fake` and `streaming_push` in `lbmcpp.cpp` are only called from
  commented-out code, so they are left out.
- The overflow of `timestamp` (a C `int`) when `iterations` is `INT_MAX` is
  not modelled; the counter is unbounded here.
- Physics.CollisionTarget: requires a non-zero density for a fluid cell,
  because exact reals cannot express the float division by zero that gives
  infinities in the source.
- LbmclHost.NormalizeAborts: proved only for sizes below 2^21, where
  `lwx·lwy·lwz` and `dim³` do not wrap. `LbmclHost.ZeroDimAccepted` shows
  what the wrap does.
- LbmclHost.NormalizedDim: the power-of-two result is stated for an input
  that is already a power of two or lies in 1..2^63-1. For 0 and for larger
  non-powers, `previous_power_of_two` gives 0, as `LbmclHost.RoundDownSpec`
  states.
- LbmclHost.NormalizedStride: the same range restriction as
  `LbmclHost.NormalizedDim`.
- LbmclLayout.DeviceMemoryOfCells: stated for `dim <= 2^16`, below which the
  `size_t` products do not wrap.
- LbmclLayout.IdXyzqInjective: requires the stride to divide the cell count.
  The constructor does not ensure this (`LbmclLayout.StrideAboveCells`).

## Findings

| source | as written | input that shows it | evidently intended | confidence | as-written member | corrected member |
|---|---|---|---|---|---|---|
| lbmcpp.cpp:37-46 | the local `UNROLL_HALF_19` lists directions 1..9, so the pairs (1,3), (2,4), (5,6), (7,9) are swapped twice and the bounce-back only exchanges f8 and f10 | any static boundary cell, e.g. one holding its own direction numbers: f1 stays 1 | the nine-pair half set of `constants.h` (1, 2, 5, 7, 8, 11, 12, 13, 14), which reverses every population | not executed | LbmcppMain.LocalHalfMissesReversal | LbmcppMain.HalfSetBounceBack |
| lbmcpp.cpp:588-610 | the iteration count is parsed but the loop runs `i < 10` | command-line argument 3: still ten passes and eleven stores | run the parsed number of passes | not executed | LbmcppMain.SolverMain | LbmcppMain.SolverMainCorrected |
| lbmcl.hpp:181-186 | the boundary test runs after the moving test, so a lid cell (FRONT and MOVING) is written as 3 and code 2 never appears | any lid cell, tagged FRONT and MOVING | lid cells written as 2, the moving code | not executed | LbmclLayout.StoreMapLid | LbmclLayout.StoreMapCodeIntendedCases |
| lbmcl.hpp:375-378 | the work-group product and dim³ are compared after `size_t` wrap-around | dim 0, lwx = lwy = 2^32, lwz = 1: the product wraps to 0 and construction succeeds with dim 0 | compare the true product with dim³ and refuse dim 0 | not executed | LbmclHost.ZeroDimAccepted | LbmclHost.NormalizeIntendedDim |

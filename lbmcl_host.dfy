/**
  The host object of the OpenCL solver (`class LBMCL` in `lbmcl.hpp`): the
  constructor that rounds the edge length and the stride down to powers of
  two and rejects work groups larger than the domain, the list of compute
  kernels `setupSimulation` prepares (one per iteration, with the two
  population buffers bound by parity), and the sequence of host actions
  `performSimulation` issues.

  Kernel launches, buffer reads and file writes are recorded as actions in
  the object's `events`; what the device computes is not part of this model.
*/
module LbmclHost {
  import opened SizeBits
  import ActionLog

  /** A `size_t` value. */
  type SizeT = x: nat | x < WORD

  datatype Option<T> = None | Some(value: T)

  /** The two population buffers. */
  datatype Buffer = FStream | FCollide

  /** The arguments of one compute kernel: args 0 and 1 are the population
      buffers, args 2–4 are always rho, u and map, and arg 5 tells the kernel
      whether to write rho and u. */
  datatype Binding = Binding(arg0: Buffer, arg1: Buffer, store: int)

  /** What the host does, in order. */
  datatype Action =
    | Initialize
    | StoreMap
    | StoreData(iteration: nat)
    | StoreF(buffer: Buffer, iteration: nat)
    | Compute(binding: Binding)

  // ---------------------------------------------------------------------------
  // Constructor normalisation

  /** The constructor's treatment of `dim` and `stride`: kept when a power of
      two, otherwise replaced by `previous_power_of_two`. */
  function RoundDown(x: SizeT): nat
  {
    if IsPowerOfTwo(x) then x else PreviousPowerOfTwo(x)
  }

  /** A work-group size of 0 becomes 1. */
  function AtLeastOne(l: SizeT): SizeT
  {
    if l == 0 then 1 else l
  }

  /** The settings a successful construction leaves in the object. */
  datatype Settings = Settings(dim: nat, stride: nat, lwx: nat, lwy: nat, lwz: nat, dumpData: bool)

  /** The constructor's abort test: the work group holds more items than the
      domain has cells, both products computed in `size_t`, which wraps. */
  predicate TooLarge(x: nat, y: nat, z: nat, d: nat)
  {
    (x * y * z) % WORD > (d * d * d) % WORD
  }

  /** The constructor: `None` is the `exit(-1)` taken on `TooLarge`. */
  function Normalize(dim: SizeT, every: SizeT, lwx: SizeT, lwy: SizeT, lwz: SizeT, stride: SizeT): Option<Settings>
  {
    var d := RoundDown(dim);
    var x, y, z := AtLeastOne(lwx), AtLeastOne(lwy), AtLeastOne(lwz);
    if TooLarge(x, y, z, d) then None
    else Some(Settings(d, RoundDown(stride), x, y, z, every != 0))
  }

  /** Rounding down gives the largest power of two not above x, leaves a
      power of two alone, and gives 0 for 0 and for the values at or above
      2^63 that are not powers of two. */
  lemma RoundDownSpec(x: SizeT)
    ensures IsPowerOfTwo(x) ==> RoundDown(x) == x
    ensures 1 <= x < Pow2(63) ==>
      IsPowerOfTwo(RoundDown(x)) && RoundDown(x) <= x < 2 * RoundDown(x)
    ensures x == 0 || (Pow2(63) <= x && !IsPowerOfTwo(x)) ==> RoundDown(x) == 0
  {
    PreviousPowerOfTwoSpec(x);
    if IsPowerOfTwo(x) && 1 <= x < Pow2(63) {
      PowerOfTwoIsPow2(x);
      Log2Bounds(x);
    }
  }

  /** After construction the stride is a power of two, the largest one not
      above the stride asked for, whenever that stride is between 1 and
      2^63 or is already a power of two. */
  lemma NormalizedStride(dim: SizeT, every: SizeT, lwx: SizeT, lwy: SizeT, lwz: SizeT, stride: SizeT)
    requires 1 <= stride < Pow2(63) || IsPowerOfTwo(stride)
    requires Normalize(dim, every, lwx, lwy, lwz, stride).Some?
    ensures var s := Normalize(dim, every, lwx, lwy, lwz, stride).value;
      IsPowerOfTwo(s.stride) && s.stride <= stride < 2 * s.stride
      && (IsPowerOfTwo(stride) ==> s.stride == stride)
  {
    RoundDownSpec(stride);
  }

  /** After construction the edge length is a power of two, the largest one
      not above the length asked for, whenever that length is between 1 and
      2^63 or is already a power of two; the work-group sizes are at least
      1, and results are stored exactly when `every` is not 0. */
  lemma NormalizedDim(dim: SizeT, every: SizeT, lwx: SizeT, lwy: SizeT, lwz: SizeT, stride: SizeT)
    requires 1 <= dim < Pow2(63) || IsPowerOfTwo(dim)
    requires Normalize(dim, every, lwx, lwy, lwz, stride).Some?
    ensures var s := Normalize(dim, every, lwx, lwy, lwz, stride).value;
      IsPowerOfTwo(s.dim) && s.dim <= dim < 2 * s.dim
      && (IsPowerOfTwo(dim) ==> s.dim == dim)
      && s.lwx >= 1 && s.lwy >= 1 && s.lwz >= 1
      && s.dumpData == (every != 0)
  {
    RoundDownSpec(dim);
  }

  /** Short of wrap-around (edge and work-group sizes below 2^21), the
      constructor aborts exactly when lwx·lwy·lwz exceeds dim³, with zero
      sizes read as 1 and dim already rounded down. */
  lemma NormalizeAborts(dim: SizeT, every: SizeT, lwx: SizeT, lwy: SizeT, lwz: SizeT, stride: SizeT)
    requires dim < 0x20_0000 && lwx < 0x20_0000 && lwy < 0x20_0000 && lwz < 0x20_0000
    ensures var d := RoundDown(dim);
      Normalize(dim, every, lwx, lwy, lwz, stride).None? <==>
        AtLeastOne(lwx) * AtLeastOne(lwy) * AtLeastOne(lwz) > d * d * d
  {
    var d := RoundDown(dim);
    RoundDownSpec(dim);
    Pow2Monotone(21, 63);
    assert Pow2(21) == 0x20_0000 by { Pow2Of16(); Pow2Add(16, 5); }
    assert d < 0x20_0000;
    CubeBelowWord(d);
    CubeBelowWord3(AtLeastOne(lwx), AtLeastOne(lwy), AtLeastOne(lwz));
  }

  lemma CubeBelowWord(d: nat)
    requires d < 0x20_0000
    ensures (d * d * d) % WORD == d * d * d
  {
    CubeBelowWord3(d, d, d);
  }

  lemma CubeBelowWord3(a: nat, b: nat, c: nat)
    requires a < 0x20_0000 && b < 0x20_0000 && c < 0x20_0000
    ensures (a * b * c) % WORD == a * b * c
  {
    if b > 0 && c > 0 {
      MulMonotone(a, 0x20_0000, b);
      MulMonotone(a * b, 0x400_0000_0000, c);
      assert a * b * c < 0x8000_0000_0000_0000;
    }
  }

  /** Edge lengths that round to 0 are accepted when the work-group product
      wraps to 0: dim 0 with work groups of 2^32 × 2^32 × 1 items. */
  lemma ZeroDimAccepted()
    ensures Normalize(0, 0, 0x1_0000_0000, 0x1_0000_0000, 1, 32).Some?
    ensures Normalize(0, 0, 0x1_0000_0000, 0x1_0000_0000, 1, 32).value.dim == 0
  {
    PreviousPowerOfTwoSpec(0);
  }

  /** The intended constructor: the work group is compared with the domain
      without wrap-around. */
  function NormalizeIntended(dim: SizeT, every: SizeT, lwx: SizeT, lwy: SizeT, lwz: SizeT, stride: SizeT): Option<Settings>
  {
    var d := RoundDown(dim);
    var x, y, z := AtLeastOne(lwx), AtLeastOne(lwy), AtLeastOne(lwz);
    if x * y * z > d * d * d then None
    else Some(Settings(d, RoundDown(stride), x, y, z, every != 0))
  }

  /** Every construction the intended check accepts has a power-of-two edge
      length of at least 1. */
  lemma NormalizeIntendedDim(dim: SizeT, every: SizeT, lwx: SizeT, lwy: SizeT, lwz: SizeT, stride: SizeT)
    requires NormalizeIntended(dim, every, lwx, lwy, lwz, stride).Some?
    ensures var s := NormalizeIntended(dim, every, lwx, lwy, lwz, stride).value;
      IsPowerOfTwo(s.dim) && s.dim <= dim
  {
    RoundDownSpec(dim);
    if RoundDown(dim) == 0 {
      ProductPositive(AtLeastOne(lwx), AtLeastOne(lwy), AtLeastOne(lwz));
      assert false;
    }
  }

  lemma ProductPositive(x: nat, y: nat, z: nat)
    requires x >= 1 && y >= 1 && z >= 1
    ensures x * y * z >= 1
  {
    MulMonotone(1, x, y);
    MulMonotone(1, x * y, z);
  }

  // ---------------------------------------------------------------------------
  // Kernel arguments per iteration

  /** The arguments `setupSimulation` gives the kernel of iteration `it`. */
  function BindingOf(it: nat, dumpData: bool, every: nat): Binding
    requires dumpData ==> every != 0
  {
    var isStore := if dumpData && it != 0 && it % every == 0 then 1 else 0;
    var isSwap := it % 2 == 0;
    Binding(if isSwap then FCollide else FStream, if isSwap then FStream else FCollide, isStore)
  }

  /** The kernels of iterations 1..n, in order. */
  function Schedule(n: nat, dumpData: bool, every: nat): (r: seq<Binding>)
    requires dumpData ==> every != 0
    ensures |r| == n
  {
    if n == 0 then [] else Schedule(n - 1, dumpData, every) + [BindingOf(n, dumpData, every)]
  }

  /** Entry i of the schedule is the kernel of iteration i + 1. */
  lemma {:induction false} ScheduleAt(n: nat, dumpData: bool, every: nat)
    requires dumpData ==> every != 0
    ensures forall i :: 0 <= i < n ==> Schedule(n, dumpData, every)[i] == BindingOf(i + 1, dumpData, every)
  {
    if n > 0 {
      ScheduleAt(n - 1, dumpData, every);
    }
  }

  /** Iteration it binds f_collide as arg 0 and f_stream as arg 1 when it
      is even, the other way round when it is odd; the two are never the
      same buffer. */
  lemma BindingParity(it: nat, dumpData: bool, every: nat)
    requires dumpData ==> every != 0
    ensures var b := BindingOf(it, dumpData, every);
      b.arg0 != b.arg1 && (b.arg0 == FCollide <==> it % 2 == 0)
  {
  }

  /** The buffer one iteration hands on as arg 1 is the next iteration's
      arg 0. */
  lemma PingPong(it: nat, dumpData: bool, every: nat)
    requires dumpData ==> every != 0
    ensures BindingOf(it, dumpData, every).arg1 == BindingOf(it + 1, dumpData, every).arg0
  {
  }

  /** With `dump_data` set from `every`, the kernel of iteration it ≥ 1 is told
      to store exactly when every is not 0 and divides it. */
  lemma StoreFlag(it: nat, every: nat)
    requires it >= 1
    ensures var s := BindingOf(it, every != 0, every).store;
      (s == 1 <==> every != 0 && it % every == 0) && (s == 0 || s == 1)
  {
  }

  // ---------------------------------------------------------------------------
  // The actions of performSimulation

  /** What happens before the first iteration. */
  function Prologue(dumpMap: bool, dumpData: bool, dumpF: bool): seq<Action>
  {
    [Initialize]
      + (if dumpMap then [StoreMap] else [])
      + (if dumpData then [StoreData(0)] else [])
      + (if dumpF then [StoreF(FCollide, 0)] else [])
  }

  /** What happens in iteration it, with kernel b. */
  function StepActions(it: nat, b: Binding, dumpData: bool, every: nat, dumpF: bool): seq<Action>
    requires dumpData ==> every != 0
  {
    [Compute(b)]
      + (if dumpData && it != 0 && it % every == 0 then [StoreData(it)] else [])
      + (if dumpF then [StoreF(if it % 2 == 0 then FStream else FCollide, it)] else [])
  }

  /** What happens in iterations 1..n with the given kernels. */
  function Steps(kernels: seq<Binding>, n: nat, dumpData: bool, every: nat, dumpF: bool): seq<Action>
    requires n <= |kernels| && (dumpData ==> every != 0)
  {
    if n == 0 then []
    else Steps(kernels, n - 1, dumpData, every, dumpF) + StepActions(n, kernels[n - 1], dumpData, every, dumpF)
  }

  /** The kernel an action launches, if any. */
  function LaunchOf(a: Action): seq<Binding>
  {
    if a.Compute? then [a.binding] else []
  }

  /** The kernels launched, in launch order. */
  function Launched(t: seq<Action>): seq<Binding>
  {
    ActionLog.Collect(t, LaunchOf)
  }

  /** Iterations 1..n launch exactly the first n kernels, in order, once each. */
  lemma {:induction false} StepsLaunch(kernels: seq<Binding>, n: nat, dumpData: bool, every: nat, dumpF: bool)
    requires n <= |kernels| && (dumpData ==> every != 0)
    ensures Launched(Steps(kernels, n, dumpData, every, dumpF)) == kernels[..n]
  {
    if n > 0 {
      StepsLaunch(kernels, n - 1, dumpData, every, dumpF);
      ActionLog.CollectAppend(Steps(kernels, n - 1, dumpData, every, dumpF), StepActions(n, kernels[n - 1], dumpData, every, dumpF), LaunchOf);
      StepLaunches(n, kernels[n - 1], dumpData, every, dumpF);
      assert kernels[..n] == kernels[..n - 1] + [kernels[n - 1]];
    }
  }

  /** An iteration launches its own kernel and nothing else. */
  lemma StepLaunches(it: nat, b: Binding, dumpData: bool, every: nat, dumpF: bool)
    requires dumpData ==> every != 0
    ensures Launched(StepActions(it, b, dumpData, every, dumpF)) == [b]
  {
    var s := StepActions(it, b, dumpData, every, dumpF);
    assert s == [Compute(b)] + s[1..];
    ActionLog.CollectAppend([Compute(b)], s[1..], LaunchOf);
    ActionLog.CollectNone(s[1..], LaunchOf);
    assert [Compute(b)][1..] == [];
  }

  /** With the kernels of `setupSimulation`, the host reads back rho and u
      after iteration it exactly when that iteration's kernel was told to
      store them. */
  lemma StoreDataMatchesKernel(it: nat, dumpData: bool, every: nat, dumpF: bool)
    requires dumpData ==> every != 0
    requires it >= 1
    ensures var b := BindingOf(it, dumpData, every);
      StoreData(it) in StepActions(it, b, dumpData, every, dumpF) <==> b.store == 1
  {
  }

  /** The buffer dumped after iteration it is arg 1 of its kernel. */
  lemma DumpedIsArg1(it: nat, buf: Buffer, dumpData: bool, every: nat, dumpF: bool)
    requires dumpData ==> every != 0
    ensures var b := BindingOf(it, dumpData, every);
      StoreF(buf, it) in StepActions(it, b, dumpData, every, dumpF) <==> dumpF && buf == b.arg1
  {
  }

  /** An iteration's actions before the launch of iteration n stay as they
      are: the actions of 1..m are a prefix of those of 1..n. */
  lemma {:induction false} StepsPrefix(kernels: seq<Binding>, m: nat, n: nat, dumpData: bool, every: nat, dumpF: bool)
    requires m <= n <= |kernels| && (dumpData ==> every != 0)
    ensures Steps(kernels, m, dumpData, every, dumpF) <= Steps(kernels, n, dumpData, every, dumpF)
  {
    if m < n {
      StepsPrefix(kernels, m, n - 1, dumpData, every, dumpF);
    }
  }

  // ---------------------------------------------------------------------------
  // The object

  class Lbmcl {
    const dim: nat
    const stride: nat
    const lwx: nat
    const lwy: nat
    const lwz: nat
    const iterations: nat
    const every: nat
    const dumpData: bool
    const dumpMap: bool
    const dumpF: bool

    /** `compute_kernels`. */
    var computeKernels: seq<Binding>
    /** The actions issued so far. */
    var events: seq<Action>

    predicate Valid()
    {
      dumpData == (every != 0)
    }

    constructor Init(s: Settings, iterations: nat, every: nat, dumpMap: bool, dumpF: bool)
      requires s.dumpData == (every != 0)
      ensures Valid()
      ensures dim == s.dim && stride == s.stride && lwx == s.lwx && lwy == s.lwy && lwz == s.lwz
      ensures this.iterations == iterations && this.every == every && dumpData == s.dumpData
      ensures this.dumpMap == dumpMap && this.dumpF == dumpF
      ensures computeKernels == [] && events == []
    {
      this.dim := s.dim;
      this.stride := s.stride;
      this.lwx, this.lwy, this.lwz := s.lwx, s.lwy, s.lwz;
      this.iterations := iterations;
      this.every := every;
      this.dumpData := s.dumpData;
      this.dumpMap := dumpMap;
      this.dumpF := dumpF;
      computeKernels := [];
      events := [];
    }

    /** The constructor `LBMCL(...)`, step by step; `None` stands for the
        `exit(-1)`. */
    static method New(dim: SizeT, iterations: SizeT, every: SizeT, lwx: SizeT, lwy: SizeT, lwz: SizeT,
                      stride: SizeT, dumpMap: bool, dumpF: bool) returns (r: Option<Lbmcl>)
      ensures r.None? <==> Normalize(dim, every, lwx, lwy, lwz, stride).None?
      ensures r.Some? ==> (fresh(r.value) && r.value.Valid()
        && r.value.Config() == Normalize(dim, every, lwx, lwy, lwz, stride).value
        && r.value.iterations == iterations && r.value.every == every
        && r.value.dumpMap == dumpMap && r.value.dumpF == dumpF
        && r.value.computeKernels == [] && r.value.events == [])
    {
      var dumpData := every != 0;
      var d: SizeT := dim;
      if !IsPowerOfTwo(d) {
        PreviousPowerOfTwoSpec(d);
        d := PreviousPowerOfTwo(d);
      }
      var x, y, z := lwx, lwy, lwz;
      if x == 0 { x := 1; }
      if y == 0 { y := 1; }
      if z == 0 { z := 1; }
      assert d == RoundDown(dim) && x == AtLeastOne(lwx) && y == AtLeastOne(lwy) && z == AtLeastOne(lwz);
      if TooLarge(x, y, z, d) {
        return None;
      }
      var s: SizeT := stride;
      if !IsPowerOfTwo(s) {
        PreviousPowerOfTwoSpec(s);
        s := PreviousPowerOfTwo(s);
      }
      assert s == RoundDown(stride);
      var o := new Lbmcl.Init(Settings(d, s, x, y, z, dumpData), iterations, every, dumpMap, dumpF);
      return Some(o);
    }

    /** The settings the constructor left. */
    function Config(): Settings
    {
      Settings(dim, stride, lwx, lwy, lwz, dumpData)
    }

    /** `setupSimulation`: one compute kernel per iteration 1..iterations,
        appended in order. */
    method SetupSimulation()
      requires Valid()
      modifies this`computeKernels
      ensures computeKernels == old(computeKernels) + Schedule(iterations, dumpData, every)
      ensures events == old(events)
    {
      var it := 1;
      while it <= iterations
        invariant 1 <= it <= iterations + 1
        invariant computeKernels == old(computeKernels) + Schedule(it - 1, dumpData, every)
      {
        var isStore := if dumpData && it != 0 && it % every == 0 then 1 else 0;
        var isSwap := it % 2 == 0;
        computeKernels := computeKernels
          + [Binding(if isSwap then FCollide else FStream, if isSwap then FStream else FCollide, isStore)];
        it := it + 1;
      }
    }

    /** `performSimulation`: initialise, the optional dumps of the initial
        state, then for each iteration its kernel and its dumps. */
    method PerformSimulation()
      requires Valid() && iterations <= |computeKernels|
      modifies this`events
      ensures computeKernels == old(computeKernels)
      ensures events == old(events) + Prologue(dumpMap, dumpData, dumpF)
        + Steps(computeKernels, iterations, dumpData, every, dumpF)
    {
      var start := [Initialize];
      if dumpMap { start := start + [StoreMap]; }
      if dumpData { start := start + [StoreData(0)]; }
      if dumpF { start := start + [StoreF(FCollide, 0)]; }
      assert start == Prologue(dumpMap, dumpData, dumpF);
      var kernels := computeKernels;
      var log := events + start;
      ghost var prefix := log;
      var it := 1;
      while it <= iterations
        invariant 1 <= it <= iterations + 1
        invariant log == prefix + Steps(kernels, it - 1, dumpData, every, dumpF)
      {
        var step := [Compute(kernels[it - 1])];
        if dumpData && it != 0 && it % every == 0 {
          step := step + [StoreData(it)];
        }
        if dumpF {
          step := step + [StoreF(if it % 2 == 0 then FStream else FCollide, it)];
        }
        assert step == StepActions(it, kernels[it - 1], dumpData, every, dumpF);
        AppendAssoc(prefix, Steps(kernels, it - 1, dumpData, every, dumpF), step);
        log := log + step;
        it := it + 1;
      }
      events := log;
    }
  }

  lemma AppendAssoc<T>(a: seq<T>, b: seq<T>, c: seq<T>)
    ensures (a + b) + c == a + (b + c)
  {
  }

  /** After `setupSimulation` on a fresh object, `performSimulation` launches
      the kernels of iterations 1..iterations, each once and in order. */
  lemma LaunchOrder(iterations: nat, dumpMap: bool, dumpData: bool, every: nat, dumpF: bool)
    requires dumpData ==> every != 0
    ensures var k := Schedule(iterations, dumpData, every);
      Launched(Prologue(dumpMap, dumpData, dumpF) + Steps(k, iterations, dumpData, every, dumpF))
        == k
  {
    var k := Schedule(iterations, dumpData, every);
    ScheduleAt(iterations, dumpData, every);
    ActionLog.CollectAppend(Prologue(dumpMap, dumpData, dumpF), Steps(k, iterations, dumpData, every, dumpF), LaunchOf);
    StepsLaunch(k, iterations, dumpData, every, dumpF);
    PrologueLaunchesNothing(dumpMap, dumpData, dumpF);
    assert k[..iterations] == k;
  }

  lemma PrologueLaunchesNothing(dumpMap: bool, dumpData: bool, dumpF: bool)
    ensures Launched(Prologue(dumpMap, dumpData, dumpF)) == []
  {
    ActionLog.CollectNone(Prologue(dumpMap, dumpData, dumpF), LaunchOf);
  }

}

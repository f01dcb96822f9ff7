/**
  The stand-alone OpenCL driver `lbmcl.cpp`: the global `timestamp`, the
  initial dumps, and the loop that runs one `collideAndStream` launch per
  step, choosing by parity between the kernel object with f_collide as
  arg 0 and f_stream as arg 4 and the one with the two exchanged, with
  the optional VTK store and population dump after each step.  Also the
  code its `dump_map` writes for each cell.

  Launches and dumps are recorded as actions; `options.every` and
  `options.iterations` are C `int`s and `%` is C's remainder, which
  truncates toward zero.
*/
module LbmclMain {
  import HeaderFlags
  import LbmclHost
  import ActionLog

  /** The two population buffers, as in the host object. */
  type Buffer = LbmclHost.Buffer

  /** The two kernel objects built from `collideAndStream`. */
  datatype Kernel = CollideAndStream | CollideAndStreamSwap

  /** The population buffer bound as argument 0 of a kernel object. */
  function Arg0(k: Kernel): Buffer
  {
    match k
    case CollideAndStream => LbmclHost.FCollide
    case CollideAndStreamSwap => LbmclHost.FStream
  }

  /** The population buffer bound as argument 4 of a kernel object. */
  function Arg4(k: Kernel): Buffer
  {
    match k
    case CollideAndStream => LbmclHost.FStream
    case CollideAndStreamSwap => LbmclHost.FCollide
  }

  /** What the driver does, in order; `DivisionByZero` is the `% 0` that
      `every = 0` causes, after which the program does not go on. */
  datatype Action =
    | InitLbm
    | DumpMap
    | DumpF(buffer: Buffer)
    | StoreVti
    | Compute(kernel: Kernel)
    | DivisionByZero

  /** The fields of `lbm_options` the schedule depends on. */
  datatype Options = Options(iterations: int, every: int, storeVti: bool, dumpMap: bool, dumpF: bool)

  function Abs(b: int): nat
  {
    if b < 0 then -b else b
  }

  /** C's `a % b`: the remainder of |a| by |b|, with the sign of a. */
  function CRem(a: int, b: int): int
    requires b != 0
  {
    if a >= 0 then a % Abs(b) else -((-a) % Abs(b))
  }

  /** The kernel object and the `f` buffer `main` hands to `processData` at
      step t. */
  function Choice(t: int): (Kernel, Buffer)
  {
    if CRem(t - 1, 2) == 0 then (CollideAndStream, LbmclHost.FStream) else (CollideAndStreamSwap, LbmclHost.FCollide)
  }

  /** Step t ≥ 1 runs `collideAndStream` when t − 1 is even and its swapped
      twin when t − 1 is odd; the buffer dumped after it is its arg 4, and
      that buffer is arg 0 of step t + 1. */
  lemma ChoiceParity(t: int)
    requires t >= 1
    ensures Choice(t).0 == CollideAndStream <==> (t - 1) % 2 == 0
    ensures Choice(t).1 == Arg4(Choice(t).0)
    ensures Arg4(Choice(t).0) == Arg0(Choice(t + 1).0)
    ensures Arg0(Choice(t).0) != Arg4(Choice(t).0)
  {
    assert CRem(t - 1, 2) == (t - 1) % 2 && CRem(t, 2) == t % 2;
  }

  /** Does `processData` reach `% every` with every = 0? */
  predicate Faults(o: Options)
  {
    o.storeVti && o.every == 0
  }

  /** What `processData` does at step t with kernel k and buffer f. */
  function ProcessActions(o: Options, t: int, k: Kernel, f: Buffer): seq<Action>
  {
    [Compute(k)]
      + if Faults(o) then [DivisionByZero]
        else ((if o.storeVti && CRem(t - 1, o.every) == 0 then [StoreVti] else [])
          + (if o.dumpF then [DumpF(f)] else []))
  }

  /** After step t ≥ 1 the VTK file is written exactly when `store_vti` is on
      and |every| divides t − 1, so a negative `every` acts as its absolute
      value, and the default every = −1 stores after every step; a step
      dumps the buffer it was handed exactly when `dump_f` is on. */
  lemma StoreVtiWhen(o: Options, t: int, k: Kernel, f: Buffer)
    requires t >= 1 && !Faults(o)
    ensures StoreVti in ProcessActions(o, t, k, f) <==> o.storeVti && (t - 1) % Abs(o.every) == 0
    ensures o.storeVti && o.every == -1 ==> StoreVti in ProcessActions(o, t, k, f)
    ensures forall g :: DumpF(g) in ProcessActions(o, t, k, f) <==> o.dumpF && g == f
  {
  }

  /** What `main` does before the loop. */
  function Prologue(o: Options): seq<Action>
  {
    [InitLbm]
      + (if o.dumpMap then [DumpMap] else [])
      + (if o.dumpF then [DumpF(LbmclHost.FCollide)] else [])
      + (if o.storeVti then [StoreVti] else [])
  }

  /** Steps 1..n of the loop, as if each one went on after its call of
      `processData`. */
  function Steps(o: Options, n: nat): seq<Action>
  {
    if n == 0 then [] else Steps(o, n - 1) + ProcessActions(o, n, Choice(n).0, Choice(n).1)
  }

  /** How many times `main` calls `processData`: once per step 1..iterations,
      or only once when the first call divides by zero. */
  function Calls(o: Options): nat
  {
    if o.iterations < 1 then 0 else if Faults(o) then 1 else o.iterations
  }

  /** With `store_vti` on and every = 0, the first step launches
      `collideAndStream` and then divides by zero. */
  lemma FirstStepFaults(o: Options)
    requires Faults(o)
    ensures Steps(o, 1) == [Compute(CollideAndStream), DivisionByZero]
  {
    assert CRem(0, 2) == 0;
    assert Steps(o, 1) == Steps(o, 0) + ProcessActions(o, 1, Choice(1).0, Choice(1).1);
  }

  /** The kernel an action launches, if any. */
  function LaunchOf(a: Action): seq<Kernel>
  {
    if a.Compute? then [a.kernel] else []
  }

  /** The kernels launched, in launch order. */
  function Launched(t: seq<Action>): seq<Kernel>
  {
    ActionLog.Collect(t, LaunchOf)
  }

  /** The kernels of steps 1..n, in order. */
  function Kernels(n: nat): (r: seq<Kernel>)
    ensures |r| == n
  {
    if n == 0 then [] else Kernels(n - 1) + [Choice(n).0]
  }

  /** One call of `processData` launches its kernel and nothing else. */
  lemma ProcessLaunches(o: Options, t: int, k: Kernel, f: Buffer)
    ensures Launched(ProcessActions(o, t, k, f)) == [k]
  {
    var s := ProcessActions(o, t, k, f);
    assert s == [Compute(k)] + s[1..];
    ActionLog.CollectAppend([Compute(k)], s[1..], LaunchOf);
    ActionLog.CollectNone(s[1..], LaunchOf);
    assert [Compute(k)][1..] == [];
  }

  /** The loop launches exactly one kernel per step, in step order. */
  lemma {:induction false} StepsLaunch(o: Options, n: nat)
    requires !Faults(o)
    ensures Launched(Steps(o, n)) == Kernels(n)
  {
    if n > 0 {
      StepsLaunch(o, n - 1);
      ActionLog.CollectAppend(Steps(o, n - 1), ProcessActions(o, n, Choice(n).0, Choice(n).1), LaunchOf);
      ProcessLaunches(o, n, Choice(n).0, Choice(n).1);
    }
  }

  /** Arg 0 of launch number i is arg 4 of launch i − 1: the two kernel
      objects alternate, starting with `collideAndStream`. */
  lemma {:induction false} KernelsAlternate(n: nat)
    ensures n >= 1 ==> Kernels(n)[0] == CollideAndStream
    ensures forall i :: 1 <= i < n ==> Arg0(Kernels(n)[i]) == Arg4(Kernels(n)[i - 1])
  {
    if n > 1 {
      KernelsAlternate(n - 1);
      ChoiceParity(n - 1);
      assert Kernels(n)[n - 2] == Kernels(n - 1)[n - 2];
    }
  }

  /** The global state of `lbmcl.cpp` that the schedule touches. */
  class Driver {
    /** The global `timestamp`. */
    var timestamp: int
    /** The actions so far. */
    var log: seq<Action>

    constructor ()
      ensures timestamp == 0 && log == []
    {
      timestamp := 0;
      log := [];
    }

    /** `processData` at the current timestamp. */
    method ProcessData(o: Options, k: Kernel, f: Buffer) returns (alive: bool)
      modifies this`log
      ensures log == old(log) + ProcessActions(o, timestamp, k, f)
      ensures alive <==> !Faults(o)
    {
      var step := [Compute(k)];
      if o.storeVti {
        if o.every == 0 {
          log := log + step + [DivisionByZero];
          return false;
        }
        if CRem(timestamp - 1, o.every) == 0 {
          step := step + [StoreVti];
        }
      }
      if o.dumpF {
        step := step + [DumpF(f)];
      }
      log := log + step;
      return true;
    }

    /** `main` from the launch of `initLBM` to the end of the loop. */
    method Run(o: Options)
      requires timestamp == 0
      modifies this`timestamp, this`log
      ensures log == old(log) + Prologue(o) + Steps(o, Calls(o))
      ensures timestamp == if Faults(o) then 1 else Calls(o) + 1
    {
      Start(o);
      Loop(o);
      LbmclHost.AppendAssoc(old(log), Prologue(o), Steps(o, Calls(o)));
    }

    /** The initial launch and dumps, then `timestamp++`. */
    method Start(o: Options)
      requires timestamp == 0
      modifies this`timestamp, this`log
      ensures log == old(log) + Prologue(o) && timestamp == 1
    {
      var start := [InitLbm];
      if o.dumpMap { start := start + [DumpMap]; }
      if o.dumpF { start := start + [DumpF(LbmclHost.FCollide)]; }
      if o.storeVti { start := start + [StoreVti]; }
      assert start == Prologue(o);
      log := log + start;
      timestamp := timestamp + 1;
    }

    /** The `while (timestamp <= options.iterations)` loop. */
    method Loop(o: Options)
      requires timestamp == 1
      modifies this`timestamp, this`log
      ensures log == old(log) + Steps(o, Calls(o))
      ensures timestamp == if Faults(o) then 1 else Calls(o) + 1
    {
      while timestamp <= o.iterations
        invariant 1 <= timestamp <= (if o.iterations > 0 then o.iterations else 0) + 1
        invariant log == old(log) + Steps(o, timestamp - 1)
        invariant Faults(o) ==> timestamp == 1
      {
        ghost var done := Steps(o, timestamp - 1);
        var alive := Dispatch(o);
        ghost var step := ProcessActions(o, timestamp, Choice(timestamp).0, Choice(timestamp).1);
        assert Steps(o, timestamp) == done + step;
        LbmclHost.AppendAssoc(old(log), done, step);
        if !alive {
          return;
        }
        timestamp := timestamp + 1;
      }
    }

    /** The body of `main`'s loop: the parity test and the `processData` call
        it selects. */
    method Dispatch(o: Options) returns (alive: bool)
      modifies this`log
      ensures log == old(log) + ProcessActions(o, timestamp, Choice(timestamp).0, Choice(timestamp).1)
      ensures alive <==> !Faults(o)
    {
      if CRem(timestamp - 1, 2) == 0 {
        alive := ProcessData(o, CollideAndStream, LbmclHost.FStream);
      } else {
        alive := ProcessData(o, CollideAndStreamSwap, LbmclHost.FCollide);
      }
    }
  }

  /** Without a fault, `main` launches exactly max(iterations, 0) kernels,
      alternating from `collideAndStream`. */
  lemma RunLaunches(o: Options)
    requires !Faults(o)
    ensures var n := if o.iterations > 0 then o.iterations else 0;
      Launched(Prologue(o) + Steps(o, n)) == Kernels(n) && |Kernels(n)| == n
  {
    var n := if o.iterations > 0 then o.iterations else 0;
    ActionLog.CollectAppend(Prologue(o), Steps(o, n), LaunchOf);
    ActionLog.CollectNone(Prologue(o), LaunchOf);
    StepsLaunch(o, n);
  }

  // ---------------------------------------------------------------------------
  // dump_map

  /** The code `dump_map` writes for a cell: 1, then 4 for a wall, 2 for the
      moving face, 3 for any other face flag. */
  function DumpMapCode(c: HeaderFlags.Tag): int
  {
    var v1 := 1;
    var v2 := if HeaderFlags.IsWall(c) then 4 else v1;
    var v3 := if HeaderFlags.IsMoving(c) then 2 else v2;
    if !HeaderFlags.IsMoving(c) && HeaderFlags.IsBoundary(c) then 3 else v3
  }

  /** The code in closed form: 4 exactly for WALL, 2 exactly for the moving
      tag FRONT, 3 for every other tag with a face flag, 1 for the rest. */
  lemma DumpMapCodeCases(c: HeaderFlags.Tag)
    ensures DumpMapCode(c) == 4 <==> c == HeaderFlags.WALL
    ensures DumpMapCode(c) == 2 <==> c == HeaderFlags.FRONT
    ensures DumpMapCode(c) == 3 <==> c & HeaderFlags.FACES != 0 && c != HeaderFlags.FRONT
    ensures DumpMapCode(c) == 1 <==> c & HeaderFlags.FACES == 0 && c != HeaderFlags.WALL
  {
  }
}

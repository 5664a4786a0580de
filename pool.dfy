/**
 * The bookkeeping of a `WorkerPool`: constructor checks and the process-wide
 * registry, the slot numbers of its workers, the steps of its management loop
 * (spawn to target, autoscale, liveness sweep), the plugged targets and the
 * transfer fan-out, shutdown and the not-running checks.
 *
 * Processes, queues and threads are not modelled: a worker start is the pid
 * the operating system hands back, whether a process is alive is an input to
 * the sweep, whether the input queue holds data is an input to autoscale, and
 * what a fed target does with a value is a predicate saying whether it raised.
 */
module Pool {
  import opened Wrappers
  import opened Text
  import opened Remote

  type Pid = nat

  // ---------------------------------------------------------------------------
  // Sequences as Python lists
  // ---------------------------------------------------------------------------

  ghost predicate NoDuplicates<T>(s: seq<T>) {
    forall i, j :: 0 <= i < j < |s| ==> s[i] != s[j]
  }

  /** `list.remove(x)` when x is present; the list itself otherwise. */
  function RemoveFirst<T(==)>(s: seq<T>, x: T): (r: seq<T>)
    ensures x !in s ==> r == s
    ensures x in s ==> |r| == |s| - 1
    decreases |s|
  {
    if s == [] then []
    else if s[0] == x then s[1..]
    else [s[0]] + RemoveFirst(s[1..], x)
  }

  /** The position of the first occurrence of x, which `list.index(x)` would give. */
  function FirstIndex<T(==)>(s: seq<T>, x: T): (i: nat)
    requires x in s
    ensures i < |s| && s[i] == x && x !in s[..i]
    decreases |s|
  {
    if s[0] == x then 0
    else
      var j := FirstIndex(s[1..], x);
      assert s[..j + 1] == [s[0]] + s[1..][..j];
      j + 1
  }

  /** What `list.remove(x)` takes out: the first occurrence of x, keeping the order of the rest. */
  lemma {:induction false} RemoveFirstSplit<T>(s: seq<T>, x: T)
    requires x in s
    ensures RemoveFirst(s, x) == s[..FirstIndex(s, x)] + s[FirstIndex(s, x) + 1..]
    decreases |s|
  {
    if s[0] == x {
      assert s[..0] == [];
    } else {
      var j := FirstIndex(s[1..], x);
      RemoveFirstSplit(s[1..], x);
      assert s[..j + 1] == [s[0]] + s[1..][..j];
      assert s[j + 2..] == s[1..][j + 1..];
    }
  }

  /** Removing the first occurrence keeps exactly the other elements. */
  lemma RemoveFirstMembers<T>(s: seq<T>, x: T, y: T)
    requires NoDuplicates(s) && x in s
    ensures y in RemoveFirst(s, x) <==> y in s && y != x
  {
    if y in s && y != x {
      RemoveFirstKeeps(s, x, y);
    }
    if y in RemoveFirst(s, x) {
      RemoveFirstWithin(s, x, y);
      RemoveFirstDrops(s, x);
    }
  }

  /** Every other element survives the removal. */
  lemma {:induction false} RemoveFirstKeeps<T>(s: seq<T>, x: T, y: T)
    requires y in s && y != x
    ensures y in RemoveFirst(s, x)
    decreases |s|
  {
    if s[0] != y {
      assert y in s[1..] by {
        var k :| 0 <= k < |s| && s[k] == y;
        assert s[1..][k - 1] == y;
      }
      if s[0] != x {
        RemoveFirstKeeps(s[1..], x, y);
      }
    }
  }

  /** The removal adds nothing. */
  lemma {:induction false} RemoveFirstWithin<T>(s: seq<T>, x: T, y: T)
    requires y in RemoveFirst(s, x)
    ensures y in s
    decreases |s|
  {
    if s != [] && s[0] != x && y != s[0] {
      RemoveFirstWithin(s[1..], x, y);
    }
  }

  /** In a list without duplicates, the removed element is gone entirely. */
  lemma RemoveFirstDrops<T>(s: seq<T>, x: T)
    requires NoDuplicates(s) && x in s
    ensures x !in RemoveFirst(s, x)
  {
    RemoveFirstSplit(s, x);
    var i := FirstIndex(s, x);
    var r := RemoveFirst(s, x);
    forall k | 0 <= k < |r| ensures r[k] != x {
      if k < i {
        assert r[k] == s[k];
      } else {
        assert r[k] == s[k + 1];
      }
    }
  }

  /** Removing one element of a list without duplicates removes it entirely and leaves no duplicates. */
  lemma RemoveFirstOfDistinct<T>(s: seq<T>, x: T)
    requires NoDuplicates(s) && x in s
    ensures NoDuplicates(RemoveFirst(s, x))
    ensures x !in RemoveFirst(s, x)
  {
    RemoveFirstSplit(s, x);
    var i := FirstIndex(s, x);
    var r := RemoveFirst(s, x);
    forall a, b | 0 <= a < b < |r| ensures r[a] != r[b] {
      var a' := if a < i then a else a + 1;
      var b' := if b < i then b else b + 1;
      assert r[a] == s[a'] && r[b] == s[b'];
    }
    RemoveFirstDrops(s, x);
  }

  // ---------------------------------------------------------------------------
  // Constructor checks
  // ---------------------------------------------------------------------------

  /** The Python type of a constructor argument, as far as the checks look at it. */
  datatype PyArg = PyStr(s: string) | PyInt(i: int) | PyBool(b: bool) | PyNone | PyOther

  datatype ConfigError = NameNotString | BadWorkersAmount | BadMaxWorkers | AmountAboveMax

  datatype Config = Config(name: string, workersAmount: nat, maxWorkers: nat)

  /** The four checks of `WorkerPool.__init__`, in order; the first that fails is reported. */
  function CheckConfig(name: PyArg, workersAmount: PyArg, maxWorkers: int): (r: Result<Config, ConfigError>)
    ensures r.Success? <==>
      name.PyStr? && workersAmount.PyInt? && 0 <= workersAmount.i <= maxWorkers && 0 < maxWorkers
    ensures r.Success? ==> r.value == Config(name.s, workersAmount.i, maxWorkers)
    ensures !name.PyStr? ==> r == Failure(NameNotString)
    ensures name.PyStr? && !(workersAmount.PyInt? && workersAmount.i >= 0) ==> r == Failure(BadWorkersAmount)
    ensures name.PyStr? && workersAmount.PyInt? && workersAmount.i >= 0 && maxWorkers <= 0 ==> r == Failure(BadMaxWorkers)
    ensures name.PyStr? && workersAmount.PyInt? && 0 < maxWorkers < workersAmount.i ==> r == Failure(AmountAboveMax)
  {
    if !name.PyStr? then Failure(NameNotString)
    else if !workersAmount.PyInt? || workersAmount.i < 0 then Failure(BadWorkersAmount)
    else if maxWorkers <= 0 then Failure(BadMaxWorkers)
    else if workersAmount.i > maxWorkers then Failure(AmountAboveMax)
    else Success(Config(name.s, workersAmount.i, maxWorkers))
  }

  // ---------------------------------------------------------------------------
  // Worker slots
  // ---------------------------------------------------------------------------

  /** No two live workers share a slot number. */
  ghost predicate SlotsDistinct(avbl: map<Pid, nat>) {
    forall p, q :: p in avbl && q in avbl && p != q ==> avbl[p] != avbl[q]
  }

  /** Every slot below n is taken. */
  ghost predicate SlotsBelowTaken(avbl: map<Pid, nat>, n: nat) {
    forall j :: 1 <= j < n ==> j in avbl.Values
  }

  /** The smallest slot number from i on that `taken` does not hold. */
  function FreeFrom(taken: set<nat>, i: nat): (r: nat)
    ensures i <= r && r !in taken
    ensures forall j :: i <= j < r ==> j in taken
    decreases set v | v in taken && v >= i
  {
    if i in taken then
      var before := set v | v in taken && v >= i;
      var after := set v | v in taken && v >= i + 1;
      assert after <= before && i in before && i !in after;
      FreeFrom(taken, i + 1)
    else i
  }

  /** Adding a worker under a new pid keeps every slot already taken. */
  lemma ValuesGrow(a: map<Pid, nat>, pid: Pid, number: nat)
    requires pid !in a
    ensures a.Values <= a[pid := number].Values && number in a[pid := number].Values
  {
    forall v | v in a.Values ensures v in a[pid := number].Values {
      var p :| p in a && a[p] == v;
      assert a[pid := number][p] == v;
    }
    assert a[pid := number][pid] == number;
  }

  lemma BelowTakenGrows(a: map<Pid, nat>, a': map<Pid, nat>, n: nat)
    requires a.Values <= a'.Values && SlotsBelowTaken(a, n)
    ensures SlotsBelowTaken(a', n)
  {
  }

  /** A map has no more distinct values than keys. */
  lemma {:induction false} ValuesNoMoreThanKeys<K, V>(m: map<K, V>)
    ensures |m.Values| <= |m|
    decreases |m|
  {
    if m != map[] {
      var k :| k in m;
      var m' := m - {k};
      ValuesNoMoreThanKeys(m');
      assert m.Values <= m'.Values + {m[k]} by {
        forall v | v in m.Values ensures v in m'.Values + {m[k]} {
          var k' :| k' in m && m[k'] == v;
          if k' != k { assert m'[k'] == v; }
        }
      }
      assert |m'.Values + {m[k]}| <= |m'.Values| + 1;
    }
  }

  /** The slot numbers 1 .. n-1. */
  function SlotRange(n: nat): (r: set<nat>)
    ensures forall j :: j in r <==> 1 <= j < n
    ensures |r| == if n == 0 then 0 else n - 1
    decreases n
  {
    if n <= 1 then {} else SlotRange(n - 1) + {n - 1}
  }

  /** The smallest free slot is at most one past the number of live workers: slots stay dense. */
  lemma SmallestFreeSlotBound(avbl: map<Pid, nat>, n: nat)
    requires 1 <= n && n !in avbl.Values && SlotsBelowTaken(avbl, n)
    ensures n <= |avbl| + 1
  {
    assert SlotRange(n) <= avbl.Values;
    SubsetNoLarger(SlotRange(n), avbl.Values);
    ValuesNoMoreThanKeys(avbl);
  }

  lemma {:induction false} SubsetNoLarger<T>(a: set<T>, b: set<T>)
    requires a <= b
    ensures |a| <= |b|
    decreases |a|
  {
    if a != {} {
      var x :| x in a;
      SubsetNoLarger(a - {x}, b - {x});
    }
  }

  // ---------------------------------------------------------------------------
  // Autoscale
  // ---------------------------------------------------------------------------

  /** The next target in autoscale mode: one more if the input queue holds data, one fewer if not, kept in [0, maxWorkers]. */
  function NextTarget(workersAmount: int, maxWorkers: int, queueNonEmpty: bool): (r: int)
    requires 0 < maxWorkers
    ensures 0 <= r <= maxWorkers
    ensures queueNonEmpty && 0 <= workersAmount < maxWorkers ==> r == workersAmount + 1
    ensures queueNonEmpty && workersAmount >= maxWorkers ==> r == maxWorkers
    ensures !queueNonEmpty && 0 < workersAmount <= maxWorkers ==> r == workersAmount - 1
    ensures !queueNonEmpty && workersAmount <= 0 ==> r == 0
  {
    var stepped := if queueNonEmpty then workersAmount + 1 else workersAmount - 1;
    var low := if stepped < 0 then 0 else stepped;
    if low > maxWorkers then maxWorkers else low
  }

  /** The target after `ticks` autoscale steps under the same queue state. */
  function TargetAfter(workersAmount: int, maxWorkers: int, queueNonEmpty: bool, ticks: nat): int
    requires 0 < maxWorkers
    decreases ticks
  {
    if ticks == 0 then workersAmount
    else TargetAfter(NextTarget(workersAmount, maxWorkers, queueNonEmpty), maxWorkers, queueNonEmpty, ticks - 1)
  }

  /**
   * Under a steady backlog the target climbs one per tick until it saturates at
   * maxWorkers; with an empty queue it falls one per tick down to zero.
   */
  lemma {:induction false} AutoscaleConverges(workersAmount: int, maxWorkers: int, queueNonEmpty: bool, ticks: nat)
    requires 0 < maxWorkers && 0 <= workersAmount <= maxWorkers
    ensures queueNonEmpty ==>
      TargetAfter(workersAmount, maxWorkers, true, ticks) ==
        if workersAmount + ticks <= maxWorkers then workersAmount + ticks else maxWorkers
    ensures !queueNonEmpty ==>
      TargetAfter(workersAmount, maxWorkers, false, ticks) ==
        if workersAmount - ticks >= 0 then workersAmount - ticks else 0
    decreases ticks
  {
    if ticks > 0 {
      AutoscaleConverges(NextTarget(workersAmount, maxWorkers, queueNonEmpty), maxWorkers, queueNonEmpty, ticks - 1);
    }
  }

  // ---------------------------------------------------------------------------
  // Transfer fan-out
  // ---------------------------------------------------------------------------

  /** A routing edge: another local pool or a remote proxy. */
  datatype Target = LocalPool(pool: WorkerPool) | RemotePool(proxy: RemoteWorkerPool)

  /** What is passed to plug/unplug: None, a pool, or anything else. */
  datatype PyRef = NoneRef | PoolRef(target: Target) | OtherRef

  /** The targets, in order, that accepted `val`: every target is tried, whatever the others did. */
  function Accepted(targets: seq<Target>, val: Value, fails: (Target, Value) -> bool): (r: seq<Target>)
    ensures |r| <= |targets|
    ensures forall k :: 0 <= k < |r| ==> r[k] in targets && !fails(r[k], val)
    decreases |targets|
  {
    if targets == [] then []
    else
      var last := targets[|targets| - 1];
      Accepted(targets[..|targets| - 1], val, fails) + (if fails(last, val) then [] else [last])
  }

  /** Fan-out over two runs of targets is the fan-out over each. */
  lemma {:induction false} AcceptedConcat(a: seq<Target>, b: seq<Target>, val: Value, fails: (Target, Value) -> bool)
    ensures Accepted(a + b, val, fails) == Accepted(a, val, fails) + Accepted(b, val, fails)
    decreases |b|
  {
    if b == [] {
      assert a + b == a;
    } else {
      var n := |b| - 1;
      AcceptedConcat(a, b[..n], val, fails);
      assert (a + b)[..|a + b| - 1] == a + b[..n];
    }
  }

  /** A target receives the value exactly when it is plugged and its feed does not raise. */
  lemma {:induction false} AcceptedMembers(targets: seq<Target>, val: Value, fails: (Target, Value) -> bool)
    ensures forall t :: t in Accepted(targets, val, fails) <==> t in targets && !fails(t, val)
    decreases |targets|
  {
    if targets != [] {
      var n := |targets| - 1;
      AcceptedMembers(targets[..n], val, fails);
      assert targets == targets[..n] + [targets[n]];
    }
  }

  /** A failing target does not keep the targets after it from receiving the value. */
  lemma FailureIsIsolated(before: seq<Target>, bad: Target, after: seq<Target>, val: Value, fails: (Target, Value) -> bool)
    requires fails(bad, val)
    ensures Accepted(before + [bad] + after, val, fails) == Accepted(before, val, fails) + Accepted(after, val, fails)
  {
    AcceptedConcat(before + [bad], after, val, fails);
    AcceptedConcat(before, [bad], val, fails);
    assert Accepted([bad], val, fails) == Accepted([], val, fails) + [] by {
      assert [bad][..0] == [];
    }
  }

  // ---------------------------------------------------------------------------
  // The registry and the pool
  // ---------------------------------------------------------------------------

  /** Errors the pool raises synchronously. */
  datatype PoolError =
    | NotRunning                     // EnvironmentError("Pool is not running")
    | NotInList                      // ValueError from list.remove
    | MissingAttribute(attr: string) // AttributeError

  datatype PlugError = PlugNone | NotAPool | AlreadyPlugged

  /** A live worker as the pool holds it: its name and its shared running flag. */
  datatype WorkerHandle = WorkerHandle(name: string, running: bool)

  /** The process-wide list of pools, `WorkerPool.pools`. */
  class Registry {
    var pools: seq<WorkerPool>

    ghost predicate Valid()
      reads this
    {
      NoDuplicates(pools)
    }

    constructor ()
      ensures Valid() && pools == []
    {
      pools := [];
    }
  }

  class WorkerPool {
    const name: string
    const registry: Registry
    const autoWorkers: bool
    const maxWorkers: int
    var running: bool
    var workersAmount: int
    var workers: map<Pid, WorkerHandle>
    var avbl: map<Pid, nat>
    var plugged: seq<Target>
    var transferThread: bool
    ghost var transferStarts: nat

    ghost predicate Valid()
      reads this
    {
      && 0 < maxWorkers
      && 0 <= workersAmount <= maxWorkers
      && (!autoWorkers ==> |workers| <= workersAmount)
      && workers.Keys == avbl.Keys
      && SlotsDistinct(avbl)
      && (forall pid :: pid in avbl ==> avbl[pid] >= 1)
      && NoDuplicates(plugged)
      && transferStarts == (if transferThread then 1 else 0)
      && (plugged != [] ==> transferThread)
    }

    /** The body of `__init__` once its checks passed: the pool registers itself. */
    constructor (registry: Registry, config: Config)
      requires registry.Valid()
      requires 0 < config.maxWorkers && config.workersAmount <= config.maxWorkers
      modifies registry
      ensures Valid() && registry.Valid()
      ensures this.registry == registry && name == config.name && maxWorkers == config.maxWorkers
      ensures workersAmount == config.workersAmount && autoWorkers == (config.workersAmount == 0)
      ensures running && workers == map[] && avbl == map[] && plugged == [] && !transferThread
      ensures registry.pools == old(registry.pools) + [this]
    {
      name := config.name;
      this.registry := registry;
      autoWorkers := config.workersAmount == 0;
      workersAmount := config.workersAmount;
      maxWorkers := config.maxWorkers;
      running := true;
      workers := map[];
      avbl := map[];
      plugged := [];
      transferThread := false;
      transferStarts := 0;
      new;
      registry.pools := registry.pools + [this];
    }

    /** `WorkerPool(name, job, workersAmount, maxWorkers)`: raises, registering nothing, or registers exactly the new pool. */
    static method Create(registry: Registry, name: PyArg, workersAmount: PyArg, maxWorkers: int)
      returns (r: Result<WorkerPool, ConfigError>)
      requires registry.Valid()
      modifies registry
      ensures registry.Valid()
      ensures r.Success? <==> CheckConfig(name, workersAmount, maxWorkers).Success?
      ensures r.Failure? ==> r.error == CheckConfig(name, workersAmount, maxWorkers).error && registry.pools == old(registry.pools)
      ensures r.Success? ==>
        && fresh(r.value) && r.value.Valid() && r.value.running && r.value.registry == registry
        && registry.pools == old(registry.pools) + [r.value]
        && r.value.autoWorkers == (workersAmount.i == 0)
        && r.value.name == name.s && r.value.workersAmount == workersAmount.i && r.value.maxWorkers == maxWorkers
        && r.value.workers == map[] && r.value.avbl == map[] && r.value.plugged == [] && !r.value.transferThread
    {
      match CheckConfig(name, workersAmount, maxWorkers)
      case Failure(e) =>
        return Failure(e);
      case Success(config) =>
        var pool := new WorkerPool(registry, config);
        return Success(pool);
    }

    /** `_getWorkerNumber`: the smallest positive integer no live worker uses. */
    method GetWorkerNumber(avbl: map<Pid, nat>) returns (i: nat)
      ensures i == FreeFrom(avbl.Values, 1)
      ensures 1 <= i && i !in avbl.Values && SlotsBelowTaken(avbl, i)
    {
      i := 1;
      var k := avbl.Values;
      while i in k
        invariant 1 <= i && FreeFrom(k, i) == FreeFrom(k, 1)
        decreases set v | v in k && v >= i
      {
        ghost var before := set v | v in k && v >= i;
        ghost var after := set v | v in k && v >= i + 1;
        assert after <= before && i in before && i !in after;
        i := i + 1;
      }
    }

    /** How many workers the spawn step starts to reach the target. */
    static function Deficit(live: nat, target: int): nat {
      if live < target then target - live else 0
    }

    /** The spawn loop stops after exactly the deficit once the target is reached. */
    static lemma DeficitMet(live: nat, target: int, k: nat, now: nat)
      requires now == live + k && k <= Deficit(live, target)
      requires k > 0 ==> now <= target
      requires now >= target
      ensures k == Deficit(live, target)
    {
    }

    /**
     * The workers and slots once the pids in `pids` were started in order on
     * top of `w0` and `a0`: each takes the smallest free slot at its turn and
     * is named after it.
     */
    static function Spawn(w0: map<Pid, WorkerHandle>, a0: map<Pid, nat>, name: string, pids: seq<Pid>): (map<Pid, WorkerHandle>, map<Pid, nat>)
      decreases |pids|
    {
      if pids == [] then (w0, a0)
      else
        var prev := Spawn(w0, a0, name, pids[..|pids| - 1]);
        var number := FreeFrom(prev.1.Values, 1);
        var pid := pids[|pids| - 1];
        (prev.0[pid := WorkerHandle(name + " Worker-" + NatStr(number), true)], prev.1[pid := number])
    }

    /** The pids a spawn is given are new and each given once. */
    static ghost predicate FreshPids(w0: map<Pid, WorkerHandle>, pids: seq<Pid>) {
      && (forall j :: 0 <= j < |pids| ==> pids[j] !in w0)
      && (forall j, l :: 0 <= j < l < |pids| ==> pids[j] != pids[l])
    }

    /** The first k of new, distinct pids are new and distinct. */
    static lemma FreshTake(w0: map<Pid, WorkerHandle>, pids: seq<Pid>, k: nat)
      requires FreshPids(w0, pids) && k <= |pids|
      ensures FreshPids(w0, pids[..k])
    {
    }

    /** A prefix of new, distinct pids is new and distinct; its last element is not in the rest. */
    static lemma FreshPrefix(w0: map<Pid, WorkerHandle>, pids: seq<Pid>)
      requires FreshPids(w0, pids) && pids != []
      ensures FreshPids(w0, pids[..|pids| - 1])
      ensures pids[|pids| - 1] !in w0 && pids[|pids| - 1] !in pids[..|pids| - 1]
      ensures pids == pids[..|pids| - 1] + [pids[|pids| - 1]]
    {
    }

    /** Spawning adds exactly the started pids to the workers, one worker each. */
    static lemma {:induction false} SpawnKeys(w0: map<Pid, WorkerHandle>, a0: map<Pid, nat>, name: string, pids: seq<Pid>)
      requires w0.Keys == a0.Keys && FreshPids(w0, pids)
      ensures var r := Spawn(w0, a0, name, pids);
        && (forall pid :: pid in r.0 <==> pid in w0 || pid in pids)
        && r.0.Keys == r.1.Keys && |r.0| == |w0| + |pids|
      decreases |pids|
    {
      if pids != [] {
        var init := pids[..|pids| - 1];
        FreshPrefix(w0, pids);
        SpawnKeys(w0, a0, name, init);
      }
    }

    /** Spawning keeps every old worker and slot and gives each new worker a fresh slot with every slot below it taken. */
    static lemma {:induction false} SpawnGrown(w0: map<Pid, WorkerHandle>, a0: map<Pid, nat>, name: string, pids: seq<Pid>)
      requires w0.Keys == a0.Keys && SlotsDistinct(a0) && (forall pid :: pid in a0 ==> a0[pid] >= 1)
      requires FreshPids(w0, pids)
      ensures Grown(w0, a0, Spawn(w0, a0, name, pids).0, Spawn(w0, a0, name, pids).1, name)
      decreases |pids|
    {
      if pids == [] {
        GrownStart(w0, a0, name);
      } else {
        var init := pids[..|pids| - 1];
        FreshPrefix(w0, pids);
        SpawnGrown(w0, a0, name, init);
        SpawnKeys(w0, a0, name, init);
        var prev := Spawn(w0, a0, name, init);
        GrownStep(w0, a0, prev.0, prev.1, name, pids[|pids| - 1], FreeFrom(prev.1.Values, 1));
      }
    }

    /** The started pids get rising slots, in the order they were started. */
    static lemma {:induction false} SpawnAscends(w0: map<Pid, WorkerHandle>, a0: map<Pid, nat>, name: string, pids: seq<Pid>)
      requires w0.Keys == a0.Keys && SlotsDistinct(a0) && (forall pid :: pid in a0 ==> a0[pid] >= 1)
      requires FreshPids(w0, pids)
      ensures SlotsAscend(pids, Spawn(w0, a0, name, pids).1)
      decreases |pids|
    {
      if pids != [] {
        var init := pids[..|pids| - 1];
        FreshPrefix(w0, pids);
        SpawnAscends(w0, a0, name, init);
        SpawnGrown(w0, a0, name, init);
        SpawnKeys(w0, a0, name, init);
        var prev := Spawn(w0, a0, name, init);
        if init != [] {
          assert init[|init| - 1] in init;
        }
        AscendAfterAdd(w0, a0, prev.0, prev.1, name, init, pids[|pids| - 1], FreeFrom(prev.1.Values, 1));
      }
    }

    /** Two workers started on an empty pool take slots 1 and 2, in the order they were started. */
    static lemma SpawnTwoOnEmpty(name: string)
      ensures Spawn(map[], map[], name, [10, 20]).1 == map[10 := 1, 20 := 2]
      ensures Spawn(map[], map[], name, [10, 20]).0[20] == WorkerHandle(name + " Worker-" + NatStr(2), true)
    {
      assert [10, 20][..1] == [10] && [10][..0] == [];
      var first: map<Pid, nat> := map[10 := 1];
      assert first[10] == 1;
      assert first.Values == {1} by {
        forall v | v in first.Values ensures v == 1 {
          var p :| p in first && first[p] == v;
        }
      }
      assert FreeFrom({1}, 1) == 2;
    }

    /**
     * `w`, `a` extend the workers `w0` and slots `a0` with new workers only:
     * the old ones keep their handle and slot, and each new one has a slot no
     * old worker had, is named after it, and has every slot below it taken.
     */
    static ghost predicate Grown(w0: map<Pid, WorkerHandle>, a0: map<Pid, nat>, w: map<Pid, WorkerHandle>, a: map<Pid, nat>, name: string) {
      && w.Keys == a.Keys && SlotsDistinct(a) && (forall pid :: pid in a ==> a[pid] >= 1)
      && a0.Values <= a.Values
      && (forall pid :: pid in w0 ==> pid in w && w[pid] == w0[pid] && pid in a0 && a[pid] == a0[pid])
      && (forall pid :: pid in w && pid !in w0 ==>
            && w[pid] == WorkerHandle(name + " Worker-" + NatStr(a[pid]), true)
            && a[pid] !in a0.Values
            && SlotsBelowTaken(a, a[pid]))
    }

    static lemma GrownStart(w: map<Pid, WorkerHandle>, a: map<Pid, nat>, name: string)
      requires w.Keys == a.Keys && SlotsDistinct(a) && forall pid :: pid in a ==> a[pid] >= 1
      ensures Grown(w, a, w, a, name)
    {
    }

    /** Adding one worker in the smallest free slot keeps the extension well formed. */
    static lemma GrownStep(w0: map<Pid, WorkerHandle>, a0: map<Pid, nat>, w: map<Pid, WorkerHandle>, a: map<Pid, nat>, name: string, pid: Pid, number: nat)
      requires Grown(w0, a0, w, a, name)
      requires pid !in w && 1 <= number && number !in a.Values && SlotsBelowTaken(a, number)
      ensures Grown(w0, a0, w[pid := WorkerHandle(name + " Worker-" + NatStr(number), true)], a[pid := number], name)
    {
      var a' := a[pid := number];
      ValuesGrow(a, pid, number);
      forall p | p in a && a[p] >= 1 && SlotsBelowTaken(a, a[p])
        ensures SlotsBelowTaken(a', a[p])
      {
        BelowTakenGrows(a, a', a[p]);
      }
      BelowTakenGrows(a, a', number);
    }

    /**
     * The started pids hold slots that rise in the order they were started.
     * With every slot below a new worker's slot taken, these are the smallest
     * free slots, handed out one by one.
     */
    static ghost predicate SlotsAscend(pids: seq<Pid>, avbl: map<Pid, nat>)
      decreases |pids|
    {
      pids == [] ||
        var n := |pids| - 1;
        && pids[n] in avbl
        && SlotsAscend(pids[..n], avbl)
        && (n >= 1 ==> pids[n - 1] in avbl && avbl[pids[n - 1]] < avbl[pids[n]])
    }

    /** Slots that rise from each started pid to the next rise between any two of them. */
    static lemma {:induction false} SlotsAscendPairs(pids: seq<Pid>, avbl: map<Pid, nat>)
      requires SlotsAscend(pids, avbl)
      ensures forall j :: 0 <= j < |pids| ==> pids[j] in avbl
      ensures forall j, l :: 0 <= j < l < |pids| ==> avbl[pids[j]] < avbl[pids[l]]
      decreases |pids|
    {
      if pids != [] {
        var n := |pids| - 1;
        SlotsAscendPairs(pids[..n], avbl);
        forall j | 0 <= j < n ensures pids[j] in avbl {
          assert pids[..n][j] == pids[j];
        }
        forall j, l | 0 <= j < l < |pids| ensures avbl[pids[j]] < avbl[pids[l]] {
          assert pids[..n][j] == pids[j];
          if l < n {
            assert pids[..n][l] == pids[l];
          } else if j < n - 1 {
            assert pids[..n][n - 1] == pids[n - 1];
            assert avbl[pids[j]] < avbl[pids[n - 1]];
          }
        }
      }
    }

    /** The next free slot lies above the slot of every worker started so far. */
    static lemma NewSlotBelow(w0: map<Pid, WorkerHandle>, a0: map<Pid, nat>, w: map<Pid, WorkerHandle>, a: map<Pid, nat>, name: string, pid: Pid, number: nat)
      requires Grown(w0, a0, w, a, name)
      requires pid in w && pid !in w0 && 1 <= number && number !in a.Values
      ensures a[pid] < number
    {
      assert a[pid] in a.Values;
      assert number < a[pid] ==> number in a.Values;
    }

    /** The started pid that takes the next free slot continues the rising order. */
    static lemma AscendAfterAdd(w0: map<Pid, WorkerHandle>, a0: map<Pid, nat>, w: map<Pid, WorkerHandle>, a: map<Pid, nat>, name: string,
                                pids: seq<Pid>, pid: Pid, number: nat)
      requires Grown(w0, a0, w, a, name) && SlotsAscend(pids, a)
      requires pids != [] ==> pids[|pids| - 1] in w && pids[|pids| - 1] !in w0
      requires pid !in w && 1 <= number && number !in a.Values
      ensures SlotsAscend(pids + [pid], a[pid := number])
    {
      AscendKeep(pids, a, pid, number);
      assert (pids + [pid])[..|pids|] == pids;
      if pids != [] {
        NewSlotBelow(w0, a0, w, a, name, pids[|pids| - 1], number);
      }
    }

    /** Giving a slot to a pid that had none leaves the slots of the started pids rising. */
    static lemma {:induction false} AscendKeep(pids: seq<Pid>, a: map<Pid, nat>, pid: Pid, number: nat)
      requires SlotsAscend(pids, a) && pid !in a
      ensures SlotsAscend(pids, a[pid := number])
      decreases |pids|
    {
      if pids != [] {
        AscendKeep(pids[..|pids| - 1], a, pid, number);
      }
    }

    /** Records a started worker under its pid, in the slot it was given, named after the slot. */
    method AddWorker(pid: Pid, number: nat)
      modifies this`workers, this`avbl
      ensures workers == old(workers)[pid := WorkerHandle(name + " Worker-" + NatStr(number), true)]
      ensures avbl == old(avbl)[pid := number]
    {
      workers := workers[pid := WorkerHandle(name + " Worker-" + NatStr(number), true)];
      avbl := avbl[pid := number];
    }

    /**
     * The inner loop of `_manageWorkers`: start workers until the target is
     * reached. `starts` are the pids successive starts return; when they run
     * out, the next start fails, which stops the management loop (`fatal`).
     * The workers and slots it leaves are those of `Spawn` over the pids it
     * used.
     */
    method SpawnToTarget(starts: seq<Pid>) returns (fatal: bool)
      requires Valid() && FreshPids(workers, starts)
      modifies this`workers, this`avbl
      ensures Valid()
      ensures fatal <==> |starts| < Deficit(old(|workers|), workersAmount)
      ensures var n := if fatal then |starts| else Deficit(old(|workers|), workersAmount);
        n <= |starts| && (workers, avbl) == Spawn(old(workers), old(avbl), name, starts[..n])
      ensures !fatal ==> |workers| >= workersAmount
    {
      var k := 0;
      assert starts[..0] == [];
      while |workers| < workersAmount
        invariant k <= |starts| && k <= Deficit(old(|workers|), workersAmount)
        invariant k > 0 ==> |workers| <= workersAmount
        invariant (workers, avbl) == Spawn(old(workers), old(avbl), name, starts[..k])
        invariant |workers| == old(|workers|) + k
        decreases workersAmount - |workers|
      {
        var number := GetWorkerNumber(avbl);
        if k == |starts| {
          FreshTake(old(workers), starts, k);
          SpawnGrown(old(workers), old(avbl), name, starts[..k]);
          return true;
        }
        AddWorker(starts[k], number);
        assert starts[..k + 1][..k] == starts[..k];
        FreshTake(old(workers), starts, k + 1);
        SpawnKeys(old(workers), old(avbl), name, starts[..k + 1]);
        k := k + 1;
      }
      DeficitMet(old(|workers|), workersAmount, k, |workers|);
      FreshTake(old(workers), starts, k);
      SpawnGrown(old(workers), old(avbl), name, starts[..k]);
      fatal := false;
    }

    /** The autoscale step of `_manageWorkers`; a fixed target is left alone. */
    method Autoscale(queueNonEmpty: bool)
      requires Valid()
      modifies this`workersAmount
      ensures Valid()
      ensures workersAmount == if autoWorkers then NextTarget(old(workersAmount), maxWorkers, queueNonEmpty) else old(workersAmount)
    {
      if autoWorkers {
        if queueNonEmpty {
          workersAmount := workersAmount + 1;
        } else {
          workersAmount := workersAmount - 1;
        }
        if workersAmount < 0 {
          workersAmount := 0;
        }
        if workersAmount > maxWorkers {
          workersAmount := maxWorkers;
        }
      }
    }

    /** The pids of recorded workers whose process is gone, each listed once. */
    method DeadWorkers(alive: set<Pid>) returns (toRemove: seq<Pid>)
      ensures NoDuplicates(toRemove)
      ensures forall pid :: pid in toRemove <==> pid in workers && pid !in alive
    {
      toRemove := [];
      var keys := workers.Keys;
      while keys != {}
        invariant keys <= workers.Keys
        invariant forall pid :: pid in toRemove <==> pid in workers && pid !in keys && pid !in alive
        invariant NoDuplicates(toRemove)
        decreases keys
      {
        var pid :| pid in keys;
        if pid !in alive {
          toRemove := toRemove + [pid];
        }
        keys := keys - {pid};
      }
    }

    /** Forgets the listed workers and their slots. */
    method RemoveWorkers(toRemove: seq<Pid>)
      requires Valid()
      requires NoDuplicates(toRemove) && forall pid :: pid in toRemove ==> pid in workers
      modifies this`workers, this`avbl
      ensures Valid()
      ensures forall pid :: pid in workers <==> pid in old(workers) && pid !in toRemove
      ensures forall pid :: pid in workers ==> workers[pid] == old(workers)[pid] && avbl[pid] == old(avbl)[pid]
    {
      for i := 0 to |toRemove|
        invariant forall pid :: pid in workers <==> pid in old(workers) && pid !in toRemove[..i]
        invariant forall pid :: pid in avbl <==> pid in old(workers) && pid !in toRemove[..i]
        invariant forall pid :: pid in workers ==> workers[pid] == old(workers)[pid] && avbl[pid] == old(avbl)[pid]
      {
        var pid := toRemove[i];
        assert toRemove[..i + 1] == toRemove[..i] + [pid];
        workers := workers - {pid};
        avbl := avbl - {pid};
      }
      assert toRemove[..|toRemove|] == toRemove;
      assert workers.Keys == avbl.Keys;
      SubsetNoLarger(workers.Keys, old(workers).Keys);
    }

    /** The liveness sweep of `_manageWorkers`: forget exactly the workers whose process is gone. */
    method SweepDead(alive: set<Pid>)
      requires Valid()
      modifies this`workers, this`avbl
      ensures Valid()
      ensures workers.Keys == old(workers).Keys * alive
      ensures forall pid :: pid in workers ==> workers[pid] == old(workers)[pid] && avbl[pid] == old(avbl)[pid]
    {
      var toRemove := DeadWorkers(alive);
      RemoveWorkers(toRemove);
      assert workers.Keys == old(workers).Keys * alive by {
        forall pid ensures pid in workers.Keys <==> pid in old(workers).Keys * alive {
        }
      }
    }

    /**
     * One turn of the management loop: spawn to target, then (unless a start
     * failed) autoscale and sweep. Draining the error queue only logs.
     */
    method ManageTick(starts: seq<Pid>, queueNonEmpty: bool, alive: set<Pid>) returns (fatal: bool)
      requires Valid() && FreshPids(workers, starts)
      modifies this`workers, this`avbl, this`workersAmount
      ensures Valid()
      ensures fatal <==> |starts| < Deficit(old(|workers|), old(workersAmount))
      ensures fatal ==> workersAmount == old(workersAmount)
      ensures !fatal ==>
        workersAmount == if autoWorkers then NextTarget(old(workersAmount), maxWorkers, queueNonEmpty) else old(workersAmount)
      ensures var n := if fatal then |starts| else Deficit(old(|workers|), old(workersAmount));
        var spawned := Spawn(old(workers), old(avbl), name, starts[..n]);
        && (fatal ==> workers == spawned.0 && avbl == spawned.1)
        && (!fatal ==> workers.Keys == spawned.0.Keys * alive)
        && (!fatal ==> forall pid :: pid in workers ==>
              && pid in spawned.0 && workers[pid] == spawned.0[pid]
              && pid in spawned.1 && avbl[pid] == spawned.1[pid])
      ensures !fatal ==> forall pid :: pid in workers <==>
        (pid in old(workers) || pid in starts[..Deficit(old(|workers|), old(workersAmount))]) && pid in alive
      ensures !fatal && !autoWorkers && old(workers).Keys <= alive && (forall k :: 0 <= k < |starts| ==> starts[k] in alive) ==>
        |workers| == workersAmount
    {
      fatal := SpawnToTarget(starts);
      ghost var n := if fatal then |starts| else Deficit(old(|workers|), old(workersAmount));
      FreshTake(old(workers), starts, n);
      SpawnKeys(old(workers), old(avbl), name, starts[..n]);
      if fatal {
        return;
      }
      ghost var spawned := workers;
      Autoscale(queueNonEmpty);
      SweepDead(alive);
      if !autoWorkers && old(workers).Keys <= alive && (forall k :: 0 <= k < |starts| ==> starts[k] in alive) {
        assert workers.Keys == spawned.Keys;
      }
    }

    /** `_startTransferThread`: starts the transfer thread unless one exists. */
    method StartTransferThread() returns (started: bool)
      requires transferStarts == (if transferThread then 1 else 0)
      modifies this`transferThread, this`transferStarts
      ensures transferThread && transferStarts == 1
      ensures started <==> !old(transferThread)
    {
      if transferThread {
        return false;
      }
      transferThread := true;
      transferStarts := transferStarts + 1;
      return true;
    }

    /** `plug(target)`: adds a routing edge, refusing None, non-pools and duplicates. */
    method Plug(target: PyRef) returns (err: Option<PlugError>)
      requires Valid()
      modifies this`plugged, this`transferThread, this`transferStarts
      ensures Valid()
      ensures target.NoneRef? ==> err == Some(PlugNone)
      ensures target.OtherRef? ==> err == Some(NotAPool)
      ensures target.PoolRef? && target.target in old(plugged) ==> err == Some(AlreadyPlugged)
      ensures err.None? <==> target.PoolRef? && target.target !in old(plugged)
      ensures err.None? ==> plugged == old(plugged) + [target.target] && transferThread
      ensures err.None? && old(transferThread) ==> transferStarts == old(transferStarts)
      ensures err.Some? ==> plugged == old(plugged) && transferThread == old(transferThread) && transferStarts == old(transferStarts)
    {
      if target.NoneRef? {
        return Some(PlugNone);
      }
      if target.OtherRef? {
        return Some(NotAPool);
      }
      if target.target in plugged {
        return Some(AlreadyPlugged);
      }
      plugged := plugged + [target.target];
      var _ := StartTransferThread();
      return None;
    }

    /** `unplug(other)`: None clears every edge; otherwise removes `other` if plugged and says whether it was. */
    method Unplug(other: PyRef) returns (removed: bool)
      requires Valid()
      modifies this`plugged
      ensures Valid()
      ensures other.NoneRef? ==> removed && plugged == []
      ensures !other.NoneRef? ==> (removed <==> other.PoolRef? && other.target in old(plugged))
      ensures !other.NoneRef? && !removed ==> plugged == old(plugged)
      ensures !other.NoneRef? && removed ==> plugged == RemoveFirst(old(plugged), other.target) && other.target !in plugged
    {
      if other.NoneRef? {
        plugged := [];
        return true;
      }
      if !other.PoolRef? || other.target !in plugged {
        return false;
      }
      RemoveFirstOfDistinct(plugged, other.target);
      plugged := RemoveFirst(plugged, other.target);
      return true;
    }

    /**
     * `unplug(other)` as written: the log message reads `other.name`, which a
     * remote proxy lacks, so unplugging a plugged remote proxy raises and
     * leaves it plugged.
     */
    method UnplugAsWritten(other: PyRef) returns (r: Result<bool, PoolError>)
      requires Valid()
      modifies this`plugged
      ensures Valid()
      ensures other.NoneRef? ==> r == Success(true) && plugged == []
      ensures other.PoolRef? && other.target in old(plugged) && other.target.RemotePool? ==>
        r == Failure(MissingAttribute("name")) && plugged == old(plugged)
      ensures other.PoolRef? && other.target in old(plugged) && other.target.LocalPool? ==>
        r == Success(true) && plugged == RemoveFirst(old(plugged), other.target)
      ensures !other.NoneRef? && !(other.PoolRef? && other.target in old(plugged)) ==>
        r == Success(false) && plugged == old(plugged)
    {
      if other.NoneRef? {
        plugged := [];
        return Success(true);
      }
      if !other.PoolRef? || other.target !in plugged {
        return Success(false);
      }
      if other.target.RemotePool? {
        return Failure(MissingAttribute("name"));
      }
      RemoveFirstOfDistinct(plugged, other.target);
      plugged := RemoveFirst(plugged, other.target);
      return Success(true);
    }

    /**
     * One pass of `_doTransfer` for a value taken from the result queue: it is
     * fed to every plugged target in order; a target that raises is skipped.
     */
    method Transfer(val: Value, fails: (Target, Value) -> bool) returns (attempted: seq<Target>, accepted: seq<Target>)
      ensures attempted == plugged
      ensures accepted == Accepted(plugged, val, fails)
    {
      attempted, accepted := [], [];
      for i := 0 to |plugged|
        invariant attempted == plugged[..i]
        invariant accepted == Accepted(plugged[..i], val, fails)
      {
        var target := plugged[i];
        assert plugged[..i + 1][..i] == plugged[..i];
        attempted := attempted + [target];
        if !fails(target, val) {
          accepted := accepted + [target];
        }
      }
      assert plugged[..|plugged|] == plugged;
    }

    /** `checkPoolState`: raises once the pool is shut down. */
    method CheckPoolState() returns (err: Option<PoolError>)
      ensures err.None? <==> running
      ensures err.Some? ==> err.value == NotRunning
    {
      if !running {
        return Some(NotRunning);
      }
      return None;
    }

    /** `feedData(data)`: refused after shutdown; otherwise the value goes to the input queue. */
    method FeedData(data: Value) returns (err: Option<PoolError>)
      ensures err.None? <==> running
      ensures err.Some? ==> err.value == NotRunning
    {
      err := CheckPoolState();
    }

    /** `pollResult()`: refused after shutdown; otherwise what the result queue yields within its timeout, if anything. */
    method PollResult(available: Option<Value>) returns (r: Result<Option<Value>, PoolError>)
      ensures running ==> r == Success(available)
      ensures !running ==> r == Failure(NotRunning)
    {
      var err := CheckPoolState();
      if err.Some? {
        return Failure(err.value);
      }
      return Success(available);
    }

    /** Every worker's running flag lowered: what `_stopWorkers` is meant to do. */
    static function StopAll(workers: map<Pid, WorkerHandle>): (r: map<Pid, WorkerHandle>)
      ensures r.Keys == workers.Keys
      ensures forall pid :: pid in r ==> r[pid] == workers[pid].(running := false)
    {
      map pid | pid in workers :: workers[pid].(running := false)
    }

    /**
     * `shutdown()`: marks the pool not running, tells every worker to stop and
     * leaves the registry. A second call raises because the pool is no longer
     * registered.
     */
    method Shutdown() returns (err: Option<PoolError>)
      requires Valid() && registry.Valid()
      modifies this`running, this`workers, registry
      ensures Valid() && registry.Valid()
      ensures !running
      ensures workers == StopAll(old(workers))
      ensures err.None? <==> this in old(registry.pools)
      ensures err.Some? ==> err.value == NotInList
      ensures registry.pools == RemoveFirst(old(registry.pools), this)
      ensures this !in registry.pools
    {
      running := false;
      workers := StopAll(workers);
      if this !in registry.pools {
        return Some(NotInList);
      }
      RemoveFirstOfDistinct(registry.pools, this);
      registry.pools := RemoveFirst(registry.pools, this);
      return None;
    }

    /**
     * `shutdown()` as written: `_stopWorkers` calls `Worker.stop()` in the
     * pool's process, where the worker's `job` attribute was never set (it is
     * set in the worker's own process), so with any worker recorded the call
     * raises before a flag is lowered and before the pool leaves the registry.
     */
    method ShutdownAsWritten() returns (err: Option<PoolError>)
      requires Valid() && registry.Valid()
      modifies this`running, registry
      ensures Valid() && registry.Valid()
      ensures !running
      ensures old(workers) != map[] ==> err == Some(MissingAttribute("job")) && registry.pools == old(registry.pools)
      ensures old(workers) == map[] ==>
        (err.None? <==> this in old(registry.pools)) && registry.pools == RemoveFirst(old(registry.pools), this)
    {
      running := false;
      if workers != map[] {
        return Some(MissingAttribute("job"));
      }
      if this !in registry.pools {
        return Some(NotInList);
      }
      RemoveFirstOfDistinct(registry.pools, this);
      registry.pools := RemoveFirst(registry.pools, this);
      return None;
    }

    /** Plugging a new target and unplugging it again leaves the routing edges as they were. */
    method PlugThenUnplug(t: Target) returns (plugErr: Option<PlugError>, removed: bool)
      requires Valid() && t !in plugged
      modifies this`plugged, this`transferThread, this`transferStarts
      ensures Valid()
      ensures plugErr.None? && removed
      ensures plugged == old(plugged) && transferThread
    {
      plugErr := Plug(PoolRef(t));
      RemoveFirstAppended(old(plugged), t);
      removed := Unplug(PoolRef(t));
    }

    /**
     * `shutdownAll()` as intended: every registered pool is shut down, its
     * workers told to stop, and the registry ends empty. Nothing but the
     * pools' running flags and worker handles changes.
     */
    static method ShutdownAll(registry: Registry)
      requires registry.Valid()
      requires forall p :: p in registry.pools ==> p.Valid() && p.registry == registry
      modifies registry, registry.pools`running, registry.pools`workers
      ensures registry.Valid() && registry.pools == []
      ensures forall p :: p in old(registry.pools) ==> p.Valid() && !p.running && p.workers == StopAll(old(p.workers))
      ensures forall p :: p in old(registry.pools) ==> p.avbl == old(p.avbl) && p.plugged == old(p.plugged)
    {
      var all := registry.pools;
      for i := 0 to |all|
        invariant registry.Valid()
        invariant registry.pools == all[i..]
        invariant forall q :: q in all ==> q.Valid() && q.registry == registry
        invariant forall j :: 0 <= j < i ==> !all[j].running && all[j].workers == StopAll(old(all[j].workers))
        invariant forall j :: i <= j < |all| ==> all[j].workers == old(all[j].workers)
      {
        ShutdownTurn(registry, all, i);
      }
    }

    /** Turn i of `shutdownAll()` as intended: the first registered pool, the one at i, is shut down. */
    static method ShutdownTurn(registry: Registry, ghost all: seq<WorkerPool>, i: nat)
      requires registry.Valid() && i < |all| && registry.pools == all[i..]
      requires forall q :: q in all ==> q.Valid() && q.registry == registry
      modifies registry, {all[i]}`running, {all[i]}`workers
      ensures registry.Valid() && registry.pools == all[i + 1..]
      ensures forall q :: q in all ==> q.Valid() && q.registry == registry
      ensures !all[i].running && all[i].workers == StopAll(old(all[i].workers))
    {
      var p := registry.pools[0];
      var _ := p.Shutdown();
      assert all[i..][1..] == all[i + 1..];
    }

    /**
     * Turn i of the iteration in `shutdownAll()` as written: the pool now at
     * position i, which is the one originally at 2i, is shut down and its
     * workers told to stop.
     */
    static method SkipTurn(registry: Registry, ghost all: seq<WorkerPool>, i: nat)
      requires registry.Valid() && 2 * i < |all| && registry.pools == Skipping(all, i)
      requires forall q :: q in all ==> q.Valid() && q.registry == registry
      requires forall k :: 0 <= k < i ==> !all[2 * k].running
      requires NoDuplicates(all)
      modifies registry, {all[2 * i]}`running, {all[2 * i]}`workers
      ensures registry.Valid() && registry.pools == Skipping(all, i + 1)
      ensures forall q :: q in all ==> q.Valid() && q.registry == registry
      ensures forall k :: 0 <= k <= i ==> !all[2 * k].running
      ensures all[2 * i].workers == StopAll(old(all[2 * i].workers))
      ensures forall j :: 0 <= j < |all| && j != 2 * i ==> all[j].running == old(all[j].running) && all[j].workers == old(all[j].workers)
      ensures forall q :: q in registry.pools <==> q in old(registry.pools) && q != all[2 * i]
    {
      SkippingAt(all, i);
      var p := registry.pools[i];
      RemoveFirstAt(registry.pools, i);
      ghost var before := registry.pools;
      var _ := p.Shutdown();
      forall q ensures q in registry.pools <==> q in before && q != p {
        RemoveFirstMembers(before, p, q);
      }
    }

    /**
     * `shutdownAll()` as written: it iterates over the registry while each
     * `shutdown()` removes its pool from it, so the iteration steps over the
     * pool that moved into the freed position. Only the pools at even
     * positions are shut down and their workers told to stop; the others stay
     * registered and untouched.
     */
    static method ShutdownAllAsWritten(registry: Registry)
      requires registry.Valid()
      requires forall p :: p in registry.pools ==> p.Valid() && p.registry == registry
      modifies registry, registry.pools`running, registry.pools`workers
      ensures registry.Valid()
      ensures registry.pools == EveryOther(old(registry.pools))
      ensures forall k :: 0 <= 2 * k < |old(registry.pools)| ==>
        var p := old(registry.pools)[2 * k]; !p.running && p.workers == StopAll(old(p.workers))
      ensures forall k :: 0 <= 2 * k + 1 < |old(registry.pools)| ==>
        var p := old(registry.pools)[2 * k + 1]; p.running == old(p.running) && p.workers == old(p.workers)
      ensures forall p :: p in old(registry.pools) ==> p.avbl == old(p.avbl) && p.plugged == old(p.plugged)
    {
      ghost var all := registry.pools;
      var i := 0;
      while i < |registry.pools|
        invariant registry.Valid() && NoDuplicates(all)
        invariant 2 * i <= |all| + 1
        invariant registry.pools == Skipping(all, i)
        invariant forall q :: q in all ==> q.Valid() && q.registry == registry
        invariant forall k :: 0 <= k < i && 2 * k < |all| ==> !all[2 * k].running && all[2 * k].workers == StopAll(old(all[2 * k].workers))
        invariant forall k :: 0 <= k < i && 2 * k + 1 < |all| ==> all[2 * k + 1].running == old(all[2 * k + 1].running) && all[2 * k + 1].workers == old(all[2 * k + 1].workers)
        invariant forall j :: 2 * i <= j < |all| ==> all[j].running == old(all[j].running) && all[j].workers == old(all[j].workers)
        decreases |all| - i
      {
        SkippingLength(all, i);
        SkippingAt(all, i);
        SkipTurn(registry, all, i);
        i := i + 1;
      }
      SkippingLength(all, i);
      SkippingDone(all, i);
    }
  }

  // ---------------------------------------------------------------------------
  // Helpers for the registry iteration
  // ---------------------------------------------------------------------------

  /** The elements at odd positions: s[1], s[3], ... */
  function EveryOther<T>(s: seq<T>): (r: seq<T>)
    ensures |r| == |s| / 2
    ensures forall j :: 0 <= j < |r| ==> r[j] == s[2 * j + 1]
  {
    seq(|s| / 2, j requires 0 <= j < |s| / 2 => s[2 * j + 1])
  }

  /** Taking two more elements adds the second of them; taking one more from an even prefix adds nothing. */
  lemma EveryOtherGrows<T>(s: seq<T>, k: nat)
    requires k % 2 == 0 && k < |s|
    ensures k + 2 <= |s| ==> EveryOther(s[..k + 2]) == EveryOther(s[..k]) + [s[k + 1]]
    ensures k + 1 == |s| ==> EveryOther(s[..k + 1]) == EveryOther(s[..k])
  {
  }

  /**
   * The registry after `i` turns of the iteration in `shutdownAll`: turn k
   * removes whatever is at position k once the earlier turns are done.
   */
  ghost function Skipping<T>(all: seq<T>, i: nat): seq<T>
    decreases i
  {
    if i == 0 then all
    else
      var s := Skipping(all, i - 1);
      if i - 1 < |s| then s[..i - 1] + s[i..] else s
  }

  /** How many of the original pools the first i turns have passed. */
  function Reached(n: nat, i: nat): nat {
    if 2 * i <= n then 2 * i else n
  }

  /** After i turns, the pools at odd positions among the first 2i are left, followed by the ones not reached. */
  lemma {:induction false} SkippingClosed<T>(all: seq<T>, i: nat)
    requires 2 * i <= |all| + 1
    ensures Skipping(all, i) == EveryOther(all[..Reached(|all|, i)]) + all[Reached(|all|, i)..]
    decreases i
  {
    if i == 0 {
      assert all[..0] == [] && all[0..] == all;
    } else {
      var k := i - 1;
      SkippingClosed(all, k);
      SkippingTurn(all, k);
      EveryOtherShift(all, k);
    }
  }

  /** Turn k + 1 removes the element right after the k survivors, which is the one at 2k in the original. */
  lemma SkippingTurn<T>(all: seq<T>, k: nat)
    requires 2 * k + 1 <= |all|
    requires Skipping(all, k) == EveryOther(all[..2 * k]) + all[2 * k..]
    ensures Skipping(all, k + 1) == EveryOther(all[..2 * k]) + all[2 * k + 1..]
  {
    var s := Skipping(all, k);
    var e := EveryOther(all[..2 * k]);
    assert |e| == k;
    assert s[..k] == e && s[k + 1..] == all[2 * k + 1..];
  }

  /** The survivors after turn k + 1, regrouped as the odd positions of what the turns have passed. */
  lemma EveryOtherShift<T>(all: seq<T>, k: nat)
    requires 2 * k + 1 <= |all|
    ensures EveryOther(all[..2 * k]) + all[2 * k + 1..] ==
      EveryOther(all[..Reached(|all|, k + 1)]) + all[Reached(|all|, k + 1)..]
  {
    EveryOtherGrows(all, 2 * k);
    if 2 * k + 2 <= |all| {
      assert all[2 * k + 1..] == [all[2 * k + 1]] + all[2 * k + 2..];
    } else {
      assert all[..2 * k + 1] == all[..|all|];
    }
  }

  lemma SkippingLength<T>(all: seq<T>, i: nat)
    requires 2 * i <= |all| + 1
    ensures |Skipping(all, i)| == if 2 * i <= |all| then |all| - i else i - 1
  {
    SkippingClosed(all, i);
  }

  /** Turn i shuts down the pool at position 2i. */
  lemma SkippingAt<T>(all: seq<T>, i: nat)
    requires 2 * i < |all|
    ensures |Skipping(all, i)| == |all| - i && Skipping(all, i)[i] == all[2 * i]
  {
    SkippingClosed(all, i);
  }

  /** When the iteration runs past the end of the shrinking list, only the odd positions are left. */
  lemma SkippingDone<T>(all: seq<T>, i: nat)
    requires 2 * i <= |all| + 1 && i >= |Skipping(all, i)|
    ensures Skipping(all, i) == EveryOther(all)
  {
    SkippingClosed(all, i);
    assert all[..|all|] == all;
  }

  /** In a list without duplicates, removing the element at i removes position i. */
  lemma RemoveFirstAt<T>(s: seq<T>, i: nat)
    requires NoDuplicates(s) && i < |s|
    ensures RemoveFirst(s, s[i]) == s[..i] + s[i + 1..]
  {
    var j := FirstIndex(s, s[i]);
    assert s[j] == s[i];
    assert j == i;
    RemoveFirstSplit(s, s[i]);
  }

  /** Removing what was just appended gives the list back. */
  lemma {:induction false} RemoveFirstAppended<T>(s: seq<T>, x: T)
    requires x !in s
    ensures RemoveFirst(s + [x], x) == s
    decreases |s|
  {
    if s != [] {
      RemoveFirstAppended(s[1..], x);
      assert (s + [x])[1..] == s[1..] + [x];
    }
  }

  // ---------------------------------------------------------------------------
  // Scenarios
  // ---------------------------------------------------------------------------

  /** A pool that has started one worker: shutting it down as written raises and leaves it registered. */
  method ShutdownWithWorkerAsWritten() returns (err: Option<PoolError>, stillRegistered: bool)
    ensures err == Some(MissingAttribute("job")) && stillRegistered
  {
    var registry := new Registry();
    var pool := new WorkerPool(registry, Config("camera", 1, 4));
    var fatal := pool.SpawnToTarget([4242]);
    assert 4242 in pool.workers;
    err := pool.ShutdownAsWritten();
    stillRegistered := pool in registry.pools;
  }

  /** The same pool under the corrected shutdown: it leaves the registry and its worker is told to stop. */
  method ShutdownWithWorker() returns (err: Option<PoolError>, unregistered: bool, workerRunning: bool)
    ensures err == None && unregistered && !workerRunning
  {
    var registry := new Registry();
    var pool := new WorkerPool(registry, Config("camera", 1, 4));
    var fatal := pool.SpawnToTarget([4242]);
    assert 4242 in pool.workers;
    err := pool.Shutdown();
    unregistered := pool !in registry.pools;
    workerRunning := pool.workers[4242].running;
  }

  /** After shutdown a pool refuses data and polls, and a second shutdown raises. */
  method ShutdownIsFinalScenario() returns (first: Option<PoolError>, second: Option<PoolError>, fed: Option<PoolError>, polled: Result<Option<Value>, PoolError>)
    ensures first == None && second == Some(NotInList)
    ensures fed == Some(NotRunning) && polled == Failure(NotRunning)
  {
    var registry := new Registry();
    var pool := new WorkerPool(registry, Config("detector", 0, 2));
    first := pool.Shutdown();
    second := pool.Shutdown();
    fed := pool.FeedData(Atom("frame"));
    polled := pool.PollResult(Some(Atom("result")));
  }

  /**
   * Unplugging a plugged remote proxy: as written it raises and the proxy
   * stays plugged; the corrected unplug removes it.
   */
  method UnplugRemoteScenario() returns (asWritten: Result<bool, PoolError>, stillPlugged: bool, corrected: bool, left: seq<Target>)
    ensures asWritten == Failure(MissingAttribute("name")) && stillPlugged
    ensures corrected && left == []
  {
    var registry := new Registry();
    var pool := new WorkerPool(registry, Config("acquisition", 1, 1));
    var conn := new Connection();
    var remote := new RemoteWorkerPool("processing", conn, "warden-2");
    var target := RemotePool(remote);
    var err := pool.Plug(PoolRef(target));
    assert pool.plugged == [target];
    asWritten := pool.UnplugAsWritten(PoolRef(target));
    assert pool.plugged == [target];
    stillPlugged := target in pool.plugged;
    corrected := pool.Unplug(PoolRef(target));
    assert RemoveFirst([target], target) == [];
    left := pool.plugged;
  }

  /** Three registered pools: as written, shutdownAll leaves the middle one registered and running. */
  method ShutdownAllThreeAsWritten() returns (left: seq<WorkerPool>, middle: WorkerPool, middleRunning: bool)
    ensures left == [middle] && middleRunning
  {
    var registry := new Registry();
    var a := new WorkerPool(registry, Config("a", 0, 1));
    middle := new WorkerPool(registry, Config("b", 0, 1));
    var c := new WorkerPool(registry, Config("c", 0, 1));
    assert registry.pools == [a, middle, c];
    WorkerPool.ShutdownAllAsWritten(registry);
    assert EveryOther([a, middle, c]) == [middle];
    left := registry.pools;
    middleRunning := middle.running;
  }
}

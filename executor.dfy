/**
 * The mount plan executor: every overlay operation is tried once; the module
 * roots and IDs of the layers of a failed operation fall back to the magic
 * mount (bind-mount replication) queue, and one replication batch runs
 * between temp-dir setup and cleanup.
 *
 * The collaborators (the overlay mount, temp-dir selection and setup, the
 * replication adapter) are answers given in an Env; every call made to them
 * is recorded, in order, as an Event of the returned trace.
 */
module Executor {
  import opened Wrappers
  import opened Paths
  import opened Ordering

  type ModuleId = string

  /** One union mount: a target and its layer directories, in the caller's order. */
  datatype OverlayOp = OverlayOp(target: string, lowerdirs: seq<Path>)

  datatype MountPlan = MountPlan(
    overlayOps: seq<OverlayOp>,
    magicModulePaths: seq<Path>,
    overlayModuleIds: seq<ModuleId>)

  datatype Config = Config(
    tempdir: Option<Path>,
    mountsource: string,
    partitions: seq<string>,
    disableUmount: bool)

  datatype ExecutionResult = ExecutionResult(overlayModuleIds: seq<ModuleId>, magicModuleIds: seq<ModuleId>)

  /** The two local failures `execute` passes on to its caller. */
  datatype ExecError = TempDirSelectFailed | TempDirSetupFailed

  datatype Outcome = Done(result: ExecutionResult) | Failed(error: ExecError)

  /**
   * What the collaborators answer: whether the overlay mount of the i-th
   * operation succeeds, the directory `select_temp_dir` finds (None when it
   * fails), and whether `ensure_temp_dir` and `mount_partitions` succeed.
   */
  datatype Env = Env(
    overlayOk: nat -> bool,
    selectedTempDir: Option<Path>,
    ensureTempDirOk: bool,
    mountPartitionsOk: bool)

  /** A call `execute` makes to a collaborator, with its arguments. */
  datatype Event =
    | MountOverlay(target: string, lowerdirs: seq<string>, upperdir: Option<Path>, workdir: Option<Path>, disableUmount: bool)
    | SelectTempDir
    | EnsureTempDir(dir: Path)
    | MountPartitions(tempDir: Path, roots: seq<Path>, mountsource: string, partitions: seq<string>, disableUmount: bool)
    | CleanupTempDir(dir: Path)

  // ---------------------------------------------------------------------
  // Module roots and IDs of layer paths

  /** `extract_module_root`: the directory holding the layer. */
  function ExtractModuleRoot(layer: Path): (root: Option<Path>)
    ensures root.Some? <==> layer != []
    ensures root.Some? ==> root.value + [layer[|layer| - 1]] == layer
  {
    Parent(layer)
  }

  /** `extract_id`: the file name of the directory holding the layer. */
  function ExtractId(layer: Path): (id: Option<ModuleId>)
    ensures id.Some? <==> |layer| >= 2
    ensures id.Some? ==> id.value == layer[|layer| - 2]
  {
    match Parent(layer)
    case None => None
    case Some(root) => FileName(root)
  }

  /** For a layer `m/x` the root is `m` and the ID is the last component of `m`. */
  lemma LayerOfModule(m: Path, x: string)
    ensures ExtractModuleRoot(Join(m, [x])) == Some(m)
    ensures ExtractId(Join(m, [x])) == FileName(m)
  {
    ParentOfChild(m, x);
  }

  /** Whenever a layer has an ID, it also has a root, and the ID is the root's file name. */
  lemma IdIsRootName(layer: Path)
    ensures ExtractId(layer).Some? ==>
      ExtractModuleRoot(layer).Some? && FileName(ExtractModuleRoot(layer).value) == ExtractId(layer)
  {
  }

  // ---------------------------------------------------------------------
  // Collecting the defined results of a partial map

  /** The defined values of `f` over `s`, in order (the effect of a loop pushing `if let Some(..)`). */
  function FilterMap<A, B>(s: seq<A>, f: A -> Option<B>): seq<B>
  {
    if s == [] then []
    else FilterMap(s[..|s| - 1], f) + (match f(s[|s| - 1]) case Some(b) => [b] case None => [])
  }

  /** `b` is the value of `f` at some element of `s`. */
  ghost predicate Produces<A, B>(s: seq<A>, f: A -> Option<B>, b: B) {
    exists i :: 0 <= i < |s| && f(s[i]) == Some(b)
  }

  /** Every defined value of `f` over `s` is collected. */
  lemma {:induction false} FilterMapHas<A, B>(s: seq<A>, f: A -> Option<B>, i: nat)
    requires i < |s| && f(s[i]).Some?
    ensures f(s[i]).value in FilterMap(s, f)
  {
    var init := s[..|s| - 1];
    if i < |init| {
      assert init[i] == s[i];
      FilterMapHas(init, f, i);
    }
  }

  /** Everything collected is a defined value of `f` over `s`. */
  lemma {:induction false} FilterMapFrom<A, B>(s: seq<A>, f: A -> Option<B>, b: B) returns (i: nat)
    requires b in FilterMap(s, f)
    ensures i < |s| && f(s[i]) == Some(b)
  {
    var init := s[..|s| - 1];
    if b in FilterMap(init, f) {
      i := FilterMapFrom(init, f, b);
      assert init[i] == s[i];
    } else {
      i := |s| - 1;
    }
  }

  lemma FilterMapMembers<A, B>(s: seq<A>, f: A -> Option<B>, b: B)
    ensures b in FilterMap(s, f) <==> Produces(s, f, b)
  {
    if b in FilterMap(s, f) {
      var i := FilterMapFrom(s, f, b);
    }
    if Produces(s, f, b) {
      var i :| 0 <= i < |s| && f(s[i]) == Some(b);
      FilterMapHas(s, f, i);
    }
  }

  lemma FilterMapStep<A, B>(s: seq<A>, j: nat, f: A -> Option<B>)
    requires j < |s|
    ensures FilterMap(s[..j + 1], f) ==
      FilterMap(s[..j], f) + (match f(s[j]) case Some(b) => [b] case None => [])
  {
    assert s[..j + 1][..j] == s[..j];
  }

  // ---------------------------------------------------------------------
  // The fallback bookkeeping of the overlay phase

  /** What the layers of the failed operations among the first n contribute through `f`. */
  function Fallback<B>(ops: seq<OverlayOp>, ok: nat -> bool, n: nat, f: Path -> Option<B>): seq<B>
    requires n <= |ops|
  {
    if n == 0 then []
    else Fallback(ops, ok, n - 1, f) + Contribution(ops, ok, n - 1, f)
  }

  /** What operation k adds: nothing when its mount succeeded, the yield of its layers otherwise. */
  function Contribution<B>(ops: seq<OverlayOp>, ok: nat -> bool, k: nat, f: Path -> Option<B>): seq<B>
    requires k < |ops|
  {
    if ok(k) then [] else FilterMap(ops[k].lowerdirs, f)
  }

  /** `b` comes, through `f`, from a layer of an operation among the first n whose mount failed. */
  ghost predicate FromFailedLayer<B>(ops: seq<OverlayOp>, ok: nat -> bool, n: nat, f: Path -> Option<B>, b: B)
    requires n <= |ops|
  {
    exists i :: 0 <= i < n && !ok(i) && Produces(ops[i].lowerdirs, f, b)
  }

  /** What a layer of a failed operation yields through `f` is collected. */
  lemma {:induction false} FallbackHas<B>(ops: seq<OverlayOp>, ok: nat -> bool, n: nat, f: Path -> Option<B>, i: nat, j: nat, b: B)
    requires n <= |ops| && i < n && !ok(i)
    requires j < |ops[i].lowerdirs| && f(ops[i].lowerdirs[j]) == Some(b)
    ensures b in Fallback(ops, ok, n, f)
  {
    var earlier := Fallback(ops, ok, n - 1, f);
    var last := Contribution(ops, ok, n - 1, f);
    assert Fallback(ops, ok, n, f) == earlier + last;
    if i < n - 1 {
      FallbackHas(ops, ok, n - 1, f, i, j, b);
      assert b in earlier;
    } else {
      FilterMapHas(ops[i].lowerdirs, f, j);
      assert last == FilterMap(ops[i].lowerdirs, f);
      assert b in last;
    }
  }

  /** Everything collected comes from a layer of a failed operation. */
  lemma {:induction false} FallbackFrom<B>(ops: seq<OverlayOp>, ok: nat -> bool, n: nat, f: Path -> Option<B>, b: B)
    returns (i: nat, j: nat)
    requires n <= |ops| && b in Fallback(ops, ok, n, f)
    ensures i < n && !ok(i) && j < |ops[i].lowerdirs| && f(ops[i].lowerdirs[j]) == Some(b)
  {
    assert n != 0;
    var earlier := Fallback(ops, ok, n - 1, f);
    var last := Contribution(ops, ok, n - 1, f);
    assert Fallback(ops, ok, n, f) == earlier + last;
    if b in earlier {
      i, j := FallbackFrom(ops, ok, n - 1, f, b);
    } else {
      assert b in last;
      assert !ok(n - 1);
      assert last == FilterMap(ops[n - 1].lowerdirs, f);
      var k := FilterMapFrom(ops[n - 1].lowerdirs, f, b);
      i, j := n - 1, k;
    }
  }

  lemma FallbackMembers<B>(ops: seq<OverlayOp>, ok: nat -> bool, n: nat, f: Path -> Option<B>, b: B)
    requires n <= |ops|
    ensures b in Fallback(ops, ok, n, f) <==> FromFailedLayer(ops, ok, n, f, b)
  {
    if b in Fallback(ops, ok, n, f) {
      var i, j := FallbackFrom(ops, ok, n, f, b);
      assert Produces(ops[i].lowerdirs, f, b);
    }
    if FromFailedLayer(ops, ok, n, f, b) {
      var i :| 0 <= i < n && !ok(i) && Produces(ops[i].lowerdirs, f, b);
      var j :| 0 <= j < |ops[i].lowerdirs| && f(ops[i].lowerdirs[j]) == Some(b);
      FallbackHas(ops, ok, n, f, i, j, b);
    }
  }

  /** The module roots pushed onto the magic queue by failed overlay operations. */
  function FallbackRoots(ops: seq<OverlayOp>, ok: nat -> bool): seq<Path> {
    Fallback(ops, ok, |ops|, ExtractModuleRoot)
  }

  /** The module IDs recorded as fallen back. */
  function FallbackIds(ops: seq<OverlayOp>, ok: nat -> bool): seq<ModuleId> {
    Fallback(ops, ok, |ops|, ExtractId)
  }

  /** `Vec::retain(|id| !drop.contains(id))`. */
  function Retain(ids: seq<ModuleId>, drop: seq<ModuleId>): (r: seq<ModuleId>)
    ensures forall id :: id in r <==> id in ids && id !in drop
    ensures |r| <= |ids|
  {
    if ids == [] then []
    else (if ids[0] in drop then [] else [ids[0]]) + Retain(ids[1..], drop)
  }

  /** The layer directories as the overlay mount receives them. */
  function LayerStrings(layers: seq<Path>): (r: seq<string>)
    ensures |r| == |layers|
    ensures forall k :: 0 <= k < |layers| ==> r[k] == Display(layers[k])
  {
    seq(|layers|, k requires 0 <= k < |layers| => Display(layers[k]))
  }

  /** The overlay mount call for one operation: its layers in order, no upper or work directory. */
  function MountCall(op: OverlayOp, config: Config): Event {
    MountOverlay(op.target, LayerStrings(op.lowerdirs), None, None, config.disableUmount)
  }

  /** The calls of the overlay phase for the first n operations. */
  function OverlayEvents(ops: seq<OverlayOp>, config: Config, n: nat): (r: seq<Event>)
    requires n <= |ops|
    ensures |r| == n
    ensures forall i :: 0 <= i < n ==> r[i] == MountCall(ops[i], config)
  {
    if n == 0 then [] else OverlayEvents(ops, config, n - 1) + [MountCall(ops[n - 1], config)]
  }

  // ---------------------------------------------------------------------
  // What `execute` computes

  /** `sort()` then `dedup()` on a list of paths. */
  function SortPaths(s: seq<Path>): seq<Path>
  {
    PathLessIsStrictTotal();
    Canonical(s, PathLess)
  }

  /** `sort()` then `dedup()` on a list of module IDs. */
  function SortIds(s: seq<ModuleId>): seq<ModuleId>
  {
    StringLessIsStrictTotal();
    Canonical(s, StringLess)
  }

  /** The replication queue: the plan's magic modules and the fallen-back roots, sorted and deduplicated. */
  function Queue(plan: MountPlan, ok: nat -> bool): seq<Path> {
    SortPaths(plan.magicModulePaths + FallbackRoots(plan.overlayOps, ok))
  }

  /** The overlay IDs reported: the plan's IDs without the fallen-back ones, sorted and deduplicated. */
  function OverlayIds(plan: MountPlan, ok: nat -> bool): seq<ModuleId> {
    var fallen := FallbackIds(plan.overlayOps, ok);
    SortIds(if fallen == [] then plan.overlayModuleIds else Retain(plan.overlayModuleIds, fallen))
  }

  /** The magic IDs reported after a batch ran: the queued roots' names, or none when the batch failed. */
  function MagicIds(queue: seq<Path>, batchOk: bool): seq<ModuleId> {
    if batchOk then SortIds(FilterMap(queue, FileName)) else []
  }

  /** The staging directory: the configured one, else whatever `select_temp_dir` finds. */
  function TempDir(config: Config, env: Env): Option<Path> {
    if config.tempdir.Some? then config.tempdir else env.selectedTempDir
  }

  function ExecuteOutcome(plan: MountPlan, config: Config, env: Env): Outcome {
    var queue := Queue(plan, env.overlayOk);
    var overlay := OverlayIds(plan, env.overlayOk);
    if queue == [] then Done(ExecutionResult(overlay, []))
    else if TempDir(config, env).None? then Failed(TempDirSelectFailed)
    else if !env.ensureTempDirOk then Failed(TempDirSetupFailed)
    else Done(ExecutionResult(overlay, MagicIds(queue, env.mountPartitionsOk)))
  }

  /** The temp-dir and replication calls of the magic phase. */
  function ReplicationEvents(queue: seq<Path>, config: Config, env: Env): seq<Event> {
    if queue == [] then []
    else
      (if config.tempdir.None? then [SelectTempDir] else []) +
      match TempDir(config, env)
      case None => []
      case Some(dir) =>
        [EnsureTempDir(dir)] +
        if !env.ensureTempDirOk then []
        else [MountPartitions(dir, queue, config.mountsource, config.partitions, config.disableUmount), CleanupTempDir(dir)]
  }

  function ExecuteTrace(plan: MountPlan, config: Config, env: Env): seq<Event> {
    OverlayEvents(plan.overlayOps, config, |plan.overlayOps|) + ReplicationEvents(Queue(plan, env.overlayOk), config, env)
  }

  /** One more layer of a failed operation: its root is queued, and its ID recorded when it has a root. */
  lemma LayerStep(layers: seq<Path>, j: nat)
    requires j < |layers|
    ensures FilterMap(layers[..j + 1], ExtractModuleRoot) ==
      FilterMap(layers[..j], ExtractModuleRoot) + (match ExtractModuleRoot(layers[j]) case Some(r) => [r] case None => [])
    ensures FilterMap(layers[..j + 1], ExtractId) ==
      FilterMap(layers[..j], ExtractId) +
      (if ExtractModuleRoot(layers[j]).None? then [] else match ExtractId(layers[j]) case Some(id) => [id] case None => [])
  {
    FilterMapStep(layers, j, ExtractModuleRoot);
    FilterMapStep(layers, j, ExtractId);
  }

  /** The fallback loop of `execute` over the layers of a failed overlay operation. */
  method QueueFallback(layers: seq<Path>, magicQueue: seq<Path>, fallbackIds: seq<ModuleId>)
    returns (magicQueue': seq<Path>, fallbackIds': seq<ModuleId>)
    ensures magicQueue' == magicQueue + FilterMap(layers, ExtractModuleRoot)
    ensures fallbackIds' == fallbackIds + FilterMap(layers, ExtractId)
  {
    magicQueue', fallbackIds' := magicQueue, fallbackIds;
    for j := 0 to |layers|
      invariant magicQueue' == magicQueue + FilterMap(layers[..j], ExtractModuleRoot)
      invariant fallbackIds' == fallbackIds + FilterMap(layers[..j], ExtractId)
    {
      var layerPath := layers[j];
      LayerStep(layers, j);
      var root := ExtractModuleRoot(layerPath);
      if root.Some? {
        magicQueue' := magicQueue' + [root.value];
        var id := ExtractId(layerPath);
        if id.Some? {
          fallbackIds' := fallbackIds' + [id.value];
        }
      }
    }
    assert layers[..|layers|] == layers;
  }

  /** What one more overlay operation adds to the queue, the fallen-back IDs and the calls. */
  lemma OverlayStep(plan: MountPlan, config: Config, ok: nat -> bool, i: nat)
    requires i < |plan.overlayOps|
    ensures plan.magicModulePaths + Fallback(plan.overlayOps, ok, i + 1, ExtractModuleRoot) ==
      plan.magicModulePaths + Fallback(plan.overlayOps, ok, i, ExtractModuleRoot) +
      (if ok(i) then [] else FilterMap(plan.overlayOps[i].lowerdirs, ExtractModuleRoot))
    ensures Fallback(plan.overlayOps, ok, i + 1, ExtractId) ==
      Fallback(plan.overlayOps, ok, i, ExtractId) + (if ok(i) then [] else FilterMap(plan.overlayOps[i].lowerdirs, ExtractId))
    ensures OverlayEvents(plan.overlayOps, config, i + 1) ==
      OverlayEvents(plan.overlayOps, config, i) + [MountCall(plan.overlayOps[i], config)]
  {
    var ops := plan.overlayOps;
    var roots := if ok(i) then [] else FilterMap(ops[i].lowerdirs, ExtractModuleRoot);
    var earlier := Fallback(ops, ok, i, ExtractModuleRoot);
    assert Fallback(ops, ok, i + 1, ExtractModuleRoot) == earlier + roots;
    assert plan.magicModulePaths + (earlier + roots) == plan.magicModulePaths + earlier + roots;
  }

  /**
   * Step 1 of `execute`: each overlay operation tried once, in plan order; a
   * failed one queues its layers' module roots and records their IDs.
   */
  method MountOverlays(plan: MountPlan, config: Config, env: Env)
    returns (magicQueue: seq<Path>, fallbackIds: seq<ModuleId>, trace: seq<Event>)
    ensures magicQueue == plan.magicModulePaths + FallbackRoots(plan.overlayOps, env.overlayOk)
    ensures fallbackIds == FallbackIds(plan.overlayOps, env.overlayOk)
    ensures trace == OverlayEvents(plan.overlayOps, config, |plan.overlayOps|)
  {
    var ops := plan.overlayOps;
    magicQueue := plan.magicModulePaths;
    fallbackIds := [];
    trace := [];
    for i := 0 to |ops|
      invariant magicQueue == plan.magicModulePaths + Fallback(ops, env.overlayOk, i, ExtractModuleRoot)
      invariant fallbackIds == Fallback(ops, env.overlayOk, i, ExtractId)
      invariant trace == OverlayEvents(ops, config, i)
    {
      var op := ops[i];
      var lowerdirStrings := LayerStrings(op.lowerdirs);
      trace := trace + [MountOverlay(op.target, lowerdirStrings, None, None, config.disableUmount)];
      OverlayStep(plan, config, env.overlayOk, i);
      if !env.overlayOk(i) {
        // Fallback: every module the operation involves goes to the magic queue.
        magicQueue, fallbackIds := QueueFallback(op.lowerdirs, magicQueue, fallbackIds);
      }
    }
  }

  /** The calls made before the staging directory is known: `select_temp_dir` unless one is configured. */
  function SelectionEvents(config: Config): seq<Event> {
    if config.tempdir.None? then [SelectTempDir] else []
  }

  lemma ExecuteWithoutQueue(plan: MountPlan, config: Config, env: Env)
    requires Queue(plan, env.overlayOk) == []
    ensures ExecuteOutcome(plan, config, env) == Done(ExecutionResult(OverlayIds(plan, env.overlayOk), []))
    ensures ExecuteTrace(plan, config, env) == OverlayEvents(plan.overlayOps, config, |plan.overlayOps|)
  {
  }

  lemma ExecuteSelectFails(plan: MountPlan, config: Config, env: Env)
    requires Queue(plan, env.overlayOk) != [] && TempDir(config, env).None?
    ensures ExecuteOutcome(plan, config, env) == Failed(TempDirSelectFailed)
    ensures ExecuteTrace(plan, config, env) == OverlayEvents(plan.overlayOps, config, |plan.overlayOps|) + [SelectTempDir]
  {
  }

  lemma ExecuteSetupFails(plan: MountPlan, config: Config, env: Env, dir: Path)
    requires Queue(plan, env.overlayOk) != [] && TempDir(config, env) == Some(dir) && !env.ensureTempDirOk
    ensures ExecuteOutcome(plan, config, env) == Failed(TempDirSetupFailed)
    ensures ExecuteTrace(plan, config, env) ==
      OverlayEvents(plan.overlayOps, config, |plan.overlayOps|) + SelectionEvents(config) + [EnsureTempDir(dir)]
  {
  }

  lemma ExecuteBatch(plan: MountPlan, config: Config, env: Env, dir: Path)
    requires Queue(plan, env.overlayOk) != [] && TempDir(config, env) == Some(dir) && env.ensureTempDirOk
    ensures ExecuteOutcome(plan, config, env) ==
      Done(ExecutionResult(OverlayIds(plan, env.overlayOk), MagicIds(Queue(plan, env.overlayOk), env.mountPartitionsOk)))
    ensures ExecuteTrace(plan, config, env) ==
      OverlayEvents(plan.overlayOps, config, |plan.overlayOps|) + SelectionEvents(config) + [EnsureTempDir(dir)] +
      [MountPartitions(dir, Queue(plan, env.overlayOk), config.mountsource, config.partitions, config.disableUmount)] +
      [CleanupTempDir(dir)]
  {
    var queue := Queue(plan, env.overlayOk);
    var mount := MountPartitions(dir, queue, config.mountsource, config.partitions, config.disableUmount);
    assert ReplicationEvents(queue, config, env) == SelectionEvents(config) + ([EnsureTempDir(dir)] + [mount, CleanupTempDir(dir)]);
    var overlay := OverlayEvents(plan.overlayOps, config, |plan.overlayOps|);
    var head := SelectionEvents(config);
    assert overlay + (head + ([EnsureTempDir(dir)] + [mount, CleanupTempDir(dir)])) ==
      overlay + head + [EnsureTempDir(dir)] + [mount] + [CleanupTempDir(dir)];
  }

  /** The loop of `execute` that takes the module IDs from the queued roots' names. */
  method ModuleNames(queue: seq<Path>) returns (ids: seq<ModuleId>)
    ensures ids == FilterMap(queue, FileName)
  {
    ids := [];
    for j := 0 to |queue|
      invariant ids == FilterMap(queue[..j], FileName)
    {
      FilterMapStep(queue, j, FileName);
      var name := FileName(queue[j]);
      if name.Some? {
        ids := ids + [name.value];
      }
    }
    assert queue[..|queue|] == queue;
  }

  /** `execute`. */
  method Execute(plan: MountPlan, config: Config, env: Env) returns (outcome: Outcome, trace: seq<Event>)
    ensures outcome == ExecuteOutcome(plan, config, env)
    ensures trace == ExecuteTrace(plan, config, env)
  {
    var magicQueue, fallbackIds;
    magicQueue, fallbackIds, trace := MountOverlays(plan, config, env);

    // Adjust the ID list to the fallbacks.
    var finalOverlayIds := plan.overlayModuleIds;
    if fallbackIds != [] {
      finalOverlayIds := Retain(finalOverlayIds, fallbackIds);
    }

    // One replication batch over the deduplicated queue.
    magicQueue := SortPaths(magicQueue);
    var finalMagicIds: seq<ModuleId> := [];
    if magicQueue != [] {
      var tempdir: Path;
      if config.tempdir.Some? {
        tempdir := config.tempdir.value;
      } else {
        trace := trace + [SelectTempDir];
        if env.selectedTempDir.None? {
          ExecuteSelectFails(plan, config, env);
          return Failed(TempDirSelectFailed), trace;
        }
        tempdir := env.selectedTempDir.value;
      }
      finalMagicIds := ModuleNames(magicQueue);
      trace := trace + [EnsureTempDir(tempdir)];
      if !env.ensureTempDirOk {
        ExecuteSetupFails(plan, config, env, tempdir);
        return Failed(TempDirSetupFailed), trace;
      }
      trace := trace + [MountPartitions(tempdir, magicQueue, config.mountsource, config.partitions, config.disableUmount)];
      if !env.mountPartitionsOk {
        // Fail closed: nothing of a failed batch counts as mounted.
        finalMagicIds := [];
      }
      trace := trace + [CleanupTempDir(tempdir)];
      ExecuteBatch(plan, config, env, tempdir);
    } else {
      ExecuteWithoutQueue(plan, config, env);
    }

    // Final cleanup of the ID lists.
    finalOverlayIds := SortIds(finalOverlayIds);
    finalMagicIds := SortIds(finalMagicIds);
    outcome := Done(ExecutionResult(finalOverlayIds, finalMagicIds));
  }

  // ---------------------------------------------------------------------
  // What `execute` promises

  /**
   * The replication queue is sorted and free of duplicates, and holds exactly
   * the plan's magic modules and the root of every layer of every failed
   * overlay operation.
   */
  lemma QueueIsCanonical(plan: MountPlan, ok: nat -> bool)
    ensures Increasing(Queue(plan, ok), PathLess)
    ensures forall i, j :: 0 <= i < j < |Queue(plan, ok)| ==> Queue(plan, ok)[i] != Queue(plan, ok)[j]
    ensures forall root :: root in Queue(plan, ok) <==>
      root in plan.magicModulePaths || FromFailedLayer(plan.overlayOps, ok, |plan.overlayOps|, ExtractModuleRoot, root)
  {
    PathLessIsStrictTotal();
    var pushed := plan.magicModulePaths + FallbackRoots(plan.overlayOps, ok);
    assert Queue(plan, ok) == Canonical(pushed, PathLess);
    IncreasingIsDistinct(Queue(plan, ok), PathLess);
    forall root
      ensures root in Queue(plan, ok) <==>
        root in plan.magicModulePaths || FromFailedLayer(plan.overlayOps, ok, |plan.overlayOps|, ExtractModuleRoot, root)
    {
      FallbackMembers(plan.overlayOps, ok, |plan.overlayOps|, ExtractModuleRoot, root);
    }
  }

  /**
   * The overlay IDs reported are sorted and free of duplicates, and are
   * exactly the plan's overlay IDs less every ID of a layer of a failed
   * operation, whether or not that module also took part in an operation
   * that succeeded.
   */
  lemma OverlayIdsExact(plan: MountPlan, ok: nat -> bool)
    ensures Increasing(OverlayIds(plan, ok), StringLess)
    ensures forall i, j :: 0 <= i < j < |OverlayIds(plan, ok)| ==> OverlayIds(plan, ok)[i] != OverlayIds(plan, ok)[j]
    ensures forall id :: id in OverlayIds(plan, ok) <==>
      id in plan.overlayModuleIds && !FromFailedLayer(plan.overlayOps, ok, |plan.overlayOps|, ExtractId, id)
  {
    StringLessIsStrictTotal();
    var fallen := FallbackIds(plan.overlayOps, ok);
    var kept := if fallen == [] then plan.overlayModuleIds else Retain(plan.overlayModuleIds, fallen);
    assert OverlayIds(plan, ok) == Canonical(kept, StringLess);
    IncreasingIsDistinct(OverlayIds(plan, ok), StringLess);
    forall id
      ensures id in OverlayIds(plan, ok) <==>
        id in plan.overlayModuleIds && !FromFailedLayer(plan.overlayOps, ok, |plan.overlayOps|, ExtractId, id)
    {
      FallbackMembers(plan.overlayOps, ok, |plan.overlayOps|, ExtractId, id);
    }
  }

  /**
   * After a batch that ran, the magic IDs are exactly the names of the queued
   * roots when the replication adapter succeeded, and none when it failed;
   * they are sorted and free of duplicates.
   */
  lemma MagicIdsFollowBatch(queue: seq<Path>, batchOk: bool)
    ensures Increasing(MagicIds(queue, batchOk), StringLess)
    ensures forall name :: name in MagicIds(queue, batchOk) <==> batchOk && Produces(queue, FileName, name)
    ensures !batchOk ==> MagicIds(queue, batchOk) == []
  {
    StringLessIsStrictTotal();
    forall name ensures name in MagicIds(queue, batchOk) <==> batchOk && Produces(queue, FileName, name) {
      FilterMapMembers(queue, FileName, name);
    }
  }

  /** Both ID lists `execute` returns are sorted and free of duplicates. */
  lemma ResultIsCanonical(plan: MountPlan, config: Config, env: Env)
    requires ExecuteOutcome(plan, config, env).Done?
    ensures var r := ExecuteOutcome(plan, config, env).result;
      && Increasing(r.overlayModuleIds, StringLess) && Increasing(r.magicModuleIds, StringLess)
      && (forall i, j :: 0 <= i < j < |r.overlayModuleIds| ==> r.overlayModuleIds[i] != r.overlayModuleIds[j])
      && (forall i, j :: 0 <= i < j < |r.magicModuleIds| ==> r.magicModuleIds[i] != r.magicModuleIds[j])
  {
    var r := ExecuteOutcome(plan, config, env).result;
    StringLessIsStrictTotal();
    OverlayIdsExact(plan, env.overlayOk);
    MagicIdsFollowBatch(Queue(plan, env.overlayOk), env.mountPartitionsOk);
    IncreasingIsDistinct(r.magicModuleIds, StringLess);
  }

  /**
   * A module with a layer in a failed overlay operation is never reported as
   * overlay-mounted, and is reported as magic-mounted whenever the call
   * succeeds with a successful replication batch.
   */
  lemma FailedOperationFallsBack(plan: MountPlan, config: Config, env: Env, i: nat, j: nat, id: ModuleId)
    requires i < |plan.overlayOps| && !env.overlayOk(i)
    requires j < |plan.overlayOps[i].lowerdirs| && ExtractId(plan.overlayOps[i].lowerdirs[j]) == Some(id)
    ensures id !in OverlayIds(plan, env.overlayOk)
    ensures ExecuteOutcome(plan, config, env).Done? && env.mountPartitionsOk ==>
      id in ExecuteOutcome(plan, config, env).result.magicModuleIds &&
      id !in ExecuteOutcome(plan, config, env).result.overlayModuleIds
  {
    var ops := plan.overlayOps;
    var ok := env.overlayOk;
    var layer := ops[i].lowerdirs[j];
    StringLessIsStrictTotal();
    PathLessIsStrictTotal();
    // Never overlay-mounted: the ID is among the fallen-back ones.
    FallbackHas(ops, ok, |ops|, ExtractId, i, j, id);
    var fallen := FallbackIds(ops, ok);
    assert id in fallen;
    assert OverlayIds(plan, ok) == Canonical(Retain(plan.overlayModuleIds, fallen), StringLess);
    // Its module root is queued, and the root's name is the ID.
    IdIsRootName(layer);
    var root := ExtractModuleRoot(layer).value;
    FallbackHas(ops, ok, |ops|, ExtractModuleRoot, i, j, root);
    var queue := Queue(plan, ok);
    assert queue == Canonical(plan.magicModulePaths + FallbackRoots(ops, ok), PathLess);
    assert root in queue;
    var k :| 0 <= k < |queue| && queue[k] == root;
    FilterMapHas(queue, FileName, k);
    if ExecuteOutcome(plan, config, env).Done? && env.mountPartitionsOk {
      assert ExecuteOutcome(plan, config, env).result.magicModuleIds == Canonical(FilterMap(queue, FileName), StringLess);
    }
  }

  /**
   * The overlay mount is called once per operation, in plan order, with that
   * operation's layers in their order and no upper or work directory; no
   * other call comes before them and none of them comes later.
   */
  lemma OverlayCallsInPlanOrder(plan: MountPlan, config: Config, env: Env)
    ensures var t := ExecuteTrace(plan, config, env);
      && |plan.overlayOps| <= |t|
      && (forall i :: 0 <= i < |plan.overlayOps| ==>
            t[i] == MountOverlay(plan.overlayOps[i].target, LayerStrings(plan.overlayOps[i].lowerdirs), None, None, config.disableUmount))
      && (forall k :: |plan.overlayOps| <= k < |t| ==> !t[k].MountOverlay?)
  {
    var overlay := OverlayEvents(plan.overlayOps, config, |plan.overlayOps|);
    var rest := ReplicationEvents(Queue(plan, env.overlayOk), config, env);
    forall k | 0 <= k < |rest| ensures !rest[k].MountOverlay? {
    }
    assert ExecuteTrace(plan, config, env) == overlay + rest;
  }

  /**
   * Nothing to replicate: no temp dir is selected, set up or cleaned, the
   * replication adapter is not called, and the magic ID list is empty.
   */
  lemma EmptyQueueSkipsReplication(plan: MountPlan, config: Config, env: Env)
    requires Queue(plan, env.overlayOk) == []
    ensures ExecuteOutcome(plan, config, env).Done?
    ensures ExecuteOutcome(plan, config, env).result.magicModuleIds == []
    ensures forall k :: 0 <= k < |ExecuteTrace(plan, config, env)| ==> ExecuteTrace(plan, config, env)[k].MountOverlay?
  {
    ExecuteWithoutQueue(plan, config, env);
  }

  /** Every replication call is followed at once by the cleanup of its directory, and that cleanup ends the calls. */
  ghost predicate CleanedUpAfterBatch(t: seq<Event>) {
    && (forall k :: 0 <= k < |t| && t[k].MountPartitions? ==> k + 2 == |t| && t[k + 1] == CleanupTempDir(t[k].tempDir))
    && (forall k :: 0 <= k < |t| && t[k].CleanupTempDir? ==> k + 1 == |t| && 0 < k && t[k - 1].MountPartitions?)
  }

  /** No replication and no cleanup call. */
  ghost predicate NoBatch(t: seq<Event>) {
    forall k :: 0 <= k < |t| ==> !t[k].MountPartitions? && !t[k].CleanupTempDir?
  }

  lemma BatchThenCleanup(calls: seq<Event>, dir: Path, batch: Event)
    requires NoBatch(calls) && batch.MountPartitions? && batch.tempDir == dir
    ensures CleanedUpAfterBatch(calls + [batch] + [CleanupTempDir(dir)])
  {
    var t := calls + [batch] + [CleanupTempDir(dir)];
    assert forall k :: 0 <= k < |calls| ==> t[k] == calls[k];
  }

  /**
   * Whenever the replication adapter is called, the staging directory is
   * cleaned up exactly once, right afterwards, as the last call, whatever the
   * adapter answers.
   */
  lemma CleanupFollowsBatch(plan: MountPlan, config: Config, env: Env)
    ensures CleanedUpAfterBatch(ExecuteTrace(plan, config, env))
    ensures ExecuteTrace(plan, config, env) == ExecuteTrace(plan, config, env.(mountPartitionsOk := !env.mountPartitionsOk))
  {
    var overlay := OverlayEvents(plan.overlayOps, config, |plan.overlayOps|);
    var queue := Queue(plan, env.overlayOk);
    var head := SelectionEvents(config);
    assert NoBatch(overlay);
    assert NoBatch(overlay + head);
    if queue == [] {
      ExecuteWithoutQueue(plan, config, env);
    } else if TempDir(config, env).None? {
      ExecuteSelectFails(plan, config, env);
    } else {
      var dir := TempDir(config, env).value;
      assert NoBatch(overlay + head + [EnsureTempDir(dir)]);
      if env.ensureTempDirOk {
        ExecuteBatch(plan, config, env, dir);
        BatchThenCleanup(overlay + head + [EnsureTempDir(dir)], dir,
          MountPartitions(dir, queue, config.mountsource, config.partitions, config.disableUmount));
      } else {
        ExecuteSetupFails(plan, config, env, dir);
      }
    }
  }

  /** A call that does not select a staging directory and, if it uses one, uses `dir`. */
  predicate StaysIn(e: Event, dir: Path) {
    && !e.SelectTempDir?
    && (e.EnsureTempDir? || e.CleanupTempDir? ==> e.dir == dir)
    && (e.MountPartitions? ==> e.tempDir == dir)
  }

  /**
   * A configured staging directory is used as is: `select_temp_dir` is not
   * called, every temp-dir and replication call gets that directory, and
   * what `select_temp_dir` would answer makes no difference.
   */
  lemma ConfiguredTempDir(plan: MountPlan, config: Config, env: Env)
    requires config.tempdir.Some?
    ensures forall k :: 0 <= k < |ExecuteTrace(plan, config, env)| ==>
      StaysIn(ExecuteTrace(plan, config, env)[k], config.tempdir.value)
    ensures ExecuteOutcome(plan, config, env) == ExecuteOutcome(plan, config, env.(selectedTempDir := None))
  {
    var dir := config.tempdir.value;
    var overlay := OverlayEvents(plan.overlayOps, config, |plan.overlayOps|);
    var rest := ReplicationEvents(Queue(plan, env.overlayOk), config, env);
    assert forall k :: 0 <= k < |overlay| ==> StaysIn(overlay[k], dir);
    ReplicationStaysIn(Queue(plan, env.overlayOk), config, env);
    StaysAfter(overlay, rest, dir);
  }

  lemma ReplicationStaysIn(queue: seq<Path>, config: Config, env: Env)
    requires config.tempdir.Some?
    ensures forall k :: 0 <= k < |ReplicationEvents(queue, config, env)| ==>
      StaysIn(ReplicationEvents(queue, config, env)[k], config.tempdir.value)
  {
    var dir := config.tempdir.value;
    assert SelectionEvents(config) == [];
    if queue != [] && env.ensureTempDirOk {
      assert ReplicationEvents(queue, config, env) ==
        [EnsureTempDir(dir), MountPartitions(dir, queue, config.mountsource, config.partitions, config.disableUmount), CleanupTempDir(dir)];
    } else if queue != [] {
      assert ReplicationEvents(queue, config, env) == [EnsureTempDir(dir)];
    }
  }

  lemma StaysAfter(calls: seq<Event>, tail: seq<Event>, dir: Path)
    requires forall k :: 0 <= k < |calls| ==> StaysIn(calls[k], dir)
    requires forall k :: 0 <= k < |tail| ==> StaysIn(tail[k], dir)
    ensures forall k :: 0 <= k < |calls + tail| ==> StaysIn((calls + tail)[k], dir)
  {
  }

  /**
   * Failed overlay mounts and a failed replication batch are absorbed: the
   * call fails only when there is something to replicate and the staging
   * directory cannot be selected or set up.
   */
  lemma FailsOnlyOnTempStorage(plan: MountPlan, config: Config, env: Env)
    ensures ExecuteOutcome(plan, config, env).Failed? <==>
      Queue(plan, env.overlayOk) != [] && (TempDir(config, env).None? || !env.ensureTempDirOk)
    ensures ExecuteOutcome(plan, config, env) == Failed(TempDirSetupFailed) ==>
      var t := ExecuteTrace(plan, config, env);
      0 < |t| && t[|t| - 1] == EnsureTempDir(TempDir(config, env).value) && NoBatch(t)
  {
    if ExecuteOutcome(plan, config, env) == Failed(TempDirSetupFailed) {
      var dir := TempDir(config, env).value;
      ExecuteSetupFails(plan, config, env, dir);
      var overlay := OverlayEvents(plan.overlayOps, config, |plan.overlayOps|);
      assert NoBatch(overlay + SelectionEvents(config));
      assert NoBatch(overlay + SelectionEvents(config) + [EnsureTempDir(dir)]);
    }
  }


  lemma {:induction false} NoFallbackWhenAllSucceed<B>(ops: seq<OverlayOp>, ok: nat -> bool, n: nat, f: Path -> Option<B>)
    requires n <= |ops|
    requires forall i :: 0 <= i < n ==> ok(i)
    ensures Fallback(ops, ok, n, f) == []
  {
    if n > 0 {
      NoFallbackWhenAllSucceed(ops, ok, n - 1, f);
    }
  }

  /**
   * When every overlay mount succeeds, the overlay IDs are the plan's own
   * (canonicalized) and the queue is just the plan's magic modules.
   */
  lemma AllOverlaysSucceed(plan: MountPlan, ok: nat -> bool)
    requires forall i :: 0 <= i < |plan.overlayOps| ==> ok(i)
    ensures Queue(plan, ok) == SortPaths(plan.magicModulePaths)
    ensures OverlayIds(plan, ok) == SortIds(plan.overlayModuleIds)
  {
    NoFallbackWhenAllSucceed(plan.overlayOps, ok, |plan.overlayOps|, ExtractModuleRoot);
    NoFallbackWhenAllSucceed(plan.overlayOps, ok, |plan.overlayOps|, ExtractId);
    assert plan.magicModulePaths + [] == plan.magicModulePaths;
  }
}

# HymoFS client and mount-plan executor, in Dafny

This project models two parts of a module-mounting daemon:

- **The HymoFS kernel-channel client** (`src/mount/hymofs.rs`). It reads the
  control file `/proc/hymo_ctl` to learn which protocol version the kernel
  speaks. It classifies that version against the expected version 3
  (`Available`, `NotPresent`, `KernelTooOld`, `ModuleTooOld`). It writes
  one-line commands to the same file: `clear`, `add`, `delete`, `hide` and
  `inject`. It also projects a module directory into rules
  (`inject_directory`) and retracts them (`delete_directory_rules`).
- **The mount-plan executor** (`src/core/executor.rs`). It tries every
  overlay operation once. The module roots and IDs of the layers of a failed
  operation fall back to the magic-mount queue. The fallen-back IDs are
  dropped from the overlay list. The queue is sorted and deduplicated, and
  one replication batch runs between temp-dir setup and cleanup. Both ID
  lists come back sorted and deduplicated.

How the model is built:

- Paths are sequences of components (`Paths`).
- `sort` followed by `dedup` is the function `Ordering.Canonical`.
- Rust's `i32` parsing is `Decimal.ParseI32`.
- The filesystem and the collaborators are inputs:
  - the control file is a `ControlFile` value;
  - the directory walk is a sequence of `WalkItem`s;
  - the outcome of each write to the control file is an oracle `accept(k)`;
  - the overlay mount, temp-dir selection and setup, and the replication
    call are answers held in an `Env`.
- Every write to the control file and every call `execute` makes to a
  collaborator is returned in order: the `sent` lines and the `trace`
  events.
- The two loops (`inject_directory`/`delete_directory_rules`) and `execute`
  are methods. Each is proved equal to a specification function
  (`InjectReport`, `DeleteReport`, `ExecuteOutcome`/`ExecuteTrace`). The
  lemmas state what those functions guarantee.

## Model

| member | source | states |
|---|---|---|
| HymoFs.FirstLine | src/mount/hymofs.rs:26 | `lines().next()` is None exactly for empty contents; otherwise it is a newline-free prefix of the contents |
| HymoFs.FirstLineOfBreak | src/mount/hymofs.rs:26 | the first line before a `\n` or `\r\n` break is exactly the text before the break, whatever follows (a `\r` directly before a bare `\n` is dropped with it) |
| HymoFs.FirstLineNoBreak | src/mount/hymofs.rs:26 | text without a newline is its own first line, a trailing `\r` included |
| HymoFs.ProtocolVersion | src/mount/hymofs.rs:24-35 | no version is read from unreadable or empty contents; when the first line is the exact prefix followed by `t`, the result is exactly the i32 parse of `t` (a value when it parses, none otherwise); any version read comes from such a line and is in the 32-bit signed range |
| HymoFs.ParsedBannerStatus | src/mount/hymofs.rs:24-60 | a first line `HymoFS Protocol: t` whose remainder parses to `v`, in any spelling (`+4`, `007`, `-03`), gets the status the comparison of `v` with 3 prescribes |
| HymoFs.CheckStatus | src/mount/hymofs.rs:37-61 | the four statuses as if-and-only-ifs: NotPresent iff the file is missing or no version can be read; Available iff the version equals 3; KernelTooOld iff it is below 3; ModuleTooOld iff it is above 3 |
| HymoFs.IsAvailable | src/mount/hymofs.rs:63-65 | true exactly when the file is present and announces version 3 |
| HymoFs.BannerStatus | src/mount/hymofs.rs:24-61 | for every i32 `v`, a file whose first line is `HymoFS Protocol: v` gets the status the comparison with 3 prescribes, whatever lines follow |
| HymoFs.NoPrefixNotPresent | src/mount/hymofs.rs:24-45 | a first line without the exact banner prefix yields NotPresent, alone or followed by other lines |
| HymoFs.UnparsableBannerNotPresent | src/mount/hymofs.rs:24-45 | a first line `HymoFS Protocol: t` whose remainder `t` does not parse as an i32 yields NotPresent |
| HymoFs.UnreadableNotPresent | src/mount/hymofs.rs:24-45 | a missing control file, one that cannot be read, and an empty one all yield NotPresent |
| HymoFs.OverflowBannerNotPresent | src/mount/hymofs.rs:27-44 | the banner `HymoFS Protocol: 4294967299` is refused (NotPresent), not read as a wrapped-around 3 |
| HymoFs.TrailingTextNotPresent | src/mount/hymofs.rs:27-44 | the banner `HymoFS Protocol: 3x` yields NotPresent |
| HymoFs.SignedBannerAvailable | src/mount/hymofs.rs:27-60 | the banner `HymoFS Protocol: +3` ending in `\r\n` yields Available |
| HymoFs.ClearDecodes | src/mount/hymofs.rs:75-77 | the `clear` line decodes to the clear command and is one line |
| HymoFs.AddRuleDecodes | src/mount/hymofs.rs:79-83 | an `add` line decodes back to its target, source and type tag, with an absent tag sent as 0 |
| HymoFs.DeleteRuleDecodes | src/mount/hymofs.rs:86-88 | a `delete` line decodes back to its path and is one line |
| HymoFs.HidePathDecodes | src/mount/hymofs.rs:90-92 | a `hide` line decodes back to its path and is one line |
| HymoFs.InjectDirDecodes | src/mount/hymofs.rs:94-96 | an `inject` line decodes back to its directory and is one line |
| HymoFs.SendCmd | src/mount/hymofs.rs:67-73 | a write succeeds exactly when the channel accepts it, and only an accepted line is recorded as sent |
| HymoFs.RunSendsPlannedPrefix | src/mount/hymofs.rs:103-126 | lines go out in plan order with none skipped; every write sent was accepted; a failed write is the last one attempted |
| HymoFs.RunOutcome | src/mount/hymofs.rs:103-126 | a call succeeds iff no item fails and every planned write is accepted; on success exactly the planned lines were sent; a failing item is reported after the lines planned before it |
| HymoFs.InjectDirectory | src/mount/hymofs.rs:98-127 | equals `InjectReport`; a missing module directory or a non-directory sends nothing and succeeds; a rejected first write fails with nothing sent; otherwise the first line marks the target base |
| HymoFs.DeleteDirectoryRules | src/mount/hymofs.rs:129-142 | equals `DeleteReport`; a missing module directory or a non-directory sends nothing and succeeds |
| HymoFs.CleanInjectPlan | src/mount/hymofs.rs:105-125 | on a walk without errors no item fails, and exactly one line is planned per file, symlink, whiteout (char device with device number 0) and directory |
| HymoFs.CleanDeletePlan | src/mount/hymofs.rs:134-140 | on a walk without errors, one `delete` line is planned per entry, in walk order, for its path re-rooted under the target base |
| HymoFs.ProjectionRules | src/mount/hymofs.rs:98-127 | with every write accepted: success; the base marker first; one line per emitting entry; files get `add … 8`, symlinks `add … 10`, whiteouts `hide`, directories `inject` |
| HymoFs.UnprojectionRules | src/mount/hymofs.rs:129-142 | with every write accepted: success, and the i-th line deletes the i-th entry's re-rooted path, which lies strictly below the target base |
| HymoFs.EntryRuleTarget | src/mount/hymofs.rs:109-124 | every line an entry emits decodes to a command aimed at the entry's re-rooted path |
| HymoFs.UnprojectionCoversProjection | src/mount/hymofs.rs:98-142 | every rule the projection installs below the base is matched by a `delete` of its target in the retraction of the same directory |
| HymoFs.ProjectionExample | src/mount/hymofs.rs:98-127 | a directory holding a file, a symlink and a whiteout decodes to: inject base, add file 8, add link 10, hide whiteout |
| HymoFs.UnprojectionExample | src/mount/hymofs.rs:129-142 | the same directory is retracted with three `delete` commands, one per entry, in walk order |
| Decimal.ParseI32RoundTrip | src/mount/hymofs.rs:28 | every 32-bit value's decimal text parses back to that value |
| Decimal.ParseI32 | src/mount/hymofs.rs:28 | a text is accepted iff it is an optional sign followed by one or more digits and the value it denotes fits in 32 bits; the result is that value |
| Decimal.ParseI32Accepts | src/mount/hymofs.rs:28 | `+3` and `007` are accepted with their values, and `-2147483648` yields the minimum |
| Decimal.ParseI32RefusesOverflow | src/mount/hymofs.rs:28 | one past either end of the 32-bit range is refused, not wrapped |
| Decimal.ParseI32RefusesMalformed | src/mount/hymofs.rs:28 | trailing text, a leading blank, a lone sign and the empty text are refused |
| Paths.DisplayRoundTrip | src/mount/hymofs.rs:81 | a path's display text reads back as the same path |
| Paths.StripPrefix | src/mount/hymofs.rs:109 | stripping succeeds iff the base is a prefix, and joining the base back restores the path |
| Executor.ExtractModuleRoot | src/core/executor.rs:22-24 | a layer has a root iff it is not the root path, and the root is the layer without its last component |
| Executor.ExtractId | src/core/executor.rs:16-20 | a layer has an ID iff it has at least two components, and the ID is the next-to-last component |
| Executor.IdIsRootName | src/core/executor.rs:16-24 | a layer with an ID also has a root, and the ID is the root's file name |
| Executor.LayerOfModule | src/core/executor.rs:16-24 | for a layer `m/x`, the root is `m` and the ID is the name of `m` |
| Executor.Retain | src/core/executor.rs:60 | keeps exactly the IDs that are not in the fallen-back list, never adding any |
| Executor.FallbackMembers | src/core/executor.rs:34-56 | a value is collected iff some failed operation has a layer that yields it |
| Executor.QueueFallback | src/core/executor.rs:47-54 | a failed operation queues the root of each layer that has one, and records the IDs of those layers, in layer order |
| Executor.MountOverlays | src/core/executor.rs:34-56 | the overlay phase queues the plan's magic paths followed by the fallback roots, records the fallback IDs, and calls the overlay mount once per operation in order |
| Executor.ModuleNames | src/core/executor.rs:80-84 | the magic IDs are the file names of the queued roots, in queue order |
| Executor.Execute | src/core/executor.rs:26-115 | outcome and trace equal `ExecuteOutcome` and `ExecuteTrace` |
| Executor.ExecuteWithoutQueue | src/core/executor.rs:72-114 | with an empty queue: success, no magic IDs, and only overlay calls |
| Executor.ExecuteSelectFails | src/core/executor.rs:73-77 | without a configured temp dir, a failed selection ends the call with an error right after the selection |
| Executor.ExecuteSetupFails | src/core/executor.rs:88 | a failed temp-dir setup ends the call with an error right after the setup call |
| Executor.ExecuteBatch | src/core/executor.rs:88-103 | after setup succeeds: one replication call over the whole queue, then cleanup of the same directory; magic IDs depend on the batch's result |
| Executor.QueueIsCanonical | src/core/executor.rs:27-68 | the queue is strictly sorted and duplicate-free, and a root is queued iff it was a planned magic path or the root of a layer of a failed operation |
| Executor.OverlayIdsExact | src/core/executor.rs:30-107 | overlay IDs are strictly sorted and distinct, and an ID is reported iff it was planned and no layer of a failed operation has it |
| Executor.MagicIdsFollowBatch | src/core/executor.rs:80-109 | magic IDs are sorted; a name is reported iff the batch succeeded and some queued root has that name; a failed batch reports none |
| Executor.ResultIsCanonical | src/core/executor.rs:105-114 | both returned ID lists are strictly sorted and free of duplicates |
| Executor.FailedOperationFallsBack | src/core/executor.rs:43-84 | a module with a layer in a failed operation is never reported as overlay-mounted, and is reported as magic-mounted when the batch succeeds |
| Executor.OverlayCallsInPlanOrder | src/core/executor.rs:34-43 | the overlay mount is called once per operation, in plan order, with the displayed layers, no upper or work dir and the configured umount flag; no overlay call comes later |
| Executor.EmptyQueueSkipsReplication | src/core/executor.rs:72 | with an empty queue there is no temp-dir or replication call and no magic ID |
| Executor.CleanupFollowsBatch | src/core/executor.rs:90-102 | a replication call is always followed by the cleanup of its temp dir as the last call, whether or not replication succeeded |
| Executor.ConfiguredTempDir | src/core/executor.rs:73-77 | a configured temp dir is used as is: no selection call, every temp-dir and replication call uses it, and the selection's answer is irrelevant |
| Executor.FailsOnlyOnTempStorage | src/core/executor.rs:72-103 | the call fails iff the queue is non-empty and temp-dir selection or setup fails; after a setup failure the setup call is the last one, with no replication and no cleanup |
| Executor.AllOverlaysSucceed | src/core/executor.rs:34-62 | when every overlay mount succeeds, the queue is the sorted planned magic paths and the overlay IDs are the sorted planned IDs |
| Ordering.Canonical | src/core/executor.rs:67-109 | sort followed by dedup gives a strictly increasing sequence with exactly the input's elements |
| Ordering.CanonicalIdempotent | src/core/executor.rs:67-68 | sorting and deduplicating twice changes nothing |
| Ordering.CanonicalOfSameElements | src/core/executor.rs:106-109 | the sorted, deduplicated result depends only on which elements are present |

## Left out

- Logging (`debug!`, `warn!`, `log::info!`, `log::error!`) and the text of `anyhow` error contexts are not modelled. Errors are the variants `SendFailed`/`Failed(fault)` and `TempDirSelectFailed`/`TempDirSetupFailed`.
- File I/O is not modelled as such. The control file's state, the result of each write, the directory walk and the collaborators' answers are inputs. The expected protocol version is a constant; the control file `/proc/hymo_ctl` is a `ControlFile` input.
- HymoFs.InjectDirectory: WalkDir's traversal order, its symlink handling and the causes of walk errors are not modelled. The walk is a given sequence taken in that order; a walk error arrives as a `WalkError` item and a failed metadata read as `CharDevice(None)`, and both end the call with an error.
- HymoFs.DeleteDirectoryRules: the same walk abstraction applies.
- Paths: paths are absolute component sequences. `.`/`..` components, relative paths and non-UTF-8 names (the lossy display) are not modelled.
- Executor.QueueIsCanonical: `PathBuf` ordering is modelled as lexicographic order on components. `String` ordering is modelled as lexicographic order on characters.
- HymoFs.AddRuleDecodes: paths containing blanks or newlines are not round-tripped. The source does not quote them, so the kernel cannot tell them apart. The round trips hold only for such paths (`Sendable`).
- HymoFs.ParseLine: this is the model's reading of the kernel side of the protocol (blank-separated words), used as the decoder for the round trips. The kernel module is not part of this model.
- HymoFs.AddRule: the type tag is a `u32` value (`U32`). A larger tag is not representable.
- Ordering.Canonical: `sort`/`dedup` are library calls that work in place on a `Vec`. They are modelled as a function on sequences, not as an in-place algorithm.
- Executor.Execute: the overlay loop (`MountOverlays`, with its inner loop `QueueFallback`) and the collection of magic IDs (`ModuleNames`) are separate methods that `Execute` calls. The source writes them inline.
- Executor.FailsOnlyOnTempStorage: when `ensure_temp_dir` fails, `execute` returns through `?` (src/core/executor.rs:88) before `cleanup_temp_dir` (src/core/executor.rs:102), so no cleanup runs for that exit; the model does the same, and this lemma states it.
- `overlay::mount_overlay`, `magic::mount_partitions`, `utils::select_temp_dir`, `utils::ensure_temp_dir` and `utils::cleanup_temp_dir` are not part of this model. Their calls are recorded with their arguments, and their results come from the `Env`.

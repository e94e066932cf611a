# client-voodoo core in Dafny

This project models three pieces of the client-voodoo game-client library and
proves properties of them.

- **`VoodooQueue`** (`queue_fetch.dfy`, `queue.dfy`) is the admission-control
  scheduler. It pauses and resumes the patches it manages through their
  handles, aiming at no more than `maxDownloads` patches downloading and no
  more than `maxExtractions` extracting. This is the effect of a tick once its
  commands are answered (`TickSettles`, `SetMaxSettles`); in between, for
  instance after a ceiling is lowered and before the deferred tick, more may
  run.
- **`DownloadHandle`** (`downloader.dfy`) is the resumable HTTP download. It is
  a five-state machine (`STARTED`, `STARTING`, `STOPPED`, `STOPPING`,
  `FINISHED`). It prepares the destination file, asks for the remaining byte
  range and classifies the server's answer.
- **`LaunchHandle.start`** up to the spawn (`launcher.dfy`). It chooses the
  launch option for an os/arch pair, turns the executable path into a
  platform path, validates the file and decides whether to `chmod` it.

`js_text.dfy` models the JavaScript built-ins these rely on:
`Number.prototype.toString`, `String.prototype.split` with one separator
character, and `parseInt` without a radix. `outcomes.dfy` holds `Option` and
`Result`.

Every operation is a pure function of immutable data.

- **The queue** is a value of type `Queue`. A public method or event handler
  returns the next queue together with the commands it sent to patch handles
  (`Pause`, `Resume`, and `StopTask`/`CancelTask` from `reset`).
  - A patch answers the queue's own pause or resume by firing its
    paused/resumed event with `voodooQueue == true`. `Apply` delivers these
    answers.
  - `manage` binds a fresh state object and handler closures. Each one is
    modelled as a `Binding(task, gen)`.
    - `bound` holds every binding ever created.
    - `retired` holds the bindings whose state was unmanaged. Their handlers
      are deregistered and their promise callbacks see `managed == false`.
  - The registry is a sequence ordered like the JavaScript `Map`. `set` on an
    existing key keeps its position.
  - `patch.isDownloading()` is an oracle `Phase`.
  - The `process.nextTick` in `setMaxDownloads`/`setMaxExtractions` is a
    second, explicit step, `RunDeferred`.
- **The download handle** gets file-system results, the HTTP status and
  `content-range` header, chunk lengths and stream events as inputs.
  Completion futures are numbered, so "the next `start` creates a new future"
  can be stated.
- **The launcher** gets the answers of `fs.exists` and `fs.stat`, the
  platform, `path.sep` and the process's uid/gid as inputs.

## Model

| member | source | states |
|---|---|---|
| JsText.NatToString | build/downloader/index.js:278 | `toString` of a natural number is a non-empty run of decimal digits with no leading zero |
| JsText.NatToStringValue | build/downloader/index.js:278 | reading the decimal rendering of a natural number back digit by digit gives the number (toString and its inverse) |
| JsText.TrimStart | build/downloader/index.js:312 | `parseInt` skips exactly the leading white space: what it drops is white space and what remains starts with none |
| JsText.DigitRun | build/downloader/index.js:312 | `parseInt` reads the longest prefix of digits of the radix, stopping at the first character that is not one |
| JsText.ParseIntOfDecimal | build/downloader/index.js:312 | `parseInt` of a decimal rendering followed by a non-alphanumeric character, or by nothing, returns that number |
| JsText.ParseIntOfNonNumeric | build/downloader/index.js:312 | `parseInt` of a text starting with no white space, sign or digit is NaN rather than an exception |
| JsText.ParseIntOfUndefined | build/downloader/index.js:312 | a missing `split('/')[1]` makes `parseInt` read "undefined", which gives NaN |
| JsText.Split | src/launcher/index.ts:54 | `split` gives at least one piece, and no piece holds the separator |
| JsText.JoinSplit | src/launcher/index.ts:54 | joining the pieces of `split` with the separator gives back the original text |
| JsText.SplitJoin | src/launcher/index.ts:54 | splitting the join of separator-free pieces gives back exactly those pieces |
| JsText.SplitAtFirst | src/launcher/index.ts:54 | `split` cuts at the first separator and splits the rest on its own |
| Downloader.NewHandle | build/downloader/index.js:84-95 | a new handle is well formed and `STOPPED`, keeps the overwrite option and has no cached future |
| Downloader.EnsurePromise | build/downloader/index.js:397-408 | the getter returns the cached future when there is one; otherwise it creates exactly one new future, which becomes the cached one and the owner of the resolver/rejector |
| Downloader.Stop | build/downloader/index.js:237-269 | `stop` reports true exactly when the handle was `STARTED`, and then ends `STOPPED` with the request aborted and listeners detached; otherwise the handle is untouched; sizes and futures never change |
| Downloader.OnError | build/downloader/index.js:358-363 | rejects the newest future with the error and drops the cached one; the state becomes `STOPPED` only from `STARTED` and is otherwise kept |
| Downloader.OnFinished | build/downloader/index.js:365-370 | ends `FINISHED` and resolves the newest future, keeping the cached future and the byte count |
| Downloader.Prepare | build/downloader/index.js:137-209 | the resume offset is the file size without overwrite, 0 after a successful delete, 0 for a missing file; a non-file destination, a failed delete, a parent that is not a folder or a failed `mkdirp` is an error, and nothing else is |
| Downloader.RangeHeaderRoundTrip | build/downloader/index.js:278 | the `Range` header is `bytes=`, then a number that `parseInt` reads back as the offset, then a closing `-` |
| Downloader.Start | build/downloader/index.js:98-235 | refused unless `STOPPED`; otherwise `STARTING` with a future ensured, the url kept unless a non-empty one is passed, and `totalSize` 0; a prepared destination sends the request from the offset with overwrite switched off; a failure rejects the future and leaves no request |
| Downloader.ContentRangeTotalAfterSlash | build/downloader/index.js:312 | the total size is `parseInt` of the text between the first and second `/` |
| Downloader.ContentRangeTotalOfWellFormed | build/downloader/index.js:312 | a well-formed `bytes first-last/length` header yields `length` |
| Downloader.ContentRangeNonNumericTotal | build/downloader/index.js:311-315 | a total that is not a number is not rejected: it becomes NaN |
| Downloader.ContentRangeUnknownLength | build/downloader/index.js:311-315 | the unknown-length form `…/*` gives a NaN total |
| Downloader.ContentRangeWithoutSlash | build/downloader/index.js:312 | a header with no `/` gives a NaN total |
| Downloader.OnResponse | build/downloader/index.js:284-326 | 301 is ignored (still `STARTING`, nothing settles); any other status resolves `start`'s promise; then 416 finishes, any other non-206 rejects with the status, a 206 without `content-range` rejects, and otherwise the total is taken from the header and the stream listeners are attached |
| Downloader.OnData | build/downloader/index.js:327-328 | a chunk adds exactly its length to `totalDownloaded` and changes nothing else |
| Downloader.OnDestFinish | build/downloader/index.js:321-323 | the destination finishing ends the session `FINISHED` and resolves the newest future |
| Downloader.OnDestError | build/downloader/index.js:324-326 | a destination error ends the session `STOPPED`, rejects the newest future and drops the cached one |
| Downloader.OnRequestError | build/downloader/index.js:329-331 | a request error rejects the newest future; the handle is stopped only when it was `STARTED` |
| Downloader.Deliver | build/downloader/index.js:98-408 | every call, every read of the `promise` getter and every event the request and streams can deliver keeps the handle well formed (cached future is the newest, listeners only while receiving, never left in `STOPPING`) |
| Downloader.FinishedIsFinal | build/downloader/index.js:108-113 | once `FINISHED`, no sequence of calls or events leaves `FINISHED` |
| Downloader.FreshFutureAfterError | build/downloader/index.js:358-363 | a failure after the response leaves the handle `STOPPED` with no cached future, so the next `start` creates a future different from the rejected one |
| Downloader.PrepFailureStaysStarting | build/downloader/index.js:216-221 | after a preparation failure the handle stays `STARTING`: every later `start` is refused and `stop` does nothing |
| Downloader.OverwriteOnlyOnce | build/downloader/index.js:145-167 | with overwrite, the first session starts at 0; after a stop the next `start` resumes from the file's size |
| Downloader.FreshStart | build/downloader/index.js:116-120 | a new handle with no destination file asks for `bytes=0-` with one future created |
| Downloader.ReceiveAll | build/downloader/index.js:297-328 | a 206 answer, `n` bytes and the stream finishing give a `FINISHED` handle with `n` bytes counted, the first future resolved and later starts refused |
| Downloader.ExampleHeaderTotal | build/downloader/index.js:312 | `bytes 0-999/1000` announces 1000 bytes |
| Downloader.DownloadToCompletion | build/downloader/index.js:271-331 | the complete example: request `bytes=0-`, total 1000, 1000 bytes received, `FINISHED`, future 0 resolved, restart refused |
| QueueFetch.SortKey | src/queue/index.ts:89 | a finite `timeLeft` (0 included) sorts by its value, -Infinity first, and NaN, missing and +Infinity as +Infinity |
| QueueFetch.Select | src/queue/index.ts:80-92 | an entry is kept exactly when `running !== queued` and it is in the requested lane |
| QueueFetch.SortByKey | src/queue/index.ts:94 | the result is a permutation of the input, sorted by key, and keeps every group of equal keys in input order (a stable sort) |
| QueueFetch.Fetch | src/queue/index.ts:76-103 | `fetch` returns exactly the selected entries, sorted by time left, with ties in registry order |
| QueueFetch.FetchPartition | src/queue/index.ts:80-92 | for one lane, `fetch(true)` and `fetch(false)` share no entry and together hold every entry of the lane |
| QueueFetch.RunPendDisjoint | src/queue/index.ts:82 | with one record per patch, no patch is both running and pending |
| QueueFetch.Lookup | src/queue/index.ts:244 | `get` finds a record exactly for registered patches, and the one it finds belongs to the patch |
| QueueFetch.Remove | src/queue/index.ts:258 | `delete` keeps every other record and drops the patch |
| QueueFetch.Put | src/queue/index.ts:205 | `set` adds the patch and the new record, every record of another patch stays, nothing else enters, and a new patch goes last |
| QueueFetch.LookupPut | src/queue/index.ts:205 | after `set`, `get` returns the new record |
| QueueFetch.PutUnique | src/queue/index.ts:205 | `set` keeps one record per patch, and every record is the new one or an old one of another patch |
| QueueFetch.Mark | src/queue/index.ts:148-172 | setting `queued` for a set of patches changes that flag of exactly those patches' records, keeps every record's patch, generation, time left and `managed` flag, and keeps the order |
| QueueFetch.MarkRunning | src/queue/index.ts:303-310 | resuming patches adds the lane's pending ones among them to its running ones |
| QueueFetch.MarkPaused | src/queue/index.ts:311-317 | pausing patches removes exactly them from the running ones |
| QueueFetch.ResumeCount | src/queue/index.ts:303-310 | resuming `k` distinct pending patches of a lane raises its running count by `k` |
| QueueFetch.PauseCount | src/queue/index.ts:311-317 | pausing `k` distinct running patches of a lane lowers its running count by `k` |
| QueueFetch.ResumePrefix | src/queue/index.ts:303-310 | resuming the first `k` patches of a lane's pending list raises its running count by exactly `k` |
| QueueFetch.PausePrefix | src/queue/index.ts:311-317 | pausing the first `k` patches of a lane's running list lowers its running count by exactly `k` |
| QueueFetch.MarkOtherLane | src/queue/index.ts:299-317 | pausing or resuming patches of one lane leaves the other lane's selections as they were |
| QueueFetch.SelectRemove | src/queue/index.ts:258 | removing a registered patch shrinks a selection by one exactly when the patch was in it |
| QueueFetch.PutKeepsSelection | src/queue/index.ts:126 | replacing a record with one of the same `queued` flag keeps every selection's size |
| QueueFetch.PrefixLeast | src/queue/index.ts:307-315 | in a sorted list the first `k` patches have keys no greater than any other patch's |
| VoodooQueue.Initial | src/queue/index.ts:31-47 | the queue starts well formed with the fast profile (3/3), no flags set and no patches |
| VoodooQueue.ApplyResumes | src/queue/index.ts:263-274 | answering the resume commands for a list of patches marks exactly those patches running, and the commands address exactly them |
| VoodooQueue.ApplyPauses | src/queue/index.ts:276-287 | answering the pause commands for a list of patches marks exactly those patches queued, and the commands address exactly them |
| VoodooQueue.Decide | src/queue/index.ts:299-317 | the tick's decision: as many commands as the running count is from its target, pausing the front of the running list when over the ceiling and resuming the front of the pending list otherwise |
| VoodooQueue.Tick | src/queue/index.ts:299-317 | a lane's tick sends as many commands as its running count is from the target, each for a registered patch of that lane |
| VoodooQueue.TickAll | src/queue/index.ts:289-295 | `tick()` addresses registered patches only, and no extraction command follows a download command |
| VoodooQueue.TickUnder | src/queue/index.ts:303-310 | under the ceiling, `tick` resumes exactly the first min(slack, pending) pending patches, all of that lane |
| VoodooQueue.TickOver | src/queue/index.ts:311-317 | over the ceiling, `tick` pauses exactly the first (running − ceiling) running patches, all of that lane |
| VoodooQueue.TickApply | src/queue/index.ts:299-317 | answering a tick sets one `queued` value for the patches it addresses, all of them in the ticked lane |
| VoodooQueue.TickSettles | src/queue/index.ts:299-317 | once answered, a tick leaves its lane running min(ceiling, running + pending) when it was at or under the ceiling, and the ceiling when it was over |
| VoodooQueue.TickUnderSettles | src/queue/index.ts:303-310 | the running count reached under the ceiling is the target count |
| VoodooQueue.TickOverSettles | src/queue/index.ts:311-317 | the running count reached over the ceiling is the ceiling |
| VoodooQueue.TickOtherLane | src/queue/index.ts:299-317 | a lane's tick leaves the other lane's running and pending lists unchanged |
| VoodooQueue.TickAllSplit | src/queue/index.ts:291-295 | `tick()` is the extraction tick followed by a download tick that sees the same download lists |
| VoodooQueue.TickAllSettles | src/queue/index.ts:289-295 | once answered, `tick()` brings each lane to its target count |
| VoodooQueue.TickPrefersSoonest | src/queue/index.ts:299-317 | the patches a tick addresses come from the right list and have no more time left than any patch of that list it leaves alone |
| VoodooQueue.Manage | src/queue/index.ts:180-239 | a finished patch is refused with nothing changed; otherwise the patch gets a fresh record (time left +Infinity, managed) queued exactly when its lane's running count is at least the ceiling, is paused exactly when queued, and is registered under a new current binding; every other patch's record is kept, no binding is retired, and with one record per patch nothing else is in the registry |
| VoodooQueue.ManageKeepsWf | src/queue/index.ts:192-205 | `manage` keeps one record per patch and every registered binding live; the new binding is live; only the registry and bindings change |
| VoodooQueue.ManageCounts | src/queue/index.ts:188-197 | a new patch adds one to its lane's running count when the lane is under its ceiling and one to its pending count otherwise; the other lane is untouched |
| VoodooQueue.ManageFillsLane | src/queue/index.ts:180-239 | managing new patches of one lane in turn fills it up to its ceiling and queues the rest |
| VoodooQueue.FiveDownloads | src/queue/index.ts:31-34 | five downloads handed to a fresh queue: three run, two wait |
| VoodooQueue.Release | src/queue/index.ts:244-258 | an unregistered patch leaves the queue as it is; otherwise exactly that patch's record is removed, the others stay, its binding is retired, and nothing else changes |
| VoodooQueue.Unmanage | src/queue/index.ts:241-261 | an unregistered patch changes nothing and sends nothing; otherwise exactly that patch's record leaves the registry, the others stay, its binding is retired and nothing else in the queue changes; a well-formed queue stays well formed |
| VoodooQueue.ReleaseKeepsWf | src/queue/index.ts:244-258 | releasing a patch keeps the queue well formed |
| VoodooQueue.UnmanageSettles | src/queue/index.ts:257-260 | after `unmanage` is answered, both lanes reach the target counts of the registry without the patch |
| VoodooQueue.OnTimeLeft | src/queue/index.ts:124-146 | a progress estimate gives the current record the new time left and changes nothing else of it; every other patch's record is kept, with one record per patch no other record appears, and nothing else in the queue changes; for a replaced record nothing changes at all |
| VoodooQueue.OnPatching | src/queue/index.ts:130-140 | `onPatching` sends nothing or a pause of the patch itself (`PatchingAdmitsLikeManage` says which) |
| VoodooQueue.SetQueued | src/queue/index.ts:148-172 | a queue-initiated pause or resume changes only the `queued` flag of the current record, in place, and nothing for a replaced record |
| VoodooQueue.Handle | src/queue/index.ts:148-178 | events of a retired binding do nothing; cancel, a settled promise, and a pause or resume not initiated by the queue unmanage the patch |
| VoodooQueue.HandleKeepsWf | src/queue/index.ts:124-178 | every handled event keeps the queue well formed |
| VoodooQueue.TimeLeftKeepsWf | src/queue/index.ts:142-146 | a time-left update keeps the queue well formed |
| VoodooQueue.ApplyIsHandling | src/queue/index.ts:148-172 | the queue's own pause/resume commands are answered exactly as its paused/resumed handlers with `voodooQueue == true` handle them, and those send nothing |
| VoodooQueue.RegisteredIsCurrent | src/queue/index.ts:198-205 | a registered record's binding is live and is the one `get` finds |
| VoodooQueue.ProgressKeepsCounts | src/queue/index.ts:124-128 | a new time-left estimate changes no running or pending count and no registration |
| VoodooQueue.PatchingAdmitsLikeManage | src/queue/index.ts:130-140 | `onPatching` sends at most a pause of the patch itself, and a running extraction is paused by `onPatching` exactly when `manage` would have queued it had it arrived now (`>` counting itself versus `>=` without it) |
| VoodooQueue.ExternalPauseReleases | src/queue/index.ts:155-157 | a pause the queue did not ask for removes the patch, and every later event of that binding, a resume included, is ignored |
| VoodooQueue.CompletionAfterUnmanage | src/queue/index.ts:215-232 | a completion arriving after `unmanage` does nothing, even once the patch is managed again, and the new record stays current |
| VoodooQueue.RemanageLeavesOldBindingLive | src/queue/index.ts:205 | `manage` of an already managed patch leaves the old binding live, and that binding's completion unmanages the new record |
| VoodooQueue.Reset | src/queue/index.ts:55-74 | `reset` empties the registry, restores 3/3, clears both flags, and ends by stopping, or cancelling, every patch in registry order |
| VoodooQueue.UnmanageEachKeeps | src/queue/index.ts:59-62 | unmanaging patches in turn changes only the registry and the retired bindings, which only grow |
| VoodooQueue.UnmanageEachRetires | src/queue/index.ts:59-62 | unmanaging the listed patches retires the binding of each of them and keeps the queue well formed |
| VoodooQueue.ResetRetiresAll | src/queue/index.ts:55-74 | after `reset`, no event of the binding of any patch registered before it reaches the queue |
| VoodooQueue.UnmanageEachRetiresOnly | src/queue/index.ts:59-62 | unmanaging patches in turn retires only bindings of records registered at the start |
| VoodooQueue.ResetLeavesReplacedBindingLive | src/queue/index.ts:55-74 | a binding whose record a second `manage` replaced is not retired by `reset`, so its events still reach the queue |
| VoodooQueue.ApplyProfile | src/queue/index.ts:105-110 | a profile sets both ceilings and changes nothing else in the queue; once its commands are answered each lane runs min(ceiling, running + pending) when it was at or under the new ceiling and the ceiling when it was over |
| VoodooQueue.Faster | src/queue/index.ts:112-116 | the fast profile sets both ceilings to 3, and once answered each lane settles under the ceiling 3 |
| VoodooQueue.Slower | src/queue/index.ts:118-122 | the slow profile sets both ceilings to 0, and once answered nothing runs in either lane |
| VoodooQueue.SetMax | src/queue/index.ts:330-346 | refused with nothing changed while the lane's change is in flight; otherwise the ceiling changes at once, the flag is set and the lane's tick is deferred; the other lane and the registry are untouched |
| VoodooQueue.RunDeferred | src/queue/index.ts:346-351 | the deferred continuation ticks only its own lane, on the queue as it then stands, and clears only that lane's flag |
| VoodooQueue.SetMaxRefusedWhileSetting | src/queue/index.ts:333-336 | a second change for the same lane while the first is in flight is refused and the first value stays |
| VoodooQueue.SetMaxSettles | src/queue/index.ts:330-371 | once the continuation has run and been answered, the lane settles under the new ceiling, the other lane is untouched and the lane accepts changes again |
| Launcher.OsArchDefault | src/launcher/index.ts:54-57 | an os string without `_` names the 32-bit architecture |
| Launcher.OsArchPair | src/launcher/index.ts:54 | `os_arch` reads back as its two halves |
| Launcher.FindFromReference | src/launcher/index.ts:53-64 | the loop, resumed at any index with no exact match before it, agrees with the reference "first exact match, else last os match" |
| Launcher.FindLaunchOptionSpec | src/launcher/index.ts:50-66 | `findLaunchOption` returns the first option matching os and arch, otherwise the last option matching the os, and nothing exactly when no option matches the os |
| Launcher.ExampleSelection | src/launcher/index.ts:50-66 | with no 64-bit Linux build the last Linux build wins; an unmarked build counts as 32-bit; an unknown os gives nothing |
| Launcher.ReplaceFirstOnly | src/launcher/index.ts:75 | only the first `/` becomes the separator; later ones are kept |
| Launcher.ExampleReplace | src/launcher/index.ts:75 | `a/b/c` becomes `a\b/c` on Windows |
| Launcher.AfterChmod | src/launcher/index.ts:104 | `chmod 0777` leaves all nine permission bits set |
| Launcher.ChmodWhenNeeded | src/launcher/index.ts:99-105 | `chmod` is asked for only when the process cannot execute the file by the Unix rules, and afterwards it can and no second `chmod` is asked for |
| Launcher.ChmodSkipsForeignGroup | src/launcher/index.ts:99-101 | an owned file with no execute bit is left alone when its group is not the process's, although the process cannot execute it |
| Launcher.PrepareLaunch | src/launcher/index.ts:68-105 | fails with no launch option exactly when none is found; then the file being missing, not a file, or without a mode off Windows are each the failure exactly when they occur; a `chmod` that the execute-bit test asks for off Windows and that is rejected is the failure exactly then; on success the path has its first `/` replaced and `chmod` was run exactly off Windows when the test asks for it |
| Launcher.LaunchSucceedsWhen | src/launcher/index.ts:70-105 | a launch gets to the spawn exactly when some option matches the os and the file exists and is a regular file, and, unless the host is Windows, it has a mode and any `chmod` it needs resolves |

## Left out

- Logging (`log`, `console.log`, `JSON.stringify`) is left out: it is output only.
- HTTP and stream plumbing is left out because it is I/O. This covers `request.get`, piping through `StreamSpeed` and a decompression stream, write streams, and `abort`/`unpipe`/`close`. The status, the `content-range` header, chunk lengths and stream events are inputs.
- A `301` response is only ignored, as the code does. Following the redirect belongs to the HTTP library and is not modelled.
- The progress fraction, the `Math.round` time-left estimate and `StreamSpeed.convertSample` are left out. They are floating point and foreign calls.
- `timeLeft` is therefore an integer, ±Infinity, NaN or missing. Fractions are not modelled.
- File-system calls (`fsExists`, `fsStat`, `fsUnlink`, `mkdirp`, `fsChmod`) are oracle inputs.
- A rejected `fsChmod` is the launch failure `ChmodFailed`. Rejections of `fsExists`, `fsStat` and `mkdirp` other than the failures listed in `Prepare` and `PrepareLaunch` are not modelled: those calls are taken to resolve.
- The resolved value of `fsUnlink` comes from a helper module that is not part of this model. A truthy value is taken to mean the delete reported an error, as the code's `if (unlinked) throw` reads.
- `path.dirname`, `path.join` and `url.parse` are library calls. `PrepareLaunch` returns the executable path before it is joined under the game directory.
- `childProcess.spawn`/`unref` and the returned pid are left out: they are process creation.
- `Promise.all` over the `stop()`/`cancel()` results in `reset` is left out. The commands are emitted in order and their results are not modelled.
- The boolean results of `pausePatch`/`resumePatch` are left out. They are undefined on success and never read, so commands are best effort.
- A patch breaking its contract to answer a queue-initiated `stop`/`start` with `onPaused(true)`/`onResumed(true)` is not modelled. `Apply` assumes the answer comes.
- The real asynchrony of promises and `process.nextTick` is left out. The deferral is a separate step, and interleavings are whatever order the caller applies steps in.
- Negative ceilings are left out: ceilings are natural numbers. A negative ceiling would make `tick` index past the end of the running list and throw.
- `setMaxDownloads`/`setMaxExtractions` return a promise of `false` or `undefined`. `SetMax` returns the boolean `accepted` in its place.
- JsText.NatToString: `toString` switches to exponent notation from 10^21 on; offsets are assumed below that.
- JsText.ParseInt: JavaScript numbers above 2^53 lose precision. The model reads the digits exactly.
- JsText.IsJsSpace: it lists the ASCII and Unicode space characters that `parseInt` skips, but not every character of the Unicode `Zs` category a newer engine may add.
- Launcher.NeedsChmod: `&` in JavaScript works on 32 bits. Modes are taken to be below 2^31, where the bit test agrees.
- Launcher.FileStat: a `mode` of 0 stands for both "zero" and "absent", as the code's `!mode` test does not tell them apart.
- The `url`, `to`, `state`, `totalSize` and `totalDownloaded` getters are plain field reads. Before the first `start`, `totalSize` and `totalDownloaded` are undefined in the code and 0 in the model.
- The `onProgress` listener registration and `emitProgress` of the download handle are left out: they concern progress reporting only.

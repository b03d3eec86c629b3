# project-updater, modelled in Dafny

This project models the transformation engine of a project-wide codemod tool.
`ProjectUpdater` keeps a virtual overlay of a project: a baseline snapshot of
every file, a list of pending edits (an empty content marks a deletion) and a
stream of events. It walks the snapshot once and hands each file to the first
`FileUpdater` that claims its path. The updater runs its plugin pipeline.
`addFile` merges the result and publishes a unified diff when the content
changed. `writeChanges` flushes the pending edits to disk.

The model is pure and functional. The updater's mutable state is the datatype
`Overlay.Project`, and the event stream is its `log` field. Each method of the
class is a function from one state to the next.

| module | file | models |
|---|---|---|
| `Optional` | optional.dfy | `Option` |
| `Strings` | strings.dfy | JavaScript `split`/`join`, occurrence counting and their round trips |
| `Paths` | paths.dfy | Node's `dirname` on relative paths, and root normalisation |
| `Overlay` | overlay.dfy | `ProjectUpdater`'s state: queries, `addFile`, `deleteFile`, `init` and `cancel` |
| `Commit` | commit.dfy | `writeChanges` as a plan of file-system operations, and its effect on a disk |
| `Pipeline` | pipeline.dfy | `BaseUpdater.update`: the plugin loop and the round-trip comparison |
| `TextUpdater` | text_updater.dfy | `TextUpdater`: the line-array adapter |
| `Orchestrator` | orchestrator.dfy | `update()` and the transform loop of `updateFiles` |

Three things the code does not decide are parameters:

- The diff library's `diffAsText` is `differ: Differ`. When a property needs
  "different inputs give a non-empty diff", it says so with the hypothesis
  `DiffsChanges(differ)`.
- `getEOL` is `getEol: string -> string`. Callers must give a non-empty line
  ending.
- The moment `cancel()` lands is `cancelAt: Option<Landing>`.
  `Landing(c, w)` means it lands during the iteration for file `c`, at the
  wait `BaseUpdater.update` makes before its plugin number `w`. When the
  updater never reaches that plugin, it lands at the loop's own wait after
  the updater, just before the flag check.

Plugins receive the overlay and may call `main.addFile` on it. A plugin's
answer therefore carries those writes as `effects`. An updater returns them
as `Returned(writes, late, result)`, or as `Threw(writes, late, error)` when
it rejects. `writes` are the calls made before `cancel()` landed, and `late`
those made after it. The plugins after the landing read the emptied overlay.

Nodes are values. A plugin that edits its node in place and returns nothing
answers `Kept(left)`, with the node as it left it. A plugin that returns a
falsy value is written the same way, because `update` ignores such a value.

The model follows the code, including where one might expect otherwise:

- One might expect `cancel()` to keep the edits merged so far. It calls
  `init(true)`, which drops the snapshot and every pending edit. Plugins
  that run after it still write into the emptied overlay, and those writes
  stay pending. See `Orchestrator.LateWriteSurvivesCancel`.
- One might expect every edit to be diffed against the baseline. A second
  edit of a pending file is diffed against the previous pending content.
  "foo" to "bar" to "baz" publishes two events: foo→bar, then bar→baz. See
  `Overlay.ReEditDiffsAgainstPendingContent`.
- One might expect reads to see pending edits. `exists`, `readFile` and
  `readDir` read the baseline snapshot only. See `Overlay.ReadsIgnorePending`.
- One might expect a plugin that returns nothing to leave the file alone.
  An edit it made in place still changes the text. See
  `TextUpdater.InPlaceEditScenario`.

## Model

| member | source | states |
|---|---|---|
| Strings.Split | src/lib/updaters/text-updater.ts:22 | splitting on a non-empty separator gives at least one piece, and no piece contains the separator |
| Strings.JoinSplit | src/lib/updaters/text-updater.ts:20-27 | joining the pieces of a split with the same separator gives the string back |
| Strings.SplitCount | src/lib/updaters/text-updater.ts:22 | a split yields one more piece than there are non-overlapping occurrences of the separator |
| Strings.SplitJoin | src/lib/updaters/text-updater.ts:20-27 | for a separator that cannot overlap itself, splitting a join of separator-free pieces gives the pieces back |
| Strings.LineEndingsBorderless | src/lib/updaters/text-updater.ts:21-22 | "\n" and "\r\n" cannot overlap themselves, so split and join are inverse on them |
| Strings.IndexOf | src/lib/updaters/text-updater.ts:22 | the result is the first position where the separator occurs, or None when there is none |
| Paths.Dirname | src/lib/project-updater.ts:64 | Node's POSIX dirname: "." for the empty path; the prefix before the last '/' that a non-'/' character follows (from index 1 on, so trailing slashes are ignored); with no such '/', "/" for a rooted path and "." otherwise; "//" when a rooted path's cut is at index 1 |
| Paths.DirnameRelative | src/lib/project-updater.ts:64 | on a relative path that does not end in '/', dirname is everything before the last '/', or "." when there is none |
| Paths.DirnameEdges | src/lib/project-updater.ts:64 | "/a" gives "/", "//a" gives "//", "a/b/" gives "a", "a//b" gives "a/", "/" gives "/" |
| Paths.Slashed | src/lib/project-updater.ts:17 | every backslash becomes '/' and every other character stays |
| Paths.NormalizeRoot | src/lib/project-updater.ts:17 | backslashes become '/', one trailing '/' is dropped if there is one, and one '/' is appended, so the root ends in '/' and holds no backslash |
| Overlay.Create | src/lib/project-updater.ts:15-19 | a new updater has a normalised root, a clear flag, nothing loaded, nothing pending and no events |
| Overlay.Cancel | src/lib/project-updater.ts:54-56 | cancelling sets the flag and drops the snapshot and every pending edit, and publishes nothing |
| Overlay.Find | src/lib/project-updater.ts:78-79 | the lookup returns the first entry with the path, or None when no entry has it |
| Overlay.ContentOf | src/lib/project-updater.ts:70 | the content of the first entry with the path, and "" when the path is absent |
| Overlay.Exists | src/lib/project-updater.ts:58-60 | true exactly when some snapshot entry has the path |
| Overlay.ReadFile | src/lib/project-updater.ts:69-71 | the first snapshot entry's content, or "" when the path is not in the snapshot |
| Overlay.ReadDir | src/lib/project-updater.ts:62-67 | a path is listed exactly when a snapshot file has it and its directory equals the argument or, if recursive, starts with it |
| Overlay.ListingAppend | src/lib/project-updater.ts:63-66 | listing keeps snapshot order: the listing of two concatenated snapshots is the concatenation of their listings |
| Overlay.DiffBase | src/lib/project-updater.ts:78-83 | the before side is the first pending content for the path, else the baseline content, else "" |
| Overlay.DiffText | src/lib/project-updater.ts:84-96 | the diff is empty when nothing changed; it is non-empty when a file is created or deleted, and whenever the library reports a change |
| Overlay.AddFile | src/lib/project-updater.ts:77-106 | a write publishes exactly its diff event when the diff is non-empty; it adds at most one pending entry and leaves other paths' entries in place; it keeps pending paths distinct |
| Overlay.AddFileEvent | src/lib/project-updater.ts:87-102 | an event is published exactly when the content differs from the before side, and it names the written path |
| Overlay.AddFilePending | src/lib/project-updater.ts:79-83 | the pending map gains path↦content exactly when the path was pending or an event was published; no other path changes |
| Overlay.AddFileUntouched | src/lib/project-updater.ts:77-97 | writing back the baseline content of a path with no pending edit leaves the whole state unchanged |
| Overlay.AddFileHeader | src/lib/project-updater.ts:87-95 | the "new file mode" header appears exactly for an empty before side, the "deleted file mode" header for an emptied file, and no header otherwise |
| Overlay.DeleteLeavesTombstone | src/lib/project-updater.ts:73-75 | deleting a path with text leaves an empty pending content and one event; deleting an already-empty path changes no pending content |
| Overlay.ReadsIgnorePending | src/lib/project-updater.ts:58-71 | no write is visible to exists, readFile or readDir |
| Overlay.ReEditDiffsAgainstPendingContent | src/lib/project-updater.ts:78-83 | editing "foo" to "bar" to "baz" publishes two events, foo→bar and bar→baz, and leaves "baz" pending |
| Commit.WriteChanges | src/lib/project-updater.ts:108-125 | one operation per pending edit, in order: ensure the directory, then unlink for empty content or write the content |
| Commit.CommitEffect | src/lib/project-updater.ts:110-124 | with distinct pending paths and every deleted file present on disk, the operations turn the disk into the committed one: contents written, tombstones removed |
| Commit.CommitStep | src/lib/project-updater.ts:119-123 | performing one pending edit and then committing the rest commits them all |
| Commit.CommitLeavesOthers | src/lib/project-updater.ts:110-124 | a path without a pending edit keeps its presence and content on disk |
| Commit.CreateThenDeleteRejects | src/lib/project-updater.ts:119-121 | a file created and then deleted within a run leaves a tombstone whose unlink fails on a disk that never had it |
| Commit.CommitEffectLenient | src/lib/project-updater.ts:110-124 | with the lenient unlink, the operations produce the committed disk from any disk |
| Pipeline.Update | src/lib/updaters/base-updater.ts:16-34 | the result is "" after a deletion; otherwise src when the final node serialises like the untouched parse, else the new serialisation; the writes split at the wait where cancel() lands, exactly when the loop reaches that plugin, into those of the plugins before it and those of the plugins from it on |
| Pipeline.RunAppend | src/lib/updaters/base-updater.ts:22-31 | running two plugin lists back to back composes; the second never runs after a deletion |
| Pipeline.RunOne | src/lib/updaters/base-updater.ts:24-30 | a void answer goes on with the node as the plugin left it, in-place edits included; a returned node replaces it; null deletes |
| Pipeline.DeleteStopsRemaining | src/lib/updaters/base-updater.ts:25-27 | after a plugin answers null, later plugins neither run nor write, and the text is "" |
| Pipeline.UntouchedIsVerbatim | src/lib/updaters/base-updater.ts:32-33 | when every plugin neither returns nor edits a node, update returns src byte for byte, whatever the serialiser does and wherever cancel() lands |
| Pipeline.AllUnchangedKeepsNode | src/lib/updaters/base-updater.ts:28-31 | plugins that neither return nor edit a node leave the parsed node in place |
| TextUpdater.StartingEolIrrelevant | src/lib/updaters/text-updater.ts:10-23 | the platform line ending the constructor sets never reaches the result: adapters that differ only in their line ending give the same text and writes |
| TextUpdater.SupportsIff | src/lib/updaters/text-updater.ts:15-18 | a path is supported exactly when it ends in "." plus a listed extension or contains no '.' |
| TextUpdater.NotForOtherFormats | src/lib/updaters/text-updater.ts:17 | paths ending in .json, .ts or .html are not supported |
| TextUpdater.NoSharedEnding | src/lib/updaters/text-updater.ts:17 | no listed extension can end a path that ends in .json, .ts or .html |
| TextUpdater.ConvertToNode | src/lib/updaters/text-updater.ts:20-23 | the adapter records the detected ending; the lines hold no ending, there is one more line than endings, and joining them gives src |
| TextUpdater.RoundTrip | src/lib/updaters/text-updater.ts:20-27 | converting to lines and back gives src plus one line ending |
| TextUpdater.FromNodeThenSplit | src/lib/updaters/text-updater.ts:25-27 | splitting the written text on a non-overlapping ending gives the lines and one empty line |
| TextUpdater.Update | src/lib/updaters/base-updater.ts:16-34 | the text is src when the final lines join back to src, else the joined lines plus one ending, and "" after a deletion; the writes before and after cancel() make up all the plugins' writes |
| TextUpdater.UntouchedTextIsVerbatim | src/lib/updaters/base-updater.ts:32-33 | a text file no plugin changes comes back byte for byte, whether or not it ended with a line ending |
| TextUpdater.AppendLineScenario | src/lib/updaters/text-updater.ts:20-27 | "a", CRLF, "b" with a plugin appending "c" becomes "a", CRLF, "b", CRLF, "c", CRLF |
| TextUpdater.InPlaceEditScenario | src/lib/updaters/base-updater.ts:24-33 | a plugin that pushes "c" onto the lines of "a", LF, "b" and returns nothing yields "a", LF, "b", LF, "c", LF |
| Orchestrator.Dispatch | src/lib/project-updater.ts:149-155 | the file goes to the first updater that supports its path; with none it passes through unchanged with no writes |
| Orchestrator.AddFileAppendsDiffs | src/lib/project-updater.ts:97-102 | addFile appends at most one event, and only a file event, keeping the earlier log as its prefix |
| Orchestrator.ApplyWrites | src/lib/project-updater.ts:152 | merging plugin writes keeps the root, the flag and the snapshot, keeps pending paths distinct, and appends only file events |
| Orchestrator.Step | src/lib/project-updater.ts:148-165 | one file: either the loop goes on or the updater threw, with snapshot and flag kept; or cancel() landed during this iteration, the flag is set, the snapshot is gone and the loop stops; pending paths stay distinct and earlier events stay in place |
| Orchestrator.Loop | src/lib/project-updater.ts:147-166 | a loop that gets through its range still holds the snapshot it walked |
| Orchestrator.Transform | src/lib/project-updater.ts:147-166 | a transform loop that gets through its range still holds the snapshot it walked |
| Orchestrator.LoopFrame | src/lib/project-updater.ts:147-166 | what each step keeps (root, snapshot and flag unless its own cancellation landed, distinct pending paths, earlier events) the whole loop keeps |
| Orchestrator.TransformFrame | src/lib/project-updater.ts:147-166 | the loop keeps the root, distinct pending paths and all earlier events; snapshot and flag stay unless a cancellation landed during an iteration of the range, which sets the flag, drops the snapshot and stops the loop |
| Orchestrator.Update | src/lib/project-updater.ts:21-52 | a non-directory root gives only the "not a directory" event; a failed listing or read is caught, reported after "Initializing..." (and "Reading files..." for a read) and the state reset; otherwise the files are loaded as the snapshot after the three milestones and transformed, and a run that did not fail is the transformed state plus "Update finished.", while a failed run is the reset state whose log ends with the error event |
| Orchestrator.LoopSplit | src/lib/project-updater.ts:147-166 | running files i..c and then c..n is running i..n, unless the first part stopped |
| Orchestrator.TransformSplit | src/lib/project-updater.ts:147-166 | the transform loop over i..n is the loop over i..c followed by the loop over c..n |
| Orchestrator.StepIgnoresOtherCancel | src/lib/project-updater.ts:157-159 | a cancel landing at another file does not change this file's step |
| Orchestrator.LoopAgree | src/lib/project-updater.ts:147-166 | steps that agree on the files of the range give the same loop |
| Orchestrator.CancelElsewhere | src/lib/project-updater.ts:157-159 | a cancel landing outside the range has no effect on it |
| Orchestrator.StepCancelled | src/lib/project-updater.ts:150-159 | cancel() at wait w of a file: the writes before it are merged, everything is dropped, the later plugins' writes are merged into the emptied overlay, and the loop stops without a progress event or merge; only an updater that throws before the wait escapes the cancellation |
| Orchestrator.CancelKeepsOnlyLateWrites | src/lib/project-updater.ts:54-56 | after a cancelled iteration the flag is set, the snapshot is gone, and only paths written after the landing are pending; nothing is pending when no later plugin wrote |
| Orchestrator.LateWriteSurvivesCancel | src/lib/updaters/base-updater.ts:22-24 | cancel() at the wait before a plugin that writes "x" leaves x pending with one "x" file event, although the snapshot is gone |
| Orchestrator.CancelledRun | src/lib/project-updater.ts:147-166 | a cancel during file c: files before c run as in an uncancelled run, then the loop stops at c |
| Orchestrator.StepProgress | src/lib/project-updater.ts:160-165 | a step that goes on publishes exactly one progress event, its own (i+1)/total |
| Orchestrator.LoopProgress | src/lib/project-updater.ts:147-166 | when each step publishes only its own progress event, the loop publishes them in file order |
| Orchestrator.ProgressInOrder | src/lib/project-updater.ts:160-164 | a completed run publishes one progress event per file, in snapshot order, fractions 1/total up to n/total |
| Orchestrator.StepUntouched | src/lib/project-updater.ts:160-165 | a file that comes back unchanged only publishes its progress event, whatever edits to other paths are already pending |
| Orchestrator.LoopQuiet | src/lib/project-updater.ts:147-166 | when no step publishes file events, leaves anything pending or fails, neither does the loop |
| Orchestrator.UntouchedRunIsSilent | src/lib/project-updater.ts:147-166 | when every file comes back unchanged without writes, wherever cancel() lands, the run publishes no file event, leaves nothing pending and does not fail |
| Orchestrator.UntouchedUpdateIsSilent | src/lib/project-updater.ts:37-51 | update() over files that all come back unchanged without writes reports no error, ends with "Update finished.", publishes no file event and leaves nothing for writeChanges |
| Orchestrator.QuietTextUpdater | src/lib/updaters/base-updater.ts:16-34 | text plugins that answer void, edit nothing and write nothing make the text updater return the source unchanged with no writes, wherever cancel() lands |

## Left out

- I/O (`stat`, `readFile`, `mkdir`, `unlink`, `writeFile`) and the `promiseTimeout` pauses are not modelled, except that the pauses are the points where `cancel()` can land. What reading the project gave is an input of `Orchestrator.Update`, and `writeChanges` is a plan of operations run on a map-valued disk.
- `readDirRecursive` is not part of this model; the listed files and their contents are a parameter. It also ignores the `skipDirs` argument. It skips only directories whose path ends in `node_modules`, and returns paths joined onto the root.
- A `stat` that rejects (a missing root) runs before the `try` of `update()`, so `update()` itself rejects after the reset. The model starts from a known directory flag. Failed listings and reads inside `updateFiles` are modelled: they are caught and reported.
- Orchestrator.Update: which file's `readFile` failed is not recorded. The files read before it are dropped by the reset that follows the error, so the final state does not depend on it.
- `getEOL` (imported from `utils.ts` but not defined there) and `diffAsText` are not part of this model; they are parameters, so the line-ending policy and the diff format are not modelled.
- The JSON, HTML and TypeScript adapters, `ts-updater.ts`, `watch.mjs` and `copy.mjs` are not part of this model.
- Async scheduling and rxjs multicasting are not modelled. Subscribers see the `log` in order.
- Orchestrator.Transform: `cancel()` landing before the transform loop, or twice, is not modelled. Before the loop means during `stat`, `readDirRecursive`, the reads or the two 250 ms waits. In the code such a cancel empties the snapshot while it is still being read. The loop then updates the first file pushed after it and stops, or throws on a missing entry when none was pushed. `cancelAt` is a single landing during one file's iteration.
- Orchestrator.Step: plugins are modelled as synchronous, so `cancel()` lands only between them. The code calls a plugin without `await`; an async plugin's promise would become the node, and its later writes would interleave with the rest of the run. That is not modelled.
- Orchestrator.Tick: progress is `done / total` as two naturals, not the floating-point fraction.
- Paths.Dirname: only Node's POSIX rules are modelled. On Windows Node applies the win32 rules (drive letters, backslashes), which are not modelled.
- Commit.WriteChanges: the directory each operation ensures is `dirname` of the pending path, not of `resolve(root, path)` as at lines 112-114. Resolving against the root and the current directory is not modelled.
- Commit.PerformAll: when an `unlink` rejects, the result is None and the disk is not reported. On a real disk the operations before the failing one have already taken effect.
- Pipeline.Update: a plugin that throws is modelled one level up, as the `Threw` outcome of an updater.
- TextUpdater.Update: plugins are bound with `this`, so they could reassign `eol` between parse and serialise. That is not modelled. Plugins receive the adapter and read the detected ending, and the adapter serialises with that ending.
- `convertToNode`'s `src?.split(...) || []` and `convertFromNode`'s `node || []` guard against null; the model's texts and line lists are never null.

## Findings

| source | as written | input that shows it | evidently intended | confidence | as-written member | corrected member |
|---|---|---|---|---|---|---|
| src/lib/project-updater.ts:119-121 | every empty pending content is `unlink`ed, even for a path that was never on disk | a plugin writes "hi" to a new path "x", a later one deletes "x"; pending holds the tombstone x↦"" and `unlink` of the missing file rejects, ending `writeChanges` before later edits are written | a created-then-deleted file is simply not written | medium, not executed | Commit.CreateThenDeleteRejects | Commit.CommitEffectLenient |

/**
 * `writeChanges` as a plan of file-system operations, and what carrying the
 * plan out does to a disk seen as a map from path to content.
 */
module Commit {
  import opened Optional
  import opened Overlay
  import Paths

  datatype Action = Unlink(path: string) | Write(path: string, content: string)

  /** One step of `writeChanges`: make sure `dir` exists, then act on the file. */
  datatype FsOp = FsOp(dir: string, action: Action)

  /** The operation for one pending edit: an empty content deletes, anything else is written. */
  function OpFor(f: File): FsOp {
    FsOp(Paths.Dirname(f.path), if f.content == "" then Unlink(f.path) else Write(f.path, f.content))
  }

  /** `writeChanges()`: one operation per pending edit, in pending order. */
  function WriteChanges(p: Project): (ops: seq<FsOp>)
    ensures |ops| == |p.changedFiles|
    ensures forall k :: 0 <= k < |ops| ==> ops[k].dir == Paths.Dirname(p.changedFiles[k].path)
    ensures forall k :: 0 <= k < |ops| ==>
              (ops[k].action.Unlink? <==> p.changedFiles[k].content == "")
              && ops[k].action.path == p.changedFiles[k].path
              && (ops[k].action.Write? ==> ops[k].action.content == p.changedFiles[k].content)
  {
    Plan(p.changedFiles)
  }

  function Plan(files: seq<File>): (ops: seq<FsOp>)
    ensures |ops| == |files|
    ensures forall k :: 0 <= k < |files| ==> ops[k] == OpFor(files[k])
  {
    seq(|files|, k requires 0 <= k < |files| => OpFor(files[k]))
  }

  /** The files on disk; directories are not modelled, so `dir` never fails. */
  type Disk = map<string, string>

  /** One operation; `unlink` of a file that is not there rejects, which ends `writeChanges`. */
  function Perform(disk: Disk, op: FsOp): Option<Disk> {
    match op.action
    case Unlink(path) => if path in disk then Some(disk - {path}) else None
    case Write(path, content) => Some(disk[path := content])
  }

  /** The operations in order, stopping at the first failure. */
  function PerformAll(disk: Disk, ops: seq<FsOp>): Option<Disk>
    decreases |ops|
  {
    if |ops| == 0 then Some(disk)
    else
      match Perform(disk, ops[0])
      case None => None
      case Some(d) => PerformAll(d, ops[1..])
  }

  /** The disk the pending edits describe: tombstoned paths gone, other pending paths rewritten. */
  ghost function Committed(disk: Disk, pending: map<string, string>): Disk {
    map q | q in disk.Keys + pending.Keys && !(q in pending && pending[q] == "") ::
      if q in pending then pending[q] else disk[q]
  }

  /** Performing the head operation first, then committing the rest, commits everything. */
  lemma CommitStep(disk: Disk, f: File, pending: map<string, string>)
    requires f.path !in pending
    requires f.content == "" ==> f.path in disk
    ensures Perform(disk, OpFor(f)).Some?
    ensures Committed(Perform(disk, OpFor(f)).value, pending) == Committed(disk, pending[f.path := f.content])
  {
    var d := Perform(disk, OpFor(f)).value;
    var lhs, rhs := Committed(d, pending), Committed(disk, pending[f.path := f.content]);
    assert lhs.Keys == rhs.Keys;
  }

  lemma UniqueTail(files: seq<File>)
    requires |files| > 0 && UniquePaths(files)
    ensures UniquePaths(files[1..])
    ensures files[0].path !in PendingMap(files[1..])
  {
    var rest := files[1..];
    forall i, j | 0 <= i < j < |rest|
      ensures rest[i].path != rest[j].path
    {
      assert files[i + 1] == rest[i] && files[j + 1] == rest[j];
    }
    PendingMapFind(rest, files[0].path);
  }

  /**
   * Carrying out `writeChanges` on a disk that holds every file to be deleted
   * yields exactly the committed disk: pending contents written and tombstones
   * removed.
   */
  lemma {:induction false} CommitEffect(disk: Disk, changed: seq<File>)
    requires UniquePaths(changed)
    requires forall f :: f in changed && f.content == "" ==> f.path in disk
    ensures PerformAll(disk, Plan(changed)) == Some(Committed(disk, PendingMap(changed)))
    decreases |changed|
  {
    if |changed| == 0 {
      assert Committed(disk, map[]) == disk;
    } else {
      var f, rest := changed[0], changed[1..];
      assert Plan(changed)[1..] == Plan(rest);
      UniqueTail(changed);
      CommitStep(disk, f, PendingMap(rest));
      var d := Perform(disk, OpFor(f)).value;
      forall g | g in rest && g.content == ""
        ensures g.path in d
      {
        assert g in changed;
        assert g.path != f.path by {
          var i :| 0 <= i < |rest| && rest[i] == g;
          assert changed[i + 1] == g;
        }
      }
      CommitEffect(d, rest);
    }
  }

  /** `writeChanges` never touches a path without a pending edit. */
  lemma CommitLeavesOthers(disk: Disk, pending: map<string, string>, q: string)
    requires q !in pending
    ensures q in Committed(disk, pending) <==> q in disk
    ensures q in disk ==> Committed(disk, pending)[q] == disk[q]
  {
  }

  // ---------------------------------------------------------------- create-then-delete

  /**
   * A file created and then deleted within one run is pending as a tombstone
   * although it was never on disk, so `writeChanges` reaches an `unlink` of a
   * missing file and rejects.
   */
  lemma CreateThenDeleteRejects(differ: Differ)
    requires DiffsChanges(differ)
    ensures var p := Project("/", false, [], [], []);
            var r := DeleteFile(AddFile(p, "x", "hi", differ), "x", differ);
            && r.changedFiles == [File("x", "")]
            && PerformAll(map[], WriteChanges(r)) == None
  {
    var p := Project("/", false, [], [], []);
    var p1 := AddFile(p, "x", "hi", differ);
    assert DiffBase(p, "x") == "";
    assert p1.changedFiles == [File("x", "hi")];
    assert DiffBase(p1, "x") == "hi";
    var r := DeleteFile(p1, "x", differ);
    assert r.changedFiles == [File("x", "")];
    assert WriteChanges(r)[0].action == Unlink("x");
  }

  /** An operation with the unlink of a missing file treated as already done. */
  function PerformLenient(disk: Disk, op: FsOp): (d: Disk)
    ensures op.action.Unlink? ==> d == disk - {op.action.path}
    ensures op.action.Write? ==> d == disk[op.action.path := op.action.content]
  {
    match op.action
    case Unlink(path) => if path in disk then disk - {path} else disk
    case Write(path, content) => disk[path := content]
  }

  /** The lenient counterpart of `CommitStep`, which needs no file on disk. */
  lemma CommitStepLenient(disk: Disk, f: File, pending: map<string, string>)
    requires f.path !in pending
    ensures Committed(PerformLenient(disk, OpFor(f)), pending) == Committed(disk, pending[f.path := f.content])
  {
    var d := PerformLenient(disk, OpFor(f));
    assert Committed(d, pending).Keys == Committed(disk, pending[f.path := f.content]).Keys;
  }

  function PerformAllLenient(disk: Disk, ops: seq<FsOp>): Disk
    decreases |ops|
  {
    if |ops| == 0 then disk else PerformAllLenient(PerformLenient(disk, ops[0]), ops[1..])
  }

  /**
   * With the lenient unlink, carrying out `writeChanges` yields the committed
   * disk from any starting disk, tombstones of never-written files included.
   */
  lemma {:induction false} CommitEffectLenient(disk: Disk, changed: seq<File>)
    requires UniquePaths(changed)
    ensures PerformAllLenient(disk, Plan(changed)) == Committed(disk, PendingMap(changed))
    decreases |changed|
  {
    if |changed| == 0 {
      assert Committed(disk, map[]) == disk;
    } else {
      var f, rest := changed[0], changed[1..];
      assert Plan(changed)[1..] == Plan(rest);
      UniqueTail(changed);
      CommitStepLenient(disk, f, PendingMap(rest));
      CommitEffectLenient(PerformLenient(disk, OpFor(f)), rest);
    }
  }
}

/**
 * The virtual project overlay of `ProjectUpdater`: the baseline snapshot read
 * from disk, the pending edits, the event log and the cancel flag, with the
 * read-only queries plugins use and the `addFile` merge step.
 */
module Overlay {
  import opened Optional
  import opened Strings
  import Paths

  /** One file: its '/'-separated path and its text. */
  datatype File = File(path: string, content: string)

  /**
   * What the updater publishes: a milestone (`query`, progress 0 or 1000), the
   * per-file fraction `done / total` (`determinate`), or one file's diff.
   */
  datatype Event =
    | Query(progress: nat, title: string)
    | Determinate(done: nat, total: nat, title: string)
    | FileDiff(path: string, diff: string)

  /**
   * The updater's state. `projectFiles` is the baseline snapshot, `changedFiles`
   * the pending edits (an empty content is a deletion), `log` every event
   * published so far.
   */
  datatype Project = Project(
    root: string,
    isCanceled: bool,
    projectFiles: seq<File>,
    changedFiles: seq<File>,
    log: seq<Event>)

  /** The unified-diff body of `unidiff`: (before, after, aname, bname) to text. */
  type Differ = (string, string, string, string) -> string

  /** The diff library produces some text whenever the two sides differ. */
  ghost predicate DiffsChanges(differ: Differ) {
    forall before, after, aname, bname :: before != after ==> differ(before, after, aname, bname) != ""
  }

  ghost predicate UniquePaths(files: seq<File>) {
    forall i, j :: 0 <= i < j < |files| ==> files[i].path != files[j].path
  }

  /** The pending edits read as a map from path to content; the first entry for a path wins. */
  ghost function PendingMap(files: seq<File>): map<string, string>
    decreases |files|
  {
    if |files| == 0 then map[] else PendingMap(files[1..])[files[0].path := files[0].content]
  }

  // ---------------------------------------------------------------- lifecycle

  /** `init(canceled)`: forget the snapshot and the pending edits, set the flag. */
  function Init(p: Project, canceled: bool): Project {
    p.(isCanceled := canceled, projectFiles := [], changedFiles := [])
  }

  /** The constructor: a normalised root and a fresh, uncancelled state. */
  function Create(path: string): (p: Project)
    ensures p.root == Paths.NormalizeRoot(path)
    ensures |p.root| > 0 && p.root[|p.root| - 1] == '/' && '\\' !in p.root
    ensures !p.isCanceled && p.projectFiles == [] && p.changedFiles == [] && p.log == []
  {
    Init(Project(Paths.NormalizeRoot(path), false, [], [], []), false)
  }

  /** `cancel()`: raises the flag and drops both the snapshot and every pending edit. */
  function Cancel(p: Project): (r: Project)
    ensures r.isCanceled
    ensures r.projectFiles == [] && r.changedFiles == []
    ensures r.root == p.root && r.log == p.log
  {
    Init(p, true)
  }

  // ---------------------------------------------------------------- lookups

  function FindFrom(files: seq<File>, path: string, i: nat): (r: Option<nat>)
    requires i <= |files|
    ensures r.Some? ==> i <= r.value < |files| && files[r.value].path == path
    ensures r.Some? ==> forall j :: i <= j < r.value ==> files[j].path != path
    ensures r.None? ==> forall j :: i <= j < |files| ==> files[j].path != path
    decreases |files| - i
  {
    if i == |files| then None
    else if files[i].path == path then Some(i)
    else FindFrom(files, path, i + 1)
  }

  /** The index of the first entry with the path, as `Array.find` picks it, or None when no entry has it. */
  function Find(files: seq<File>, path: string): (r: Option<nat>)
    ensures r.Some? ==> r.value < |files| && files[r.value].path == path
    ensures r.Some? ==> forall j :: 0 <= j < r.value ==> files[j].path != path
    ensures r.None? ==> forall j :: 0 <= j < |files| ==> files[j].path != path
  {
    FindFrom(files, path, 0)
  }

  /**
   * The content of the first entry with the path, or "" when no entry has it.
   * An empty content and a missing entry both give "", as the `|| ''` fallback does.
   */
  function ContentOf(files: seq<File>, path: string): (c: string)
    ensures forall i :: (0 <= i < |files| && files[i].path == path
                         && forall j :: 0 <= j < i ==> files[j].path != path) ==> c == files[i].content
    ensures (forall i :: 0 <= i < |files| ==> files[i].path != path) ==> c == ""
  {
    match Find(files, path)
    case None => ""
    case Some(i) => files[i].content
  }

  // ---------------------------------------------------------------- queries

  /** `exists(path)`: the path is in the baseline snapshot (pending edits are not consulted). */
  predicate Exists(p: Project, path: string)
    ensures Exists(p, path) <==> exists i :: 0 <= i < |p.projectFiles| && p.projectFiles[i].path == path
  {
    Find(p.projectFiles, path).Some?
  }

  /** `readFile(path)`: the baseline content of the first snapshot entry for the path, else "". */
  function ReadFile(p: Project, path: string): (c: string)
    ensures (forall i :: 0 <= i < |p.projectFiles| ==> p.projectFiles[i].path != path) ==> c == ""
    ensures forall i :: (0 <= i < |p.projectFiles| && p.projectFiles[i].path == path
                         && forall j :: 0 <= j < i ==> p.projectFiles[j].path != path) ==> c == p.projectFiles[i].content
  {
    ContentOf(p.projectFiles, path)
  }

  /** The `readDir` filter: the file's directory is `dir`, or (recursively) starts with it. */
  predicate Listed(path: string, dir: string, recursive: bool) {
    var d := Paths.Dirname(path);
    d == dir || (recursive && StartsWith(d, dir))
  }

  /** The paths of `files` that `Listed` keeps, in the order of `files`. */
  function Listing(files: seq<File>, dir: string, recursive: bool): (paths: seq<string>)
    ensures |paths| <= |files|
    ensures forall x :: x in paths <==> exists f :: f in files && f.path == x && Listed(x, dir, recursive)
  {
    if |files| == 0 then []
    else
      var rest := Listing(files[1..], dir, recursive);
      assert forall f :: f in files <==> f == files[0] || f in files[1..];
      if Listed(files[0].path, dir, recursive) then [files[0].path] + rest else rest
  }

  /** `readDir(dir, recursive)` over the baseline snapshot. */
  function ReadDir(p: Project, dir: string, recursive: bool): (paths: seq<string>)
    ensures |paths| <= |p.projectFiles|
    ensures forall x :: x in paths <==>
              exists f :: f in p.projectFiles && f.path == x && Listed(x, dir, recursive)
  {
    Listing(p.projectFiles, dir, recursive)
  }

  /** Listing keeps snapshot order: it distributes over concatenation. */
  lemma {:induction false} ListingAppend(a: seq<File>, b: seq<File>, dir: string, recursive: bool)
    ensures Listing(a + b, dir, recursive) == Listing(a, dir, recursive) + Listing(b, dir, recursive)
    decreases |a|
  {
    if |a| > 0 {
      assert (a + b)[1..] == a[1..] + b;
      assert (a + b)[0] == a[0];
      ListingAppend(a[1..], b, dir, recursive);
    } else {
      assert a + b == b;
    }
  }

  // ---------------------------------------------------------------- addFile

  /**
   * The "before" side of a diff for `path`: the pending content when an edit is
   * pending, else the baseline content, else "".
   */
  function DiffBase(p: Project, path: string): (before: string)
    ensures forall k :: (0 <= k < |p.changedFiles| && p.changedFiles[k].path == path
                         && forall j :: 0 <= j < k ==> p.changedFiles[j].path != path) ==> before == p.changedFiles[k].content
    ensures (forall k :: 0 <= k < |p.changedFiles| ==> p.changedFiles[k].path != path) ==>
              before == ReadFile(p, path)
  {
    match Find(p.changedFiles, path)
    case Some(k) => p.changedFiles[k].content
    case None => ContentOf(p.projectFiles, path)
  }

  /** Which git-style header line a diff carries. */
  datatype Change = Created | Deleted | Modified

  function ChangeOf(before: string, after: string): Change {
    if before == "" then Created
    else if after == "" then Deleted
    else Modified
  }

  function GitLine(path: string): string {
    "diff --git a/" + path + " b/" + path + "\n"
  }

  function Header(path: string, change: Change): string {
    match change
    case Created => GitLine(path) + "new file mode 100644\n"
    case Deleted => GitLine(path) + "deleted file mode 100644\n"
    case Modified => ""
  }

  /** The diff text `addFile` builds: empty when nothing changed, else header plus body. */
  function DiffText(path: string, before: string, after: string, differ: Differ): (diff: string)
    ensures before == after ==> diff == ""
    ensures before != after && (before == "" || after == "") ==> diff != ""
    ensures before != after && DiffsChanges(differ) ==> diff != ""
  {
    if before == after then ""
    else Header(path, ChangeOf(before, after)) + differ(before, after, "a/" + path, "b/" + path)
  }

  /**
   * `addFile(path, content)`. A pending entry for the path is overwritten in
   * place whatever happens; a file event is published when the diff text is
   * non-empty; only then is a missing entry appended.
   */
  function AddFile(p: Project, path: string, content: string, differ: Differ): (r: Project)
    ensures r.root == p.root && r.isCanceled == p.isCanceled && r.projectFiles == p.projectFiles
    ensures var diff := DiffText(path, DiffBase(p, path), content, differ);
            r.log == p.log + (if diff == "" then [] else [FileDiff(path, diff)])
    ensures |p.changedFiles| <= |r.changedFiles| <= |p.changedFiles| + 1
    ensures forall i :: 0 <= i < |p.changedFiles| && p.changedFiles[i].path != path ==>
              r.changedFiles[i] == p.changedFiles[i]
    ensures UniquePaths(p.changedFiles) ==> UniquePaths(r.changedFiles)
  {
    var before := DiffBase(p, path);
    var existing := Find(p.changedFiles, path);
    var pending := if existing.Some? then p.changedFiles[existing.value := File(path, content)] else p.changedFiles;
    var diff := DiffText(path, before, content, differ);
    if diff == "" then
      p.(changedFiles := pending)
    else
      p.(changedFiles := if existing.Some? then pending else pending + [File(path, content)],
         log := p.log + [FileDiff(path, diff)])
  }

  /** `deleteFile(path)`: a write of the empty content, which marks the file for deletion. */
  function DeleteFile(p: Project, path: string, differ: Differ): (r: Project)
    ensures r == AddFile(p, path, "", differ)
  {
    AddFile(p, path, "", differ)
  }

  // ---------------------------------------------------------------- properties

  /** The map view of a sequence of files agrees with `Find`: first entry wins. */
  lemma {:induction false} PendingMapFind(files: seq<File>, q: string)
    ensures q in PendingMap(files) <==> Find(files, q).Some?
    ensures q in PendingMap(files) ==> PendingMap(files)[q] == files[Find(files, q).value].content
    decreases |files|
  {
    if |files| > 0 && files[0].path != q {
      var rest := files[1..];
      PendingMapFind(rest, q);
      FindCons(files, q);
    }
  }

  /** Searching past a head with another path finds the same entry one place later. */
  lemma FindCons(files: seq<File>, q: string)
    requires |files| > 0 && files[0].path != q
    ensures Find(files, q).Some? <==> Find(files[1..], q).Some?
    ensures Find(files, q).Some? ==> Find(files, q).value == Find(files[1..], q).value + 1
  {
    var rest := files[1..];
    var a, b := Find(files, q), Find(rest, q);
    if b.Some? {
      assert files[b.value + 1] == rest[b.value];
    }
    if a.Some? {
      assert files[a.value] == rest[a.value - 1];
      if b.Some? {
        assert files[b.value + 1] == rest[b.value];
      }
    }
  }

  /**
   * A write publishes exactly one file event when the content differs from the
   * "before" side (pending content, else baseline, else ""), and none otherwise.
   */
  lemma AddFileEvent(p: Project, path: string, content: string, differ: Differ)
    requires DiffsChanges(differ)
    ensures var r := AddFile(p, path, content, differ);
            && (content != DiffBase(p, path) <==> |r.log| == |p.log| + 1)
            && (content == DiffBase(p, path) <==> r.log == p.log)
            && (content != DiffBase(p, path) ==> r.log[|p.log|].FileDiff? && r.log[|p.log|].path == path)
  {
  }

  /**
   * The pending edits, as a map, gain `path |-> content` exactly when the path
   * was already pending or the write published an event; no other path moves.
   * In particular a path becomes pending only on a write that published an event.
   */
  lemma AddFilePending(p: Project, path: string, content: string, differ: Differ)
    ensures var r := AddFile(p, path, content, differ);
            var emitted := |r.log| > |p.log|;
            && PendingMap(r.changedFiles) ==
                 (if path in PendingMap(p.changedFiles) || emitted
                  then PendingMap(p.changedFiles)[path := content]
                  else PendingMap(p.changedFiles))
            && (path !in PendingMap(p.changedFiles) && path in PendingMap(r.changedFiles) ==> emitted)
  {
    var r := AddFile(p, path, content, differ);
    var emitted := |r.log| > |p.log|;
    var c, c' := p.changedFiles, r.changedFiles;
    var existing := Find(c, path);
    PendingMapFind(c, path);
    if existing.Some? || emitted {
      FindWritten(c, c', path, content, existing);
      PendingMapAfter(c, c', path, content);
    } else {
      assert c' == c;
    }
  }

  /** The map view after `AddFile` recorded `path |-> content` in place or at the end. */
  lemma PendingMapAfter(c: seq<File>, c': seq<File>, path: string, content: string)
    requires |c| <= |c'| <= |c| + 1
    requires forall i :: 0 <= i < |c| && c[i].path != path ==> c'[i] == c[i]
    requires forall i :: 0 <= i < |c'| ==> i < |c| || c'[i].path == path
    requires forall i :: 0 <= i < |c| && c[i].path == path ==> c'[i].path == path
    requires Find(c', path).Some? && c'[Find(c', path).value] == File(path, content)
    ensures PendingMap(c') == PendingMap(c)[path := content]
  {
    var m, m' := PendingMap(c), PendingMap(c');
    PendingMapFind(c', path);
    forall q | q != path
      ensures q in m' <==> q in m
      ensures q in m ==> m'[q] == m[q]
    {
      PendingMapFind(c, q);
      PendingMapFind(c', q);
      FindAfterAddFile(c, c', path, q);
    }
    assert m'.Keys == m[path := content].Keys;
  }

  /** After `AddFile`, a path other than the written one is found where it was. */
  lemma FindAfterAddFile(c: seq<File>, c': seq<File>, path: string, q: string)
    requires q != path
    requires |c| <= |c'| <= |c| + 1
    requires forall i :: 0 <= i < |c| && c[i].path != path ==> c'[i] == c[i]
    requires forall i :: 0 <= i < |c'| ==> i < |c| || c'[i].path == path
    requires forall i :: 0 <= i < |c| && c[i].path == path ==> c'[i].path == path
    ensures Find(c', q) == Find(c, q)
  {
    var a := Find(c, q);
    if a.Some? {
      assert c'[a.value] == c[a.value];
    }
  }

  /** After `AddFile` records the path, its first entry holds the new content. */
  lemma FindWritten(c: seq<File>, c': seq<File>, path: string, content: string, existing: Option<nat>)
    requires existing == Find(c, path)
    requires existing.Some? ==> c' == c[existing.value := File(path, content)]
    requires existing.None? ==> c' == c + [File(path, content)]
    ensures Find(c', path).Some?
    ensures c'[Find(c', path).value] == File(path, content)
  {
    var k := if existing.Some? then existing.value else |c|;
    assert c'[k] == File(path, content);

  }

  /**
   * Writing back the baseline content of a path that has no pending edit (the
   * first snapshot entry's content, or "" for an unknown path) changes nothing.
   */
  lemma AddFileUntouched(p: Project, path: string, differ: Differ)
    requires forall k :: 0 <= k < |p.changedFiles| ==> p.changedFiles[k].path != path
    ensures AddFile(p, path, ReadFile(p, path), differ) == p
  {
  }

  /**
   * The header of a published diff: "new file mode" exactly when the before
   * side is empty, "deleted file mode" exactly when only the new content is
   * empty, and no header otherwise.
   */
  lemma AddFileHeader(p: Project, path: string, content: string, differ: Differ)
    requires content != DiffBase(p, path)
    ensures var before := DiffBase(p, path);
            var body := differ(before, content, "a/" + path, "b/" + path);
            var r := AddFile(p, path, content, differ);
            && (before == "" ==> r.log == p.log + [FileDiff(path, GitLine(path) + "new file mode 100644\n" + body)])
            && (before != "" && content == "" ==>
                  r.log == p.log + [FileDiff(path, GitLine(path) + "deleted file mode 100644\n" + body)])
            && (before != "" && content != "" ==> r.log == p.log + (if body == "" then [] else [FileDiff(path, body)]))
  {
    var before := DiffBase(p, path);
    var body := differ(before, content, "a/" + path, "b/" + path);
    if before == "" {
      HeaderNonEmpty(path, "new file mode 100644\n", body);
    } else if content == "" {
      HeaderNonEmpty(path, "deleted file mode 100644\n", body);
    } else {
      assert DiffText(path, before, content, differ) == body;
    }
  }

  lemma HeaderNonEmpty(path: string, mode: string, body: string)
    ensures GitLine(path) + mode + body != ""
  {
    assert |GitLine(path)| > 0;
  }

  /**
   * `deleteFile` leaves a tombstone (an empty pending content) for a path whose
   * before side held text, and is a no-op for a path whose before side is empty.
   */
  lemma DeleteLeavesTombstone(p: Project, path: string, differ: Differ)
    ensures var r := DeleteFile(p, path, differ);
            && (DiffBase(p, path) != "" ==> path in PendingMap(r.changedFiles) && PendingMap(r.changedFiles)[path] == ""
                                             && |r.log| == |p.log| + 1)
            && (DiffBase(p, path) == "" ==> r.changedFiles == p.changedFiles || PendingMap(r.changedFiles) == PendingMap(p.changedFiles))
  {
    AddFilePending(p, path, "", differ);
    var r := DeleteFile(p, path, differ);
    if DiffBase(p, path) == "" {
      if path in PendingMap(p.changedFiles) {
        PendingMapFind(p.changedFiles, path);
        assert PendingMap(p.changedFiles)[path] == "";
      }
    }
  }

  /** The queries read the snapshot only, so no write is ever visible to them. */
  lemma ReadsIgnorePending(p: Project, path: string, content: string, differ: Differ, q: string, dir: string, recursive: bool)
    ensures var r := AddFile(p, path, content, differ);
            && Exists(r, q) == Exists(p, q)
            && ReadFile(r, q) == ReadFile(p, q)
            && ReadDir(r, dir, recursive) == ReadDir(p, dir, recursive)
  {
  }

  /**
   * A second edit of a file is diffed against the first edit, not against the
   * content the run started with: "foo" to "bar" to "baz" publishes two events.
   */
  lemma ReEditDiffsAgainstPendingContent(differ: Differ)
    requires DiffsChanges(differ)
    ensures var p := Project("/", false, [File("a", "foo")], [], []);
            var p1 := AddFile(p, "a", "bar", differ);
            var p2 := AddFile(p1, "a", "baz", differ);
            && p2.log == [FileDiff("a", differ("foo", "bar", "a/a", "b/a")), FileDiff("a", differ("bar", "baz", "a/a", "b/a"))]
            && p2.changedFiles == [File("a", "baz")]
  {
    var p := Project("/", false, [File("a", "foo")], [], []);
    assert "a/" + "a" == "a/a" && "b/" + "a" == "b/a";
    assert DiffBase(p, "a") == "foo";
    assert DiffText("a", "foo", "bar", differ) == differ("foo", "bar", "a/a", "b/a");
    var p1 := AddFile(p, "a", "bar", differ);
    assert p1.changedFiles == [File("a", "bar")];
    assert DiffBase(p1, "a") == "bar";
    assert DiffText("a", "bar", "baz", differ) == differ("bar", "baz", "a/a", "b/a");
  }
}

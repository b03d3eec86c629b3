/**
 * The run of `ProjectUpdater.update()`: the transform loop of `updateFiles`
 * (first-match dispatch, the cancel check, the merge) and the milestones and
 * error handling around it.
 */
module Orchestrator {
  import opened Optional
  import opened Overlay
  import Pipeline
  import TextUpdater

  /**
   * Where `cancel()` lands: in the iteration for file `file`, at the wait
   * `BaseUpdater.update` makes before its plugin number `wait`; when the
   * updater never reaches such a plugin (it has fewer, or one asked for
   * deletion first), at the loop's own wait after the updater.
   */
  datatype Landing = Landing(file: nat, wait: nat)

  /** The updater wait of file `i`'s iteration at which `cancel()` lands, if it lands during that iteration. */
  function WaitAt(cancelAt: Option<Landing>, i: nat): (at: Option<nat>)
    ensures at.Some? <==> cancelAt.Some? && cancelAt.value.file == i
    ensures at.Some? ==> at.value == cancelAt.value.wait
  {
    if cancelAt.Some? && cancelAt.value.file == i then Some(cancelAt.value.wait) else None
  }

  /**
   * How an updater's `update` call ends: the overlay writes its plugins made
   * before `cancel()` landed (all of them when it did not land in the call),
   * those made after it (None when it did not land in the call), and the text
   * returned or the error thrown.
   */
  datatype Outcome =
    | Returned(writes: seq<File>, late: Option<seq<File>>, result: string)
    | Threw(writes: seq<File>, late: Option<seq<File>>, error: string)

  /**
   * A `FileUpdater`: its `supports` predicate, and its `update` of a source
   * text for a path, given the snapshot the plugins may read and the wait of
   * the call at which `cancel()` lands, if it lands in the call; plugins
   * after that wait read the emptied overlay.
   */
  datatype FileUpdater = FileUpdater(supports: string -> bool, update: (string, string, seq<File>, Option<nat>) -> Outcome)

  function DispatchFrom(updaters: seq<FileUpdater>, path: string, content: string, snapshot: seq<File>,
                        at: Option<nat>, i: nat)
    : (o: Outcome)
    requires i <= |updaters|
    ensures (forall k :: i <= k < |updaters| ==> !updaters[k].supports(path)) ==> o == Returned([], None, content)
    ensures forall k :: (i <= k < |updaters| && updaters[k].supports(path)
                         && forall j :: i <= j < k ==> !updaters[j].supports(path)) ==>
              o == updaters[k].update(content, path, snapshot, at)
    decreases |updaters| - i
  {
    if i == |updaters| then Returned([], None, content)
    else if updaters[i].supports(path) then updaters[i].update(content, path, snapshot, at)
    else DispatchFrom(updaters, path, content, snapshot, at, i + 1)
  }

  /**
   * The updater loop for one file: the content goes to the first updater whose
   * `supports` holds, and passes through unchanged when none does.
   */
  function Dispatch(updaters: seq<FileUpdater>, path: string, content: string, snapshot: seq<File>, at: Option<nat>)
    : (o: Outcome)
    ensures (forall k :: 0 <= k < |updaters| ==> !updaters[k].supports(path)) ==> o == Returned([], None, content)
    ensures forall k :: (0 <= k < |updaters| && updaters[k].supports(path)
                         && forall j :: 0 <= j < k ==> !updaters[j].supports(path)) ==>
              o == updaters[k].update(content, path, snapshot, at)
  {
    DispatchFrom(updaters, path, content, snapshot, at, 0)
  }

  ghost predicate IsPrefix(a: seq<Event>, b: seq<Event>) {
    |a| <= |b| && b[..|a|] == a
  }

  lemma PrefixTrans(a: seq<Event>, b: seq<Event>, c: seq<Event>)
    requires IsPrefix(a, b) && IsPrefix(b, c)
    ensures IsPrefix(a, c)
  {
    assert c[..|a|] == c[..|b|][..|a|];
  }

  /** `log'` is `log` followed by file events only. */
  ghost predicate AppendsDiffs(log': seq<Event>, log: seq<Event>) {
    IsPrefix(log, log') && forall k :: |log| <= k < |log'| ==> log'[k].FileDiff?
  }

  lemma AppendsDiffsTrans(a: seq<Event>, b: seq<Event>, c: seq<Event>)
    requires AppendsDiffs(b, a) && AppendsDiffs(c, b)
    ensures AppendsDiffs(c, a)
  {
    assert c[..|a|] == c[..|b|][..|a|];
  }

  /** `addFile` publishes at most one event, and only a file event. */
  lemma AddFileAppendsDiffs(p: Project, path: string, content: string, differ: Differ)
    ensures AppendsDiffs(AddFile(p, path, content, differ).log, p.log)
    ensures |AddFile(p, path, content, differ).log| <= |p.log| + 1
  {
    var r := AddFile(p, path, content, differ);
    assert r.log[..|p.log|] == p.log;
  }

  /** The `main.addFile` calls plugins made, merged in the order they were made. */
  function ApplyWrites(p: Project, writes: seq<File>, differ: Differ): (r: Project)
    ensures r.root == p.root && r.isCanceled == p.isCanceled && r.projectFiles == p.projectFiles
    ensures UniquePaths(p.changedFiles) ==> UniquePaths(r.changedFiles)
    ensures AppendsDiffs(r.log, p.log)
    decreases |writes|
  {
    if |writes| == 0 then p
    else
      var q := AddFile(p, writes[0].path, writes[0].content, differ);
      var r := ApplyWrites(q, writes[1..], differ);
      AddFileAppendsDiffs(p, writes[0].path, writes[0].content, differ);
      AppendsDiffsTrans(p.log, q.log, r.log);
      r
  }

  /** The paths of `files`. */
  ghost predicate HasPath(files: seq<File>, path: string) {
    exists g :: g in files && g.path == path
  }

  /** `addFile` leaves pending only paths that were pending or the one it wrote. */
  lemma AddFilePaths(p: Project, path: string, content: string, differ: Differ)
    ensures forall f :: f in AddFile(p, path, content, differ).changedFiles ==>
              f.path == path || HasPath(p.changedFiles, f.path)
  {
    var r := AddFile(p, path, content, differ);
    var existing := Find(p.changedFiles, path);
    forall f | f in r.changedFiles
      ensures f.path == path || HasPath(p.changedFiles, f.path)
    {
      var k :| 0 <= k < |r.changedFiles| && r.changedFiles[k] == f;
      if k < |p.changedFiles| && f.path != path {
        assert p.changedFiles[k] in p.changedFiles;
        assert f.path == p.changedFiles[k].path;
      }
    }
  }

  /** Merging writes leaves pending only paths that were pending or were written. */
  lemma {:induction false} ApplyWritesPaths(p: Project, writes: seq<File>, differ: Differ)
    ensures forall f :: f in ApplyWrites(p, writes, differ).changedFiles ==>
              HasPath(p.changedFiles, f.path) || HasPath(writes, f.path)
    decreases |writes|
  {
    if |writes| > 0 {
      var w := writes[0];
      var q := AddFile(p, w.path, w.content, differ);
      AddFilePaths(p, w.path, w.content, differ);
      ApplyWritesPaths(q, writes[1..], differ);
      forall f | f in ApplyWrites(p, writes, differ).changedFiles
        ensures HasPath(p.changedFiles, f.path) || HasPath(writes, f.path)
      {
        if HasPath(writes[1..], f.path) {
          var g :| g in writes[1..] && g.path == f.path;
          assert g in writes;
        } else if !HasPath(p.changedFiles, f.path) {
          assert HasPath(q.changedFiles, f.path);
          var g :| g in q.changedFiles && g.path == f.path;
          assert w in writes;
        }
      }
    }
  }

  /** How the transform loop ended. */
  datatype Halt = Completed | Cancelled | Failed(error: string)

  datatype Pass = Pass(state: Project, halt: Halt)

  /** The determinate progress event after file `i`: fraction (i + 1) / total. */
  function Tick(i: nat, total: nat, path: string): Event {
    Determinate(i + 1, total, "Updating " + path + "...")
  }

  /** `cancel()` landed during file `i`'s iteration: the flag is set and the snapshot is gone. */
  ghost predicate Dropped(s: Project, cancelAt: Option<Landing>, i: nat) {
    s.isCanceled && s.projectFiles == [] && WaitAt(cancelAt, i).Some?
  }

  /**
   * One iteration of the transform loop of `updateFiles`, for file `i`.
   * `cancel()` may land at one of the updater's waits, so that its later
   * plugins write into the emptied overlay, or at the loop's wait after the
   * updater; either way the flag check then ends the loop. An updater that
   * throws ends it too. Otherwise come the progress event and the merge, and
   * `Completed` here means the loop goes on with the next file.
   */
  function Step(p: Project, i: nat, updaters: seq<FileUpdater>, cancelAt: Option<Landing>, differ: Differ)
    : (r: Pass)
    requires i < |p.projectFiles|
    ensures r.state.root == p.root
    ensures || (r.halt != Cancelled && r.state.projectFiles == p.projectFiles && r.state.isCanceled == p.isCanceled)
            || (r.halt != Completed && Dropped(r.state, cancelAt, i))
    ensures UniquePaths(p.changedFiles) ==> UniquePaths(r.state.changedFiles)
    ensures IsPrefix(p.log, r.state.log)
  {
    var file := p.projectFiles[i];
    var at := WaitAt(cancelAt, i);
    var o := Dispatch(updaters, file.path, file.content, p.projectFiles, at);
    var q := ApplyWrites(p, o.writes, differ);
    if at.Some? && (o.Returned? || o.late.Some?) then
      var c := ApplyWrites(Cancel(q), if o.late.Some? then o.late.value else [], differ);
      PrefixTrans(p.log, q.log, c.log);
      Pass(c, if o.Threw? then Failed(o.error) else Cancelled)
    else if o.Threw? then Pass(q, Failed(o.error))
    else
      var ticked := q.(log := q.log + [Tick(i, |p.projectFiles|, file.path)]);
      var merged := AddFile(ticked, file.path, o.result, differ);
      PrefixTrans(p.log, q.log, ticked.log);
      AddFileAppendsDiffs(ticked, file.path, o.result, differ);
      PrefixTrans(p.log, ticked.log, merged.log);
      Pass(merged, Completed)
  }

  /** A step of the loop: the state before file k, and k; the state after and whether to go on. */
  type StepFn = (Project, nat) --> Pass

  /** The step runs on every file of any snapshot, and a step that goes on leaves the snapshot alone. */
  ghost predicate Total(step: StepFn) {
    forall q: Project, k: nat :: k < |q.projectFiles| ==>
      step.requires(q, k) && (step(q, k).halt == Completed ==> step(q, k).state.projectFiles == q.projectFiles)
  }

  /** The loop over files i..n-1, stopping at the first step that does not complete. */
  function Loop(step: StepFn, p: Project, i: nat, n: nat): (r: Pass)
    requires Total(step)
    requires i <= n <= |p.projectFiles|
    ensures r.halt == Completed ==> r.state.projectFiles == p.projectFiles
    decreases n - i
  {
    if i == n then Pass(p, Completed)
    else
      var s := step(p, i);
      if s.halt != Completed then s else Loop(step, s.state, i + 1, n)
  }

  /** `Step` with the updaters, the cancellation point and the differ fixed. */
  function StepOf(updaters: seq<FileUpdater>, cancelAt: Option<Landing>, differ: Differ): (step: StepFn)
    ensures Total(step)
    ensures forall q: Project, k: nat :: k < |q.projectFiles| ==> step(q, k) == Step(q, k, updaters, cancelAt, differ)
  {
    (q: Project, k: nat) requires k < |q.projectFiles| => Step(q, k, updaters, cancelAt, differ)
  }

  /**
   * The transform loop of `updateFiles` from file `i` up to file `n`; a run
   * that gets through the range still holds the snapshot it walked.
   */
  function Transform(p: Project, i: nat, n: nat, updaters: seq<FileUpdater>, cancelAt: Option<Landing>,
                     differ: Differ): (r: Pass)
    requires i <= n <= |p.projectFiles|
    ensures r.halt == Completed ==> r.state.projectFiles == p.projectFiles
  {
    Loop(StepOf(updaters, cancelAt, differ), p, i, n)
  }

  /** What each step keeps, as `Step` guarantees it for one file. */
  ghost predicate Keeps(step: StepFn, cancelAt: Option<Landing>)
    requires Total(step)
  {
    forall q: Project, k: nat :: k < |q.projectFiles| ==>
      && step(q, k).state.root == q.root
      && (|| (step(q, k).halt != Cancelled && step(q, k).state.projectFiles == q.projectFiles
              && step(q, k).state.isCanceled == q.isCanceled)
          || (step(q, k).halt != Completed && Dropped(step(q, k).state, cancelAt, k)))
      && (UniquePaths(q.changedFiles) ==> UniquePaths(step(q, k).state.changedFiles))
      && IsPrefix(q.log, step(q, k).state.log)
  }

  lemma {:induction false} LoopFrame(step: StepFn, cancelAt: Option<Landing>, p: Project, i: nat, n: nat)
    requires Total(step) && Keeps(step, cancelAt)
    requires i <= n <= |p.projectFiles|
    ensures var r := Loop(step, p, i, n);
            && r.state.root == p.root
            && (|| (r.halt != Cancelled && r.state.projectFiles == p.projectFiles && r.state.isCanceled == p.isCanceled)
                || (r.halt != Completed && r.state.isCanceled && r.state.projectFiles == []
                    && cancelAt.Some? && i <= cancelAt.value.file < n))
            && (UniquePaths(p.changedFiles) ==> UniquePaths(r.state.changedFiles))
            && IsPrefix(p.log, r.state.log)
    decreases n - i
  {
    if i < n {
      var s := step(p, i);
      if s.halt == Completed {
        LoopFrame(step, cancelAt, s.state, i + 1, n);
        PrefixTrans(p.log, s.state.log, Loop(step, s.state, i + 1, n).state.log);
      }
    }
  }

  /**
   * What the loop keeps: the root, and the snapshot and flag unless a
   * cancellation landed (then only during an iteration of the range, with the
   * flag set, the snapshot gone and the loop stopped), distinct pending paths,
   * and the events already published.
   */
  lemma TransformFrame(p: Project, i: nat, n: nat, updaters: seq<FileUpdater>, cancelAt: Option<Landing>,
                       differ: Differ)
    requires i <= n <= |p.projectFiles|
    ensures var r := Transform(p, i, n, updaters, cancelAt, differ);
            && r.state.root == p.root
            && (|| (r.halt != Cancelled && r.state.projectFiles == p.projectFiles && r.state.isCanceled == p.isCanceled)
                || (r.halt != Completed && r.state.isCanceled && r.state.projectFiles == []
                    && cancelAt.Some? && i <= cancelAt.value.file < n))
            && (UniquePaths(p.changedFiles) ==> UniquePaths(r.state.changedFiles))
            && IsPrefix(p.log, r.state.log)
  {
    LoopFrame(StepOf(updaters, cancelAt, differ), cancelAt, p, i, n);
  }

  /**
   * What reading the project gave: the listed files with their contents, or
   * the error `readDirRecursive` rejected with, or the error of the
   * `readFile` of one of the listed files.
   */
  datatype Loaded = Loaded(files: seq<File>) | ListFailed(error: string) | ReadFailed(error: string)

  /** The snapshot the read loop builds: each listed path with its backslashes turned into '/'. */
  function Snapshot(files: seq<File>): (s: seq<File>)
    ensures |s| == |files|
    ensures forall k :: 0 <= k < |files| ==> s[k] == File(Paths.Slashed(files[k].path), files[k].content)
  {
    seq(|files|, k requires 0 <= k < |files| => File(Paths.Slashed(files[k].path), files[k].content))
  }

  /**
   * The state the transform loop starts from: reset, the listed files loaded
   * as the snapshot, and the three milestones published.
   */
  function Started(p: Project, files: seq<File>): (s: Project)
    ensures s.root == p.root && !s.isCanceled && s.changedFiles == []
    ensures s.projectFiles == Snapshot(files)
    ensures s.log == p.log + [Query(0, "Initializing..."), Query(0, "Reading files..."), Query(0, "Updating files...")]
  {
    Init(p, false).(projectFiles := Snapshot(files),
                    log := p.log + [Query(0, "Initializing..."), Query(0, "Reading files..."), Query(0, "Updating files...")])
  }

  /**
   * `update()`: reset, check the root, publish the milestones, load the
   * snapshot, transform every file, and publish either the finish milestone or
   * the error (after which the state is reset again). A failed read is caught
   * like an updater's error.
   */
  function Update(p: Project, isDirectory: bool, read: Loaded, updaters: seq<FileUpdater>,
                  cancelAt: Option<Landing>, differ: Differ): (r: Project)
    ensures r.root == p.root
    ensures UniquePaths(r.changedFiles)
    ensures !isDirectory ==>
              r == Init(p, false).(log := p.log + [Query(0, "The path " + p.root + " is not a directory.")])
    ensures isDirectory && read.ListFailed? ==>
              r == Init(p, false).(log := p.log + [Query(0, "Initializing..."), Query(0, "An error occurred. " + read.error)])
    ensures isDirectory && read.ReadFailed? ==>
              r == Init(p, false).(log := p.log + [Query(0, "Initializing..."), Query(0, "Reading files..."),
                                                   Query(0, "An error occurred. " + read.error)])
    ensures isDirectory && read.Loaded? ==>
              |r.log| >= |p.log| + 4
              && r.log[..|p.log| + 3] ==
                   p.log + [Query(0, "Initializing..."), Query(0, "Reading files..."), Query(0, "Updating files...")]
              && (r.log[|r.log| - 1] == Query(1000, "Update finished.")
                  || (r.log[|r.log| - 1].Query? && r.log[|r.log| - 1].progress == 0
                      && r.projectFiles == [] && r.changedFiles == [] && !r.isCanceled))
    ensures isDirectory && read.Loaded? ==>
              var pass := Transform(Started(p, read.files), 0, |read.files|, updaters, cancelAt, differ);
              && (!pass.halt.Failed? ==> r == pass.state.(log := pass.state.log + [Query(1000, "Update finished.")]))
              && (pass.halt.Failed? ==>
                    r == Init(p, false).(log := pass.state.log + [Query(0, "An error occurred. " + pass.halt.error)]))
  {
    var reset := Init(p, false);
    if !isDirectory then
      reset.(log := reset.log + [Query(0, "The path " + p.root + " is not a directory.")])
    else
      var started := reset.(log := reset.log + [Query(0, "Initializing...")]);
      match read
      case ListFailed(error) => Init(started.(log := started.log + [Query(0, "An error occurred. " + error)]), false)
      case ReadFailed(error) =>
        Init(started.(log := started.log + [Query(0, "Reading files..."), Query(0, "An error occurred. " + error)]), false)
      case Loaded(files) =>
        var loaded := Started(p, files);
        var pass := Transform(loaded, 0, |files|, updaters, cancelAt, differ);
        TransformFrame(loaded, 0, |files|, updaters, cancelAt, differ);
        var s := pass.state;
        match pass.halt
        case Failed(error) => Init(s.(log := s.log + [Query(0, "An error occurred. " + error)]), false)
        case _ => s.(log := s.log + [Query(1000, "Update finished.")])
  }

  // ---------------------------------------------------------------- properties

  /** Running files i..c and then c..n is running i..n, unless the first part stopped early. */
  lemma {:induction false} LoopSplit(step: StepFn, p: Project, i: nat, c: nat, n: nat)
    requires Total(step)
    requires i <= c <= n <= |p.projectFiles|
    ensures var pre := Loop(step, p, i, c);
            Loop(step, p, i, n) == if pre.halt == Completed then Loop(step, pre.state, c, n) else pre
    decreases c - i
  {
    if i < c {
      var s := step(p, i);
      if s.halt == Completed {
        LoopSplit(step, s.state, i + 1, c, n);
      }
    }
  }

  lemma TransformSplit(p: Project, i: nat, c: nat, n: nat, updaters: seq<FileUpdater>,
                       cancelAt: Option<Landing>, differ: Differ)
    requires i <= c <= n <= |p.projectFiles|
    ensures var pre := Transform(p, i, c, updaters, cancelAt, differ);
            Transform(p, i, n, updaters, cancelAt, differ) ==
              if pre.halt == Completed then Transform(pre.state, c, n, updaters, cancelAt, differ) else pre
  {
    LoopSplit(StepOf(updaters, cancelAt, differ), p, i, c, n);
  }

  /** The cancellation only matters for the iteration during which `cancel()` lands. */
  lemma StepIgnoresOtherCancel(p: Project, i: nat, updaters: seq<FileUpdater>, cancelAt: Option<Landing>,
                               differ: Differ)
    requires i < |p.projectFiles|
    requires cancelAt.Some? ==> cancelAt.value.file != i
    ensures Step(p, i, updaters, cancelAt, differ) == Step(p, i, updaters, None, differ)
  {
  }

  /** Two steps that agree on files i..n-1 make the same loop over them. */
  lemma {:induction false} LoopAgree(step: StepFn, step': StepFn, p: Project, i: nat, n: nat)
    requires Total(step) && Total(step')
    requires i <= n <= |p.projectFiles|
    requires forall q: Project, k: nat :: i <= k < n && k < |q.projectFiles| ==> step(q, k) == step'(q, k)
    ensures Loop(step, p, i, n) == Loop(step', p, i, n)
    decreases n - i
  {
    if i < n {
      var s := step(p, i);
      if s.halt == Completed {
        LoopAgree(step, step', s.state, i + 1, n);
      }
    }
  }

  /** A cancellation that lands outside files i..n-1 does not affect them. */
  lemma CancelElsewhere(p: Project, i: nat, n: nat, updaters: seq<FileUpdater>, cancelAt: Option<Landing>,
                        differ: Differ)
    requires i <= n <= |p.projectFiles|
    requires cancelAt.Some? ==> cancelAt.value.file < i || n <= cancelAt.value.file
    ensures Transform(p, i, n, updaters, cancelAt, differ) == Transform(p, i, n, updaters, None, differ)
  {
    var step, step' := StepOf(updaters, cancelAt, differ), StepOf(updaters, None, differ);
    forall q: Project, k: nat | i <= k < n && k < |q.projectFiles|
      ensures step(q, k) == step'(q, k)
    {
      StepIgnoresOtherCancel(q, k, updaters, cancelAt, differ);
    }
    LoopAgree(step, step', p, i, n);
  }

  /**
   * `cancel()` landing at wait `w` of file i's iteration: the writes made
   * before it are merged, then everything is dropped, and the writes the
   * later plugins make are merged into the emptied overlay; the loop stops
   * without a progress event or a merge of the file's result. Only an
   * updater that throws before reaching the wait escapes the cancellation.
   */
  lemma StepCancelled(p: Project, i: nat, w: nat, updaters: seq<FileUpdater>, differ: Differ)
    requires i < |p.projectFiles|
    ensures var file := p.projectFiles[i];
            var o := Dispatch(updaters, file.path, file.content, p.projectFiles, Some(w));
            var q := ApplyWrites(p, o.writes, differ);
            var r := Step(p, i, updaters, Some(Landing(i, w)), differ);
            && (o.Threw? ==> r.halt == Failed(o.error))
            && (o.Returned? ==> r.halt == Cancelled)
            && (o.Threw? && o.late.None? ==> r.state == q)
            && (o.Returned? || o.late.Some? ==>
                  r.state == ApplyWrites(Cancel(q), if o.late.Some? then o.late.value else [], differ))
  {
  }

  /**
   * After a cancelled iteration the snapshot is gone and only files written
   * after `cancel()` landed are pending: when `cancel()` lands after the
   * updater's last plugin, or no later plugin writes, nothing is pending.
   */
  lemma CancelKeepsOnlyLateWrites(p: Project, i: nat, w: nat, updaters: seq<FileUpdater>, differ: Differ)
    requires i < |p.projectFiles|
    ensures var file := p.projectFiles[i];
            var o := Dispatch(updaters, file.path, file.content, p.projectFiles, Some(w));
            var late := if o.late.Some? then o.late.value else [];
            var r := Step(p, i, updaters, Some(Landing(i, w)), differ);
            r.halt == Cancelled || o.late.Some? ==>
              && r.state.isCanceled && r.state.projectFiles == []
              && (forall f :: f in r.state.changedFiles ==> HasPath(late, f.path))
              && (late == [] ==> r.state.changedFiles == [])
  {
    var file := p.projectFiles[i];
    var o := Dispatch(updaters, file.path, file.content, p.projectFiles, Some(w));
    var late := if o.late.Some? then o.late.value else [];
    var q := ApplyWrites(p, o.writes, differ);
    if o.Returned? || o.late.Some? {
      ApplyWritesPaths(Cancel(q), late, differ);
    }
  }

  /**
   * A cancellation landing at iteration c: files before c run exactly as in
   * an uncancelled run; then the loop stops at c with whatever `Step` makes of
   * the cancelled iteration (see `StepCancelled`), and no later file is
   * merged.
   */
  lemma CancelledRun(p: Project, c: nat, w: nat, n: nat, updaters: seq<FileUpdater>, differ: Differ)
    requires c < n <= |p.projectFiles|
    ensures var pre := Transform(p, 0, c, updaters, None, differ);
            var r := Transform(p, 0, n, updaters, Some(Landing(c, w)), differ);
            (pre.halt == Completed ==> r == Step(pre.state, c, updaters, Some(Landing(c, w)), differ) && r.halt != Completed)
            && (pre.halt != Completed ==> r == pre)
  {
    TransformSplit(p, 0, c, n, updaters, Some(Landing(c, w)), differ);
    CancelElsewhere(p, 0, c, updaters, Some(Landing(c, w)), differ);
    var pre := Transform(p, 0, c, updaters, None, differ);
    if pre.halt == Completed {
      StepCancelled(pre.state, c, w, updaters, differ);
    }
  }

  /** The determinate progress events of a log, in order. */
  ghost function Progress(log: seq<Event>): seq<Event>
    decreases |log|
  {
    if |log| == 0 then []
    else Progress(log[..|log| - 1]) + (if log[|log| - 1].Determinate? then [log[|log| - 1]] else [])
  }

  lemma {:induction false} ProgressAppend(a: seq<Event>, b: seq<Event>)
    ensures Progress(a + b) == Progress(a) + Progress(b)
    decreases |b|
  {
    if |b| == 0 {
      assert a + b == a;
    } else {
      var b' := b[..|b| - 1];
      assert (a + b)[..|a + b| - 1] == a + b';
      ProgressAppend(a, b');
    }
  }

  lemma {:induction false} ProgressOfDiffs(log: seq<Event>)
    requires forall k :: 0 <= k < |log| ==> log[k].FileDiff?
    ensures Progress(log) == []
    decreases |log|
  {
    if |log| > 0 {
      ProgressOfDiffs(log[..|log| - 1]);
    }
  }

  lemma ProgressAfterDiffs(log': seq<Event>, log: seq<Event>)
    requires AppendsDiffs(log', log)
    ensures Progress(log') == Progress(log)
  {
    var extra := log'[|log|..];
    assert log' == log + extra;
    ProgressAppend(log, extra);
    ProgressOfDiffs(extra);
  }

  /** An iteration that goes on to the next file publishes exactly one progress event, its own. */
  lemma StepProgress(p: Project, i: nat, updaters: seq<FileUpdater>, cancelAt: Option<Landing>, differ: Differ)
    requires i < |p.projectFiles|
    ensures var s := Step(p, i, updaters, cancelAt, differ);
            s.halt == Completed ==>
              Progress(s.state.log) == Progress(p.log) + [Tick(i, |p.projectFiles|, p.projectFiles[i].path)]
  {
    var file := p.projectFiles[i];
    var at := WaitAt(cancelAt, i);
    var o := Dispatch(updaters, file.path, file.content, p.projectFiles, at);
    if at.None? && o.Returned? {
      var q := ApplyWrites(p, o.writes, differ);
      var tick := Tick(i, |p.projectFiles|, file.path);
      var ticked := q.(log := q.log + [tick]);
      ProgressAfterDiffs(q.log, p.log);
      ProgressAppend(q.log, [tick]);
      assert Progress([tick]) == Progress([]) + [tick];
      AddFileAppendsDiffs(ticked, file.path, o.result, differ);
      ProgressAfterDiffs(AddFile(ticked, file.path, o.result, differ).log, ticked.log);
    }
  }

  /** The progress events files i..n-1 publish: fractions (i+1)/total up to n/total, in file order. */
  ghost function Ticks(files: seq<File>, i: nat, n: nat): seq<Event>
    requires i <= n <= |files|
    decreases n - i
  {
    if i == n then [] else [Tick(i, |files|, files[i].path)] + Ticks(files, i + 1, n)
  }

  /** Every step that goes on publishes exactly its own progress event. */
  ghost predicate TicksOnce(step: StepFn)
    requires Total(step)
  {
    forall q: Project, k: nat :: k < |q.projectFiles| && step(q, k).halt == Completed ==>
      Progress(step(q, k).state.log) == Progress(q.log) + [Tick(k, |q.projectFiles|, q.projectFiles[k].path)]
  }

  lemma {:induction false} LoopProgress(step: StepFn, p: Project, i: nat, n: nat)
    requires Total(step) && TicksOnce(step)
    requires i <= n <= |p.projectFiles|
    ensures var r := Loop(step, p, i, n);
            r.halt == Completed ==> Progress(r.state.log) == Progress(p.log) + Ticks(p.projectFiles, i, n)
    decreases n - i
  {
    if i < n {
      var s := step(p, i);
      if s.halt == Completed {
        LoopProgress(step, s.state, i + 1, n);
      }
    }
  }

  /**
   * A run that goes through files i..n-1 publishes one progress event per
   * file, in snapshot order, with fractions (k+1)/total strictly increasing.
   */
  lemma ProgressInOrder(p: Project, i: nat, n: nat, updaters: seq<FileUpdater>, cancelAt: Option<Landing>,
                        differ: Differ)
    requires i <= n <= |p.projectFiles|
    ensures var r := Transform(p, i, n, updaters, cancelAt, differ);
            r.halt == Completed ==> Progress(r.state.log) == Progress(p.log) + Ticks(p.projectFiles, i, n)
  {
    var step := StepOf(updaters, cancelAt, differ);
    forall q: Project, k: nat | k < |q.projectFiles| && step(q, k).halt == Completed
      ensures Progress(step(q, k).state.log) == Progress(q.log) + [Tick(k, |q.projectFiles|, q.projectFiles[k].path)]
    {
      StepProgress(q, k, updaters, cancelAt, differ);
    }
    LoopProgress(step, p, i, n);
  }

  /** An update that returns `content` itself and makes no write, before or after a cancellation. */
  ghost predicate Silent(o: Outcome, content: string) {
    o == Returned([], None, content) || o == Returned([], Some([]), content)
  }

  /** The updaters hand every file of i..n-1 back unchanged and make no writes, wherever `cancel()` lands. */
  ghost predicate Untouched(files: seq<File>, i: nat, n: nat, updaters: seq<FileUpdater>)
    requires i <= n <= |files|
  {
    forall j, at: Option<nat> :: i <= j < n ==> Silent(Dispatch(updaters, files[j].path, files[j].content, files, at), files[j].content)
  }

  /** An iteration whose file comes back unchanged only publishes its progress event. */
  lemma StepUntouched(p: Project, i: nat, updaters: seq<FileUpdater>, cancelAt: Option<Landing>, differ: Differ)
    requires i < |p.projectFiles|
    requires UniquePaths(p.projectFiles)
    requires forall k :: 0 <= k < |p.changedFiles| ==> p.changedFiles[k].path != p.projectFiles[i].path
    requires Silent(Dispatch(updaters, p.projectFiles[i].path, p.projectFiles[i].content, p.projectFiles, None),
                    p.projectFiles[i].content)
    requires cancelAt.Some? ==> cancelAt.value.file != i
    ensures Step(p, i, updaters, cancelAt, differ)
            == Pass(p.(log := p.log + [Tick(i, |p.projectFiles|, p.projectFiles[i].path)]), Completed)
  {
    var file := p.projectFiles[i];
    var ticked := p.(log := p.log + [Tick(i, |p.projectFiles|, file.path)]);
    assert ReadFile(ticked, file.path) == file.content;
    AddFileUntouched(ticked, file.path, differ);
  }

  /** `log'` is `log` followed by events none of which is a file event. */
  ghost predicate NoDiffsAfter(log': seq<Event>, log: seq<Event>) {
    IsPrefix(log, log') && forall k :: |log| <= k < |log'| ==> !log'[k].FileDiff?
  }

  lemma NoDiffsAfterTrans(a: seq<Event>, b: seq<Event>, c: seq<Event>)
    requires NoDiffsAfter(b, a) && NoDiffsAfter(c, b)
    ensures NoDiffsAfter(c, a)
  {
    assert c[..|a|] == c[..|b|][..|a|];
  }

  /**
   * On snapshot `files` with nothing pending, each step of i..n-1 leaves
   * nothing pending, publishes no file event and does not fail.
   */
  ghost predicate Quiet(step: StepFn, files: seq<File>, i: nat, n: nat)
    requires Total(step)
  {
    forall q: Project, k: nat :: q.projectFiles == files && q.changedFiles == [] && i <= k < n && k < |files| ==>
      step(q, k).state.changedFiles == [] && NoDiffsAfter(step(q, k).state.log, q.log) && !step(q, k).halt.Failed?
  }

  lemma {:induction false} LoopQuiet(step: StepFn, p: Project, i: nat, n: nat)
    requires Total(step) && Quiet(step, p.projectFiles, i, n)
    requires i <= n <= |p.projectFiles|
    requires p.changedFiles == []
    ensures var r := Loop(step, p, i, n);
            r.state.changedFiles == [] && NoDiffsAfter(r.state.log, p.log) && !r.halt.Failed?
    decreases n - i
  {
    if i < n {
      var s := step(p, i);
      if s.halt == Completed {
        LoopQuiet(step, s.state, i + 1, n);
        NoDiffsAfterTrans(p.log, s.state.log, Loop(step, s.state, i + 1, n).state.log);
      }
    }
  }

  /**
   * A run over a snapshot with distinct paths, in which every file comes back
   * unchanged, publishes no file event and leaves nothing pending, so
   * `writeChanges` has nothing to do.
   */
  lemma UntouchedRunIsSilent(p: Project, i: nat, n: nat, updaters: seq<FileUpdater>,
                             cancelAt: Option<Landing>, differ: Differ)
    requires i <= n <= |p.projectFiles|
    requires UniquePaths(p.projectFiles)
    requires p.changedFiles == []
    requires Untouched(p.projectFiles, i, n, updaters)
    ensures var r := Transform(p, i, n, updaters, cancelAt, differ);
            && r.state.changedFiles == []
            && (forall k :: |p.log| <= k < |r.state.log| ==> !r.state.log[k].FileDiff?)
            && !r.halt.Failed?
  {
    var step := StepOf(updaters, cancelAt, differ);
    forall q: Project, k: nat | q.projectFiles == p.projectFiles && q.changedFiles == [] && i <= k < n && k < |p.projectFiles|
      ensures step(q, k).state.changedFiles == [] && NoDiffsAfter(step(q, k).state.log, q.log) && !step(q, k).halt.Failed?
    {
      var file := q.projectFiles[k];
      var at := WaitAt(cancelAt, k);
      assert Silent(Dispatch(updaters, file.path, file.content, q.projectFiles, at), file.content);
      if at.None? {
        assert Silent(Dispatch(updaters, file.path, file.content, q.projectFiles, None), file.content);
        StepUntouched(q, k, updaters, cancelAt, differ);
        var s := step(q, k).state;
        assert s.log == q.log + [Tick(k, |q.projectFiles|, file.path)];
      } else {
        assert step(q, k).state == Cancel(q);
      }
    }
    LoopQuiet(step, p, i, n);
  }

  /**
   * `update()` on a listed directory whose files all come back unchanged
   * without writes, wherever `cancel()` lands: no error is reported, the run
   * ends with "Update finished.", no file event is published and nothing is
   * left for `writeChanges`.
   */
  lemma UntouchedUpdateIsSilent(p: Project, files: seq<File>, updaters: seq<FileUpdater>,
                                cancelAt: Option<Landing>, differ: Differ)
    requires UniquePaths(Snapshot(files))
    requires Untouched(Snapshot(files), 0, |files|, updaters)
    ensures var r := Update(p, true, Loaded(files), updaters, cancelAt, differ);
            && r.changedFiles == []
            && r.log[|r.log| - 1] == Query(1000, "Update finished.")
            && forall k :: |p.log| <= k < |r.log| ==> !r.log[k].FileDiff?
  {
    var s := Started(p, files);
    UntouchedRunIsSilent(s, 0, |files|, updaters, cancelAt, differ);
  }

  // ---------------------------------------------------------------- the text adapter as an updater

  /**
   * A text plugin: the adapter it is bound to (`this`, holding the detected
   * line ending), the lines, the path and the snapshot it may read; its
   * answer and its writes.
   */
  type TextPlugin = (TextUpdater.TextUpdater, seq<string>, string, seq<File>) -> Pipeline.Step<seq<string>, File>

  /** The snapshot plugin `k` reads: the emptied one from the wait where `cancel()` lands on. */
  function View(snapshot: seq<File>, at: Option<nat>, k: nat): (v: seq<File>)
    ensures v == snapshot || v == []
    ensures v == [] <==> (at.Some? && at.value <= k) || snapshot == []
  {
    if at.Some? && at.value <= k then [] else snapshot
  }

  /** The plugins with `this`, the file's path and the overlay bound, as `p.bind(this)` and the call site do. */
  function Bind(plugins: seq<TextPlugin>, self: TextUpdater.TextUpdater, path: string, snapshot: seq<File>,
                at: Option<nat>)
    : (bound: seq<seq<string> -> Pipeline.Step<seq<string>, File>>)
    ensures |bound| == |plugins|
    ensures forall k, lines :: 0 <= k < |plugins| ==> bound[k](lines) == plugins[k](self, lines, path, View(snapshot, at, k))
  {
    seq(|plugins|, k requires 0 <= k < |plugins| => BindOne(plugins[k], self, path, View(snapshot, at, k)))
  }

  function BindOne(plugin: TextPlugin, self: TextUpdater.TextUpdater, path: string, view: seq<File>)
    : seq<string> -> Pipeline.Step<seq<string>, File>
  {
    lines => plugin(self, lines, path, view)
  }

  /** `TextUpdater` registered with the project updater. */
  function TextFileUpdater(platformEol: string, getEol: string -> string, plugins: seq<TextPlugin>): FileUpdater
    requires forall s :: |getEol(s)| > 0
  {
    FileUpdater(
      TextUpdater.Supports,
      (src: string, path: string, snapshot: seq<File>, at: Option<nat>) =>
        var t := TextUpdater.Create(platformEol);
        var self := TextUpdater.ConvertToNode(t, src, getEol).0;
        var u := TextUpdater.Update(t, src, getEol, Bind(plugins, self, path, snapshot, at), at).1;
        Returned(u.effects, u.late, u.text))
  }

  /**
   * Text plugins that always answer `void`, leave the lines as they are and
   * write nothing make the text updater an identity, wherever `cancel()` lands.
   */
  lemma QuietTextUpdater(platformEol: string, getEol: string -> string, plugins: seq<TextPlugin>,
                         src: string, path: string, snapshot: seq<File>, at: Option<nat>)
    requires forall s :: |getEol(s)| > 0
    requires forall k, self, lines, q, files :: 0 <= k < |plugins| ==>
               plugins[k](self, lines, q, files) == Pipeline.Step(Pipeline.Kept(lines), [])
    ensures Silent(TextFileUpdater(platformEol, getEol, plugins).update(src, path, snapshot, at), src)
  {
    var t := TextUpdater.Create(platformEol);
    var self := TextUpdater.ConvertToNode(t, src, getEol).0;
    var bound := Bind(plugins, self, path, snapshot, at);
    var lines := Strings.Split(src, getEol(src));
    TextUpdater.UntouchedTextIsVerbatim(t, src, getEol, bound, at);
    Pipeline.AllUnchangedKeepsNode(lines, bound);
    QuietEffects(lines, bound);
    var u := TextUpdater.Update(t, src, getEol, bound, at).1;
    if u.late.Some? {
      assert u.effects + u.late.value == [];
    }
  }

  /** A text plugin that answers `void` and writes nothing. */
  function KeepLines(self: TextUpdater.TextUpdater, lines: seq<string>, path: string, files: seq<File>)
    : Pipeline.Step<seq<string>, File>
  {
    Pipeline.Step(Pipeline.Kept(lines), [])
  }

  /** A text plugin that answers `void` after `main.addFile("x", "hi")`. */
  function WriteX(self: TextUpdater.TextUpdater, lines: seq<string>, path: string, files: seq<File>)
    : Pipeline.Step<seq<string>, File>
  {
    Pipeline.Step(Pipeline.Kept(lines), [File("x", "hi")])
  }

  /** With `cancel()` at the wait before `WriteX`, its write is the only one, and it comes after the cancellation. */
  lemma WriteAfterWait(platformEol: string, getEol: string -> string, snapshot: seq<File>)
    requires forall s :: |getEol(s)| > 0
    ensures var o := TextFileUpdater(platformEol, getEol, [KeepLines, WriteX]).update("t", "notes", snapshot, Some(1));
            o.Returned? && o.writes == [] && o.late == Some([File("x", "hi")])
  {
    var t := TextUpdater.Create(platformEol);
    var self := TextUpdater.ConvertToNode(t, "t", getEol).0;
    var bound := Bind([KeepLines, WriteX], self, "notes", snapshot, Some(1));
    var lines := Strings.Split("t", getEol("t"));
    assert bound[..1] == [bound[0]] && bound[1..] == [bound[1]];
    Pipeline.RunOne(lines, bound[0]);
    Pipeline.RunOne(lines, bound[1]);
    assert Pipeline.Reaches(lines, bound, Some(1));
  }

  /**
   * `cancel()` landing between two text plugins of the file `notes`: the
   * second plugin's `main.addFile("x", "hi")` reaches the emptied overlay, so
   * once the loop stops, x is pending with its "new file" event although the
   * snapshot is gone.
   */
  lemma LateWriteSurvivesCancel(p: Project, platformEol: string, getEol: string -> string, differ: Differ)
    requires forall s :: |getEol(s)| > 0
    requires p.projectFiles == [File("notes", "t")] && p.changedFiles == []
    ensures var r := Step(p, 0, [TextFileUpdater(platformEol, getEol, [KeepLines, WriteX])], Some(Landing(0, 1)), differ);
            && r.halt == Cancelled
            && r.state.isCanceled && r.state.projectFiles == []
            && r.state.changedFiles == [File("x", "hi")]
            && |r.state.log| == |p.log| + 1 && r.state.log[|p.log|].FileDiff? && r.state.log[|p.log|].path == "x"
  {
    var updater := TextFileUpdater(platformEol, getEol, [KeepLines, WriteX]);
    assert TextUpdater.MatchesAt("notes", 0);
    assert updater.supports("notes");
    WriteAfterWait(platformEol, getEol, p.projectFiles);
    StepCancelled(p, 0, 1, [updater], differ);
    var c := Cancel(p);
    assert DiffBase(c, "x") == "";
    assert ApplyWrites(c, [File("x", "hi")], differ) == AddFile(c, "x", "hi", differ);
  }

  lemma {:induction false} QuietEffects(lines: seq<string>, bound: seq<seq<string> -> Pipeline.Step<seq<string>, File>>)
    requires forall k :: 0 <= k < |bound| ==> bound[k](lines) == Pipeline.Step(Pipeline.Kept(lines), [])
    ensures Pipeline.RunPlugins(lines, bound).effects == []
    decreases |bound|
  {
    if |bound| > 0 {
      QuietEffects(lines, bound[1..]);
    }
  }
}

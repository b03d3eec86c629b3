/**
 * `BaseUpdater.update`: the plugin pipeline, generic over the node type `N`
 * of a format adapter. Each plugin sees the node the previous plugins left;
 * the `path` and overlay handle it also receives are bound by the caller.
 * Nodes are values: an edit a plugin makes in place is the node it leaves.
 */
module Pipeline {
  import opened Optional

  /**
   * A plugin's answer. `Kept(left)`: it returned `void` or another falsy
   * value, and the pipeline goes on with the node it received as the plugin
   * left it, in-place edits included. `Replace(node)`: it returned a node.
   * `Delete`: it returned `null`.
   */
  datatype Verdict<N> = Kept(left: N) | Replace(node: N) | Delete

  /** A plugin's answer together with the overlay writes (`main.addFile` calls) it made. */
  datatype Step<N, E> = Step(verdict: Verdict<N>, effects: seq<E>)

  /** Where the plugins left the node (None once one asked for deletion), and all their writes. */
  datatype Run<N, E> = Run(node: Option<N>, effects: seq<E>)

  /**
   * The text `update` returns; the overlay writes the plugins made before
   * `cancel()` landed at one of the waits (all of them when it did not), and
   * the writes made after it (None when it did not land during the loop).
   */
  datatype Updated<E> = Updated(text: string, effects: seq<E>, late: Option<seq<E>>)

  /** `supports(path)`: the adapter's pattern matches at some position of the path. */
  predicate Supports(matchesAt: (string, nat) -> bool, path: string) {
    exists i :: 0 <= i <= |path| && matchesAt(path, i)
  }

  /** The plugin loop of `update`: in list order, stopping at the first deletion. */
  function RunPlugins<N, E>(node: N, plugins: seq<N -> Step<N, E>>): Run<N, E>
    decreases |plugins|
  {
    if |plugins| == 0 then Run(Some(node), [])
    else
      var step := plugins[0](node);
      match step.verdict
      case Delete => Run(None, step.effects)
      case Kept(left) =>
        var rest := RunPlugins(left, plugins[1..]);
        Run(rest.node, step.effects + rest.effects)
      case Replace(next) =>
        var rest := RunPlugins(next, plugins[1..]);
        Run(rest.node, step.effects + rest.effects)
  }

  /**
   * `cancel()` landing at the wait before plugin `landing` happens inside the
   * loop exactly when the loop gets that far: there is such a plugin and none
   * before it asked for deletion.
   */
  predicate Reaches<N, E>(node: N, plugins: seq<N -> Step<N, E>>, landing: Option<nat>) {
    landing.Some? && landing.value < |plugins| && RunPlugins(node, plugins[..landing.value]).node.Some?
  }

  /**
   * `update(src)`: "" when a plugin deleted the file; otherwise the
   * serialised final node, except that `src` itself comes back when that
   * serialisation equals the plain parse-then-serialise of `src`. The
   * plugins' writes are split at the wait where `cancel()` lands (`landing`
   * counts the plugins before it); the caller hands the plugins from there
   * on the cancelled overlay.
   */
  function Update<N, E>(src: string, parse: string -> N, serialize: N -> string, plugins: seq<N -> Step<N, E>>,
                        landing: Option<nat>)
    : (u: Updated<E>)
    ensures var run := RunPlugins(parse(src), plugins);
            && (run.node.None? ==> u.text == "")
            && (run.node.Some? ==>
                  u.text == (if serialize(run.node.value) == serialize(parse(src)) then src else serialize(run.node.value)))
            && u.effects + (if u.late.Some? then u.late.value else []) == run.effects
    ensures u.late.Some? <==> Reaches(parse(src), plugins, landing)
    ensures u.late.Some? ==>
              var early := RunPlugins(parse(src), plugins[..landing.value]);
              u.effects == early.effects && u.late.value == RunPlugins(early.node.value, plugins[landing.value..]).effects
  {
    var original := serialize(parse(src));
    var run := RunPlugins(parse(src), plugins);
    var text := if run.node.None? then "" else if serialize(run.node.value) == original then src else serialize(run.node.value);
    if Reaches(parse(src), plugins, landing) then
      var k := landing.value;
      var early := RunPlugins(parse(src), plugins[..k]);
      var late := RunPlugins(early.node.value, plugins[k..]);
      RunAppend(parse(src), plugins[..k], plugins[k..]);
      assert plugins[..k] + plugins[k..] == plugins;
      Updated(text, early.effects, Some(late.effects))
    else
      Updated(text, run.effects, None)
  }

  /**
   * Running two plugin lists back to back: the second list starts from the
   * node the first left, and never runs once the first asked for deletion.
   */
  lemma {:induction false} RunAppend<N, E>(node: N, ps: seq<N -> Step<N, E>>, qs: seq<N -> Step<N, E>>)
    ensures var a := RunPlugins(node, ps);
            RunPlugins(node, ps + qs) ==
              match a.node
              case None => a
              case Some(m) => Run(RunPlugins(m, qs).node, a.effects + RunPlugins(m, qs).effects)
    decreases |ps|
  {
    if |ps| == 0 {
      assert ps + qs == qs;
    } else {
      assert (ps + qs)[0] == ps[0];
      assert (ps + qs)[1..] == ps[1..] + qs;
      var step := ps[0](node);
      match step.verdict
      case Delete =>
      case Kept(left) =>
        RunAppend(left, ps[1..], qs);
      case Replace(next) =>
        RunAppend(next, ps[1..], qs);
    }
  }

  /** One plugin: `void` goes on with the node as left, a node replaces it, `null` deletes. */
  lemma RunOne<N, E>(node: N, plugin: N -> Step<N, E>)
    ensures var step := plugin(node);
            RunPlugins(node, [plugin]) ==
              match step.verdict
              case Kept(left) => Run(Some(left), step.effects)
              case Replace(next) => Run(Some(next), step.effects)
              case Delete => Run(None, step.effects)
  {
    var step := plugin(node);
    assert [plugin][1..] == [];
  }

  /**
   * A plugin answering `null` to the node it receives ends the pipeline:
   * whatever plugins follow it, the file is deleted and they make no writes.
   */
  lemma DeleteStopsRemaining<N, E>(node: N, ps: seq<N -> Step<N, E>>, d: N -> Step<N, E>, qs: seq<N -> Step<N, E>>,
                                   parse: string -> N, serialize: N -> string, src: string, landing: Option<nat>)
    requires parse(src) == node
    requires RunPlugins(node, ps).node.Some?
    requires d(RunPlugins(node, ps).node.value).verdict.Delete?
    ensures RunPlugins(node, ps + [d] + qs) ==
              Run(None, RunPlugins(node, ps).effects + d(RunPlugins(node, ps).node.value).effects)
    ensures Update(src, parse, serialize, ps + [d] + qs, landing).text == ""
  {
    RunAppend(node, ps + [d], qs);
    RunAppend(node, ps, [d]);
    RunOne(RunPlugins(node, ps).node.value, d);
  }

  /**
   * When every plugin answers `void` to the parsed node and leaves it as it
   * was (in particular when there are no plugins), `update` returns `src`
   * unchanged, whatever the serialiser does to it.
   */
  lemma {:induction false} UntouchedIsVerbatim<N, E>(src: string, parse: string -> N, serialize: N -> string,
                                                    plugins: seq<N -> Step<N, E>>, landing: Option<nat>)
    requires forall k :: 0 <= k < |plugins| ==> plugins[k](parse(src)).verdict == Kept(parse(src))
    ensures Update(src, parse, serialize, plugins, landing).text == src
  {
    AllUnchangedKeepsNode(parse(src), plugins);
  }

  /** Plugins that all answer `void` and leave the node as it was keep the parsed node. */
  lemma {:induction false} AllUnchangedKeepsNode<N, E>(node: N, plugins: seq<N -> Step<N, E>>)
    requires forall k :: 0 <= k < |plugins| ==> plugins[k](node).verdict == Kept(node)
    ensures RunPlugins(node, plugins).node == Some(node)
    decreases |plugins|
  {
    if |plugins| > 0 {
      AllUnchangedKeepsNode(node, plugins[1..]);
    }
  }
}

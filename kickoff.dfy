/**
 * The launcher (nbkickoff/nbkickoff.py): finding the running notebook
 * server whose root directory holds a notebook, deciding between opening
 * the notebook there and launching a new server, and parsing the
 * `NAME=VALUE` template variables of the command line.
 */
module Kickoff {
  import opened Wrappers
  import opened Text
  import opened Dicts

  /**
   * A POSIX path as `pathlib` splits it into parts; an absolute path
   * starts with its anchor: `Path('/srv/nb/a.ipynb').parts` is
   * `('/', 'srv', 'nb', 'a.ipynb')`.
   */
  type PathParts = seq<string>

  /** The path is anchored at the root, so its first part begins with `/`. */
  predicate IsAbsolute(path: PathParts) {
    |path| > 0 && |path[0]| > 0 && path[0][0] == '/'
  }

  /**
   * `path.relative_to(root)`: the parts of `path` that follow the parts
   * of `root`, or `None` where it raises `ValueError`. An empty `root`
   * (`Path('')`) is refused for an absolute `path`.
   */
  function RelativeTo(path: PathParts, root: PathParts): (r: Option<PathParts>)
    ensures r.Some? ==> root + r.value == path
    ensures r.None? ==> !(root <= path) || (root == [] && IsAbsolute(path))
  {
    if |root| == 0 then
      if IsAbsolute(path) then None else Some(path)
    else if |root| <= |path| && path[..|root|] == root then Some(path[|root|..])
    else None
  }

  /**
   * `is_relative_to`: `relative_to` succeeds, which is exactly when the
   * parts of `root` are a prefix of those of `path` (an empty `root` only
   * for a relative `path`).
   */
  predicate IsRelativeTo(path: PathParts, root: PathParts)
    ensures IsRelativeTo(path, root) <==> root <= path && (root == [] ==> !IsAbsolute(path))
  {
    RelativeTo(path, root).Some?
  }

  /** Every path lies under itself, with nothing left over. */
  lemma RelativeToSelf(path: PathParts)
    ensures RelativeTo(path, path) == Some([])
  {
    assert path[..|path|] == path && path[|path|..] == [];
  }

  /** Lying under is transitive. */
  lemma IsRelativeToTransitive(a: PathParts, b: PathParts, c: PathParts)
    requires IsRelativeTo(a, b) && IsRelativeTo(b, c)
    ensures IsRelativeTo(a, c)
  {
  }

  /** The match is by whole parts: `/abc` is not an ancestor of `/abcd/x`, though it is a string prefix. */
  lemma PartsNotCharacters()
    ensures "/abc" <= "/abcd/x"
    ensures !IsRelativeTo(["/", "abcd", "x"], ["/", "abc"])
  {
    assert ["/", "abcd", "x"][..2] == ["/", "abcd"];
    assert ["/", "abcd"][1] != ["/", "abc"][1];
  }

  /** An entry of `notebookapp.list_running_servers()`: its root directory and its base URL. */
  datatype ServerRecord = ServerRecord(notebookDir: PathParts, url: string)

  /** `len(Path(s['notebook_dir']).parts)`. */
  function Depth(server: ServerRecord): nat {
    |server.notebookDir|
  }

  /** The server can open the notebook at `target`: it lies under the server's root. */
  predicate Serves(target: PathParts, server: ServerRecord) {
    IsRelativeTo(target, server.notebookDir)
  }

  /** The list comprehension of `find_running_server`: the servers that serve `target`, in order. */
  function Matching(target: PathParts, servers: seq<ServerRecord>): (r: seq<ServerRecord>)
    ensures forall s :: s in r ==> s in servers && Serves(target, s)
  {
    if servers == [] then []
    else if Serves(target, servers[0]) then [servers[0]] + Matching(target, servers[1..])
    else Matching(target, servers[1..])
  }

  /**
   * Python's `max` by depth, continued from the deepest record `best`
   * found so far: a later record replaces it only when strictly deeper.
   */
  function MaxByDepth(best: ServerRecord, rest: seq<ServerRecord>): (r: ServerRecord)
    ensures r == best || r in rest
    decreases |rest|
  {
    if rest == [] then best
    else MaxByDepth(if Depth(rest[0]) > Depth(best) then rest[0] else best, rest[1..])
  }

  /** `find_running_server` on the resolved target and the listed servers. */
  function FindRunningServer(target: PathParts, servers: seq<ServerRecord>): (r: Option<ServerRecord>)
    ensures r.Some? ==> r.value in servers && Serves(target, r.value)
  {
    var matching := Matching(target, servers);
    if |matching| > 0 then Some(MaxByDepth(matching[0], matching[1..])) else None
  }

  /**
   * Record `i` is the one to use: it serves `target`, no serving record
   * is deeper, and every serving record before it is shallower.
   */
  predicate IsFirstDeepest(target: PathParts, servers: seq<ServerRecord>, i: int) {
    0 <= i < |servers| && Serves(target, servers[i]) &&
    (forall j :: 0 <= j < |servers| && Serves(target, servers[j]) ==> Depth(servers[j]) <= Depth(servers[i])) &&
    (forall j :: 0 <= j < i && Serves(target, servers[j]) ==> Depth(servers[j]) < Depth(servers[i]))
  }

  /**
   * Continuing `max` from `best` over the servers of `s` that serve
   * `target`: `k == -1` when `best` stays (no such server is deeper),
   * otherwise `s[k]` is the first of the deepest ones and deeper than `best`.
   */
  lemma {:induction false} MaxByDepthOfMatching(target: PathParts, best: ServerRecord, s: seq<ServerRecord>)
    returns (k: int)
    ensures -1 <= k < |s|
    ensures k == -1 ==>
      MaxByDepth(best, Matching(target, s)) == best &&
      forall j :: 0 <= j < |s| && Serves(target, s[j]) ==> Depth(s[j]) <= Depth(best)
    ensures k >= 0 ==>
      MaxByDepth(best, Matching(target, s)) == s[k] && Depth(best) < Depth(s[k]) &&
      IsFirstDeepest(target, s, k)
    decreases |s|
  {
    if s == [] {
      return -1;
    }
    var rest := s[1..];
    if Serves(target, s[0]) {
      assert Matching(target, s) == [s[0]] + Matching(target, rest);
      var m := [s[0]] + Matching(target, rest);
      assert m[0] == s[0] && m[1..] == Matching(target, rest);
      if Depth(s[0]) > Depth(best) {
        var k' := MaxByDepthOfMatching(target, s[0], rest);
        k := if k' == -1 then 0 else k' + 1;
      } else {
        var k' := MaxByDepthOfMatching(target, best, rest);
        k := if k' == -1 then -1 else k' + 1;
      }
    } else {
      var k' := MaxByDepthOfMatching(target, best, rest);
      k := if k' == -1 then -1 else k' + 1;
    }
  }

  /** `find_running_server` returns record `k`, the first of the deepest serving records, or `None` (`k == -1`). */
  lemma {:induction false} FindRunningServerIndex(target: PathParts, servers: seq<ServerRecord>)
    returns (k: int)
    ensures -1 <= k < |servers|
    ensures k == -1 ==>
      FindRunningServer(target, servers) == None &&
      forall j :: 0 <= j < |servers| ==> !Serves(target, servers[j])
    ensures k >= 0 ==>
      FindRunningServer(target, servers) == Some(servers[k]) && IsFirstDeepest(target, servers, k)
    decreases |servers|
  {
    if servers == [] {
      return -1;
    }
    var rest := servers[1..];
    if Serves(target, servers[0]) {
      assert Matching(target, servers) == [servers[0]] + Matching(target, rest);
      var k' := MaxByDepthOfMatching(target, servers[0], rest);
      k := if k' == -1 then 0 else k' + 1;
    } else {
      var k' := FindRunningServerIndex(target, rest);
      k := if k' == -1 then -1 else k' + 1;
    }
  }

  /**
   * `find_running_server` returns `None` exactly when no record serves the
   * target; otherwise a listed record that serves it, with the deepest
   * root, the first such in list order.
   */
  lemma FindRunningServerSpec(target: PathParts, servers: seq<ServerRecord>)
    ensures FindRunningServer(target, servers).None? <==>
      forall j :: 0 <= j < |servers| ==> !Serves(target, servers[j])
    ensures FindRunningServer(target, servers).Some? ==>
      exists k :: IsFirstDeepest(target, servers, k) && servers[k] == FindRunningServer(target, servers).value
  {
    var k := FindRunningServerIndex(target, servers);
    if k >= 0 {
      assert IsFirstDeepest(target, servers, k) && servers[k] == FindRunningServer(target, servers).value;
    }
  }

  /** Servers rooted at `/a` and at `/a/b`: the notebook `/a/b/c/file` opens in the one at `/a/b`. */
  lemma MostSpecificRootExample(outer: ServerRecord, inner: ServerRecord)
    requires outer.notebookDir == ["/", "a"] && inner.notebookDir == ["/", "a", "b"]
    ensures FindRunningServer(["/", "a", "b", "c", "file"], [outer, inner]) == Some(inner)
    ensures FindRunningServer(["/", "a", "b", "c", "file"], [inner, outer]) == Some(inner)
  {
    var target := ["/", "a", "b", "c", "file"];
    assert target[..2] == outer.notebookDir;
    assert target[..3] == inner.notebookDir;
    assert Matching(target, [outer, inner]) == [outer, inner] by {
      assert [outer, inner][1..] == [inner];
      assert Matching(target, [inner]) == [inner];
    }
    assert Matching(target, [inner, outer]) == [inner, outer] by {
      assert [inner, outer][1..] == [outer];
      assert Matching(target, [outer]) == [outer];
    }
  }

  /** What `open_notebook` does for a notebook. */
  datatype OpenAction =
    | OpenInBrowser(server: ServerRecord, relativePath: PathParts)  // open it in a browser tab of this server
    | LaunchServer(command: seq<string>)                            // spawn a detached server with this command

  /**
   * `open_notebook`: `notebookFile` as given, `resolved` its resolved
   * parts, `servers` the running servers and `executable` the Python
   * interpreter (`sys.executable`).
   */
  function OpenNotebook(notebookFile: string, resolved: PathParts, servers: seq<ServerRecord>, executable: string)
    : (a: OpenAction)
    ensures a.OpenInBrowser? ==>
      a.server in servers && Serves(resolved, a.server) && a.server.notebookDir + a.relativePath == resolved
  {
    match FindRunningServer(resolved, servers)
    case Some(server) =>
      OpenInBrowser(server, RelativeTo(resolved, server.notebookDir).value)
    case None =>
      LaunchServer([executable, "-m", "notebook", "--NotebookApp.open_browser=True", notebookFile])
  }

  /**
   * A new server, run as `python -m notebook` on the notebook, is
   * launched exactly when no running server serves it; otherwise the
   * notebook opens in the server `find_running_server` picks.
   */
  lemma OpenNotebookSpec(notebookFile: string, resolved: PathParts, servers: seq<ServerRecord>, executable: string)
    ensures OpenNotebook(notebookFile, resolved, servers, executable).LaunchServer? <==>
      forall j :: 0 <= j < |servers| ==> !Serves(resolved, servers[j])
    ensures OpenNotebook(notebookFile, resolved, servers, executable).LaunchServer? ==>
      OpenNotebook(notebookFile, resolved, servers, executable).command ==
        [executable, "-m", "notebook", "--NotebookApp.open_browser=True", notebookFile]
    ensures OpenNotebook(notebookFile, resolved, servers, executable).OpenInBrowser? ==>
      Some(OpenNotebook(notebookFile, resolved, servers, executable).server) == FindRunningServer(resolved, servers)
  {
    FindRunningServerSpec(resolved, servers);
  }

  /** The error `argparse` reports for a malformed argument. */
  datatype ArgumentError = ArgumentTypeError(message: string)

  /**
   * `parse_template_var`: `NAME=VALUE` becomes `{NAME: VALUE}`, split at
   * the first `=`; an argument without `=` is refused.
   */
  function ParseTemplateVar(s: string): (r: Result<Dict, ArgumentError>)
    ensures r.Failure? <==> '=' !in s
    ensures r.Failure? ==> r.error == ArgumentTypeError("Invalid template variable specification: " + s)
    ensures r.Success? ==>
      |r.value| == 1 && '=' !in r.value[0].0 && r.value[0].0 + "=" + r.value[0].1 == s
  {
    match IndexOf(s, '=')
    case None =>
      var failure: Result<Dict, ArgumentError> :=
        Failure(ArgumentTypeError("Invalid template variable specification: " + s));
      failure
    case Some(i) =>
      assert s[..i] + "=" + s[i + 1..] == s;
      SingletonIsDict(s[..i], s[i + 1..]);
      var entry: Dict := [(s[..i], s[i + 1..])];
      Success(entry)
  }

  /** Parsing inverts writing a variable out: any name without `=`, any value (which may hold `=`). */
  lemma ParseTemplateVarRoundTrip(name: string, value: string)
    requires '=' !in name
    ensures DistinctKeys([(name, value)])
    ensures ParseTemplateVar(name + "=" + value) == Success([(name, value)])
  {
    var s := name + "=" + value;
    assert s[|name|] == '=';
    var r := ParseTemplateVar(s);
    var n := r.value[0].0;
    // Both `n` and `name` are the part of `s` before its first `=`.
    assert s[..|name|] == name;
    assert n == s[..|n|] == name;
    assert r.value[0].1 == value;
    assert r.value == [(name, value)];
  }

  /**
   * The dict `DictMergeAction` builds: the values merged, one after the
   * other, into `start` (`current_dict = {**current_dict, **v}`).
   */
  function MergedAll(start: Dict, values: seq<Dict>): Dict
    decreases |values|
  {
    if values == [] then start
    else Update(MergedAll(start, values[..|values| - 1]), values[|values| - 1])
  }

  /** The merged names are the starting names and all names of the values. */
  lemma {:induction false} MergedAllKeys(start: Dict, values: seq<Dict>, k: string)
    ensures k in Keys(MergedAll(start, values)) <==>
      k in Keys(start) || exists i :: 0 <= i < |values| && k in Keys(values[i])
    decreases |values|
  {
    if values != [] {
      var init := values[..|values| - 1];
      MergedAllKeys(start, init, k);
      if exists i :: 0 <= i < |values| && k in Keys(values[i]) {
        var i :| 0 <= i < |values| && k in Keys(values[i]);
        if i < |values| - 1 {
          assert init[i] == values[i];
        }
      }
      assert forall i :: 0 <= i < |init| ==> init[i] == values[i];
    }
  }

  /** For a name some value binds, the last value binding it wins. */
  lemma {:induction false} MergedAllLastWins(start: Dict, values: seq<Dict>, k: string, i: int)
    requires 0 <= i < |values| && k in Keys(values[i])
    requires forall j :: i < j < |values| ==> k !in Keys(values[j])
    ensures Lookup(MergedAll(start, values), k) == Lookup(values[i], k)
    decreases |values|
  {
    var init := values[..|values| - 1];
    if i < |values| - 1 {
      assert init[i] == values[i];
      MergedAllLastWins(start, init, k, i);
    }
  }

  /** A name no value binds keeps its starting binding (or stays unbound). */
  lemma {:induction false} MergedAllKeepsStart(start: Dict, values: seq<Dict>, k: string)
    requires forall j :: 0 <= j < |values| ==> k !in Keys(values[j])
    ensures Lookup(MergedAll(start, values), k) == Lookup(start, k)
    decreases |values|
  {
    if values != [] {
      var init := values[..|values| - 1];
      assert forall j :: 0 <= j < |init| ==> init[j] == values[j];
      MergedAllKeepsStart(start, init, k);
    }
  }

  /** The names of all values, one value after the other. */
  function AllNames(values: seq<Dict>): seq<string>
    decreases |values|
  {
    if values == [] then []
    else AllNames(values[..|values| - 1]) + Names(values[|values| - 1])
  }

  /**
   * The order of the merged dict: the starting names keep their places,
   * then every other name follows in the order it was first given.
   */
  lemma {:induction false} MergedAllNames(start: Dict, values: seq<Dict>)
    ensures Names(MergedAll(start, values)) == Names(start) + NewNames(AllNames(values), Keys(start))
    decreases |values|
  {
    if values != [] {
      var init := values[..|values| - 1];
      MergedAllNames(start, init);
      UpdateExtendsNames(MergedAll(start, init), start, AllNames(init), values[|values| - 1]);
    }
  }

  /**
   * `argparse.Namespace`, reduced to its attributes holding template
   * variable dicts; `None` in the map is an attribute set to Python `None`.
   */
  class Namespace {
    var attributes: map<string, Option<Dict>>

    constructor (attributes: map<string, Option<Dict>>)
      ensures this.attributes == attributes
    {
      this.attributes := attributes;
    }
  }

  /** The dict `DictMergeAction` starts from: the attribute's current dict, or `{}` when it is missing or `None`. */
  function StartingDict(attributes: map<string, Option<Dict>>, dest: string): Dict {
    if dest in attributes && attributes[dest].Some? then attributes[dest].value else []
  }

  /** The `argparse` action that merges the parsed `NAME=VALUE` dicts into the destination attribute. */
  class DictMergeAction {
    const dest: string

    constructor (dest: string)
      ensures this.dest == dest
    {
      this.dest := dest;
    }

    /** `__call__`: merges `values` into the attribute `dest` of `namespace`; nothing else changes. */
    method Call(namespace: Namespace, values: seq<Dict>)
      modifies namespace
      ensures namespace.attributes ==
        old(namespace.attributes)[dest := Some(MergedAll(StartingDict(old(namespace.attributes), dest), values))]
    {
      var current: Dict := [];
      if dest in namespace.attributes && namespace.attributes[dest].Some? {
        current := namespace.attributes[dest].value;
      }
      ghost var start := current;
      var i := 0;
      while i < |values|
        invariant i <= |values|
        invariant current == MergedAll(start, values[..i])
      {
        assert values[..i + 1][..i] == values[..i];
        current := Update(current, values[i]);
        i := i + 1;
      }
      assert values[..|values|] == values;
      namespace.attributes := namespace.attributes[dest := Some(current)];
    }
  }
}

/** The resolve and load callbacks of the plugin (`src/index.ts`), as the
    pure functions they compute; registering them with the bundler is not
    modelled. */
module GlobalExternals {
  import opened Wrappers
  import Info
  import OnLoad
  import Filter

  /** The plugin's name, which is also the namespace of its stand-in modules. */
  const PluginName: string := "global-externals"

  /** The `globals` object: module paths mapped to variable names, listed in
      the order `Object.keys` enumerates them. */
  datatype Globals = Globals(entries: seq<(string, string)>)

  /** A JavaScript object has each property once. */
  predicate WellFormed(g: Globals) {
    forall i, j :: 0 <= i < j < |g.entries| ==> g.entries[i].0 != g.entries[j].0
  }

  /** `Object.keys(globals)`: the property names in enumeration order, each
      property of the object once. */
  function Keys(g: Globals): (r: seq<string>)
    ensures |r| == |g.entries|
    ensures forall i {:trigger r[i]} :: 0 <= i < |r| ==> r[i] == g.entries[i].0
    ensures forall k :: k in r <==> exists v :: (k, v) in g.entries
    ensures WellFormed(g) ==> forall i, j :: 0 <= i < j < |r| ==> r[i] != r[j]
  {
    var r := seq(|g.entries|, i requires 0 <= i < |g.entries| => g.entries[i].0);
    assert forall k :: k in r <==> exists v :: (k, v) in g.entries by {
      forall k
        ensures k in r <==> exists v :: (k, v) in g.entries
      {
        if exists v :: (k, v) in g.entries {
          var v :| (k, v) in g.entries;
          var i :| 0 <= i < |g.entries| && g.entries[i] == (k, v);
          assert r[i] == k;
        }
        if k in r {
          var i :| 0 <= i < |r| && r[i] == k;
          assert (k, g.entries[i].1) in g.entries;
        }
      }
    }
    r
  }

  /** `globals[path]` for a path among the keys; `None` for any other path. */
  function Get(g: Globals, path: string): (r: Option<string>)
    ensures r.Some? <==> path in Keys(g)
    ensures r.Some? ==> (path, r.value) in g.entries
    decreases |g.entries|
  {
    if |g.entries| == 0 then None
    else if g.entries[0].0 == path then
      assert Keys(g)[0] == path;
      Some(g.entries[0].1)
    else
      var rest := Globals(g.entries[1..]);
      assert Keys(g) == [g.entries[0].0] + Keys(rest);
      assert g.entries == [g.entries[0]] + rest.entries;
      Get(rest, path)
  }

  /** In a well-formed object a key's value is the one its entry holds. */
  lemma GetFindsEntry(g: Globals, i: nat)
    requires WellFormed(g) && i < |g.entries|
    ensures Get(g, g.entries[i].0) == Some(g.entries[i].1)
  {
    var path := g.entries[i].0;
    assert path in Keys(g) by { assert Keys(g)[i] == path; }
    var v := Get(g, path).value;
    var j :| 0 <= j < |g.entries| && g.entries[j] == (path, v);
    assert j == i;
  }

  /** `moduleFilter`, with the keys escaped so that each is taken literally:
      it accepts exactly the keys (and, with no key, the empty string), and
      for keys without syntax characters it is the text the source builds. */
  function ModuleFilter(g: Globals): (r: string)
    ensures forall path :: Filter.Test(r, path) == Some(path in Keys(g) || (|Keys(g)| == 0 && path == ""))
    ensures (forall i :: 0 <= i < |Keys(g)| ==> Filter.Plain(Keys(g)[i])) ==> r == Filter.AsWrittenPattern(Keys(g))
  {
    assert forall path :: Filter.Test(Filter.EscapedPattern(Keys(g)), path) == Some(path in Keys(g) || (|Keys(g)| == 0 && path == "")) by {
      forall path
        ensures Filter.Test(Filter.EscapedPattern(Keys(g)), path) == Some(path in Keys(g) || (|Keys(g)| == 0 && path == ""))
      {
        Filter.EscapedFilterIsExactMembership(Keys(g), path);
      }
    }
    Filter.EscapedPattern(Keys(g))
  }

  /** What the resolve callback hands back to the bundler. */
  datatype ResolveResult = ResolveResult(path: string, namespace: string)

  /** The resolve step: the bundler calls the callback only for paths the
      filter accepts, and the callback redirects the path, unchanged, into
      the plugin's namespace. `None` is a path left to default resolution. */
  function Resolve(g: Globals, path: string): (r: Option<ResolveResult>)
    ensures r.Some? <==> path in Keys(g) || (|Keys(g)| == 0 && path == "")
    ensures r.Some? ==> r.value.path == path && r.value.namespace == "global-externals"
  {
    if Filter.Test(ModuleFilter(g), path) == Some(true) then Some(ResolveResult(path, PluginName))
    else None
  }

  /** The load callback: the variable name mapped to the path, or an error
      when there is none or it is the empty (falsy) string; otherwise a
      module that only re-exports that variable as its default export. */
  function Load(g: Globals, path: string): (r: Result<string, string>)
    ensures r.Success? <==> Get(g, path).Some? && Get(g, path).value != ""
    ensures r.Success? ==> r.value == "export default " + Get(g, path).value + ";"
    ensures r.Failure? ==> r.error == "Unknown module path: " + path
  {
    match Get(g, path)
    case Some(v) =>
      if v == "" then Failure("Unknown module path: " + path)
      else Success("export default " + v + ";")
    case None => Failure("Unknown module path: " + path)
  }

  /** The contents the load callback produces are the ES-module stand-in
      without named exports. */
  lemma LoadIsDefaultOnlyEsm(g: Globals, path: string)
    requires Load(g, path).Success?
    ensures Load(g, path).value == OnLoad.CreateContents(Info.Esm, Get(g, path).value, None)
  {
  }

  /** A path that is not a key fails to load. */
  lemma LoadUnknownPathFails(g: Globals, path: string)
    requires path !in Keys(g)
    ensures Load(g, path) == Failure("Unknown module path: " + path)
  {
  }

  /** Every key of a well-formed object with non-empty variable names is
      resolved into the plugin's namespace and loads as a stand-in for its
      own variable. */
  lemma ResolvedKeysLoad(g: Globals, i: nat)
    requires WellFormed(g) && i < |g.entries|
    requires g.entries[i].1 != ""
    ensures Resolve(g, g.entries[i].0) == Some(ResolveResult(g.entries[i].0, PluginName))
    ensures Load(g, g.entries[i].0) == Success("export default " + g.entries[i].1 + ";")
  {
    assert Keys(g)[i] == g.entries[i].0;
    GetFindsEntry(g, i);
  }

  /** A key mapped to the empty string passes the filter but fails to load:
      the error of the load callback is reachable from configuration alone. */
  lemma EmptyVariableNameFailsAfterResolve(g: Globals, i: nat)
    requires WellFormed(g) && i < |g.entries|
    requires g.entries[i].1 == ""
    ensures Resolve(g, g.entries[i].0).Some?
    ensures Load(g, g.entries[i].0).Failure?
  {
    assert Keys(g)[i] == g.entries[i].0;
    GetFindsEntry(g, i);
  }
}

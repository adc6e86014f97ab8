/**
 * The `use` command of vcpkg-ce: activate artifacts in the current
 * environment without a project manifest.
 *
 * `run` is a chain of guarded early returns over the results of its
 * collaborators (the registry resolver builder, the artifact selector, the
 * confirmation display and the activation engine), which are not part of this
 * model: they are the functions of a `Collaborators` value. A run is the list
 * of calls and messages it produces, in order, and its boolean result.
 */
module UseCommand {
  import opened Wrappers

  /** The version requested for an input that has no (or an empty) `--version`. */
  const AnyVersion: string := "*"

  /** A JavaScript `Map` from artifact name to version: keys are distinct, in insertion order. */
  type SelectionMap = seq<(string, string)>

  /** Stand-in for the project's registry metadata handed to the resolver builder. */
  type Registries = seq<string>

  /** A registry resolver, known only by where it came from. */
  datatype Resolver = Resolver(id: nat) | With(base: Resolver, extra: Resolver)

  datatype Options = Options(force: bool, language: Option<string>, allLanguages: bool)

  /** The command line as `run` sees it: the artifact names, the `--version` values and the switches. */
  datatype CommandLine = CommandLine(inputs: seq<string>, versions: seq<string>, options: Options)

  datatype Message = NoArtifactsSpecified | VersionCountMismatch | NoArtifactsAcquired | ActivatingArtifacts

  /** What a run does, in order: messages and calls to its collaborators. */
  datatype Event<A> =
    | Error(message: Message)
    | Warning(message: Message)
    | Log(message: Message)
    | BuildResolver(registries: Option<Registries>)
    | Select(selections: SelectionMap, resolver: Resolver, count: nat)
    | Show(artifacts: A, resolver: Resolver)
    | Activate(artifacts: A, resolver: Resolver, forceReactivate: bool, options: Options)

  /**
   * The session and the collaborators, as the results they return. `A` is
   * the selector's result (a map of selected artifacts); `None` stands for a
   * falsy result.
   */
  datatype Collaborators<!A> = Collaborators(
    globalResolver: Resolver,
    projectRegistries: Option<Registries>,
    buildRegistryResolver: Option<Registries> -> Resolver,
    selectArtifacts: (SelectionMap, Resolver, nat) -> Option<A>,
    showArtifacts: (A, Resolver, CommandLine) -> bool,
    activate: (A, Resolver, bool, Options) -> bool)

  datatype RunResult<A> = RunResult(ok: bool, trace: seq<Event<A>>)

  /** The names of a map or of a list of entries, in order. */
  function KeysOf(m: seq<(string, string)>): seq<string>
  {
    seq(|m|, i requires 0 <= i < |m| => m[i].0)
  }

  lemma KeysOfCons(m: seq<(string, string)>)
    requires m != []
    ensures KeysOf(m) == [m[0].0] + KeysOf(m[1..])
  {
  }

  /** The value a map holds for `k`. */
  function Lookup(m: SelectionMap, k: string): Option<string>
  {
    if m == [] then None else if m[0].0 == k then Some(m[0].1) else Lookup(m[1..], k)
  }

  /** `Map.prototype.set`: replaces the value of an existing key in place, else appends the entry. */
  function Insert(m: SelectionMap, k: string, v: string): (r: SelectionMap)
    ensures |m| <= |r| <= |m| + 1
  {
    if m == [] then [(k, v)]
    else if m[0].0 == k then [(k, v)] + m[1..]
    else [m[0]] + Insert(m[1..], k, v)
  }

  /**
   * Setting a key keeps the order of the keys and appends a key that was not
   * there yet at the end.
   */
  lemma {:induction false} InsertKeys(m: SelectionMap, k: string, v: string)
    ensures KeysOf(Insert(m, k, v)) == if k in KeysOf(m) then KeysOf(m) else KeysOf(m) + [k]
    ensures k !in KeysOf(m) ==> Insert(m, k, v) == m + [(k, v)]
  {
    InsertNewKey(m, k, v);
    if m != [] && m[0].0 != k {
      InsertKeys(m[1..], k, v);
      KeysOfCons(m);
      KeysOfCons(Insert(m, k, v));
    } else if m != [] {
      assert KeysOf(m)[0] == k;
      assert KeysOf(Insert(m, k, v)) == KeysOf(m);
    }
  }

  /** Setting a key that is not there yet appends its entry. */
  lemma {:induction false} InsertNewKey(m: SelectionMap, k: string, v: string)
    ensures k !in KeysOf(m) ==> Insert(m, k, v) == m + [(k, v)]
  {
    if m != [] && k !in KeysOf(m) {
      assert KeysOf(m) == [m[0].0] + KeysOf(m[1..]);
      InsertNewKey(m[1..], k, v);
      assert m == [m[0]] + m[1..];
    }
  }

  /** Setting a key gives it the new value and leaves every other key's value alone. */
  lemma {:induction false} InsertLookup(m: SelectionMap, k: string, v: string)
    ensures Lookup(Insert(m, k, v), k) == Some(v)
    ensures forall k' :: k' != k ==> Lookup(Insert(m, k, v), k') == Lookup(m, k')
  {
    if m != [] && m[0].0 != k {
      InsertLookup(m[1..], k, v);
      assert Insert(m, k, v)[1..] == Insert(m[1..], k, v);
    } else if m != [] {
      assert Insert(m, k, v)[1..] == m[1..];
    }
  }

  /** `new Map(entries)`: the entries set one after the other. */
  function MapFromEntries(entries: seq<(string, string)>): (r: SelectionMap)
    ensures |r| <= |entries|
    ensures entries != [] ==> r != []
  {
    if entries == [] then []
    else
      var last := entries[|entries| - 1];
      Insert(MapFromEntries(entries[..|entries| - 1]), last.0, last.1)
  }

  /** Reference definitions: the keys in order of first appearance, the value of the last entry per key. */
  function FirstOccurrences(ks: seq<string>): seq<string>
  {
    if ks == [] then []
    else
      var seen := FirstOccurrences(ks[..|ks| - 1]);
      if ks[|ks| - 1] in seen then seen else seen + [ks[|ks| - 1]]
  }

  function LastValue(entries: seq<(string, string)>, k: string): Option<string>
  {
    if entries == [] then None
    else if entries[|entries| - 1].0 == k then Some(entries[|entries| - 1].1)
    else LastValue(entries[..|entries| - 1], k)
  }

  lemma {:induction false} FirstOccurrencesDistinct(ks: seq<string>)
    ensures Distinct(FirstOccurrences(ks))
    ensures forall k :: k in FirstOccurrences(ks) <==> k in ks
  {
    if ks != [] {
      var init := ks[..|ks| - 1];
      FirstOccurrencesDistinct(init);
      assert ks == init + [ks[|ks| - 1]];
    }
  }

  /**
   * A map built from entries keeps one entry per key, at the position of the
   * key's first occurrence, holding the value of its last occurrence.
   */
  lemma {:induction false} MapFromEntriesSemantics(entries: seq<(string, string)>)
    ensures KeysOf(MapFromEntries(entries)) == FirstOccurrences(KeysOf(entries))
    ensures forall k :: Lookup(MapFromEntries(entries), k) == LastValue(entries, k)
  {
    if entries != [] {
      var init, last := entries[..|entries| - 1], entries[|entries| - 1];
      MapFromEntriesSemantics(init);
      InsertKeys(MapFromEntries(init), last.0, last.1);
      InsertLookup(MapFromEntries(init), last.0, last.1);
      assert KeysOf(entries) == KeysOf(init) + [last.0];
    }
  }

  /** The version paired with the `i`-th input: its `--version` if given and non-empty, else any version. */
  function VersionFor(versions: seq<string>, i: nat): (v: string)
    ensures i < |versions| && versions[i] != "" ==> v == versions[i]
    ensures i >= |versions| || versions[i] == "" ==> v == AnyVersion
  {
    if i < |versions| && versions[i] != "" then versions[i] else AnyVersion
  }

  /** `inputs.map((v, i) => [v, versions[i] || '*'])`. */
  function SelectionEntries(inputs: seq<string>, versions: seq<string>): (entries: seq<(string, string)>)
    ensures |entries| == |inputs|
    ensures forall i :: 0 <= i < |inputs| ==> entries[i] == (inputs[i], VersionFor(versions, i))
  {
    seq(|inputs|, i requires 0 <= i < |inputs| => (inputs[i], VersionFor(versions, i)))
  }

  /** The map handed to the selector. */
  function Selections(cmd: CommandLine): SelectionMap
  {
    MapFromEntries(SelectionEntries(cmd.inputs, cmd.versions))
  }

  /** The number of `--version` values is acceptable: none at all, or one per input. */
  predicate VersionCountOk(cmd: CommandLine)
  {
    |cmd.versions| == 0 || |cmd.versions| == |cmd.inputs|
  }

  /** `UseCommand.run`. */
  function Run<A>(cmd: CommandLine, env: Collaborators<A>): (r: RunResult<A>)
    ensures r.trace != []
    ensures |cmd.inputs| > 0 ==> r.trace[0] == BuildResolver(env.projectRegistries)
    ensures r.ok ==> |cmd.inputs| > 0 && VersionCountOk(cmd) && r.trace[|r.trace| - 1] == Log(ActivatingArtifacts)
  {
    if |cmd.inputs| == 0 then RunResult(false, [Error(NoArtifactsSpecified)])
    else
      var resolver := With(env.globalResolver, env.buildRegistryResolver(env.projectRegistries));
      var built := [BuildResolver(env.projectRegistries)];
      if |cmd.versions| > 0 && |cmd.inputs| != |cmd.versions| then
        RunResult(false, built + [Error(VersionCountMismatch)])
      else
        var selections := Selections(cmd);
        var selected := built + [Select(selections, resolver, 1)];
        match env.selectArtifacts(selections, resolver, 1)
        case None => RunResult(false, selected)
        case Some(artifacts) =>
          var shown := selected + [Show(artifacts, resolver)];
          if !env.showArtifacts(artifacts, resolver, cmd) then
            RunResult(false, shown + [Warning(NoArtifactsAcquired)])
          else
            var activated := shown + [Activate(artifacts, resolver, false, cmd.options)];
            if env.activate(artifacts, resolver, false, cmd.options) then
              RunResult(true, activated + [Log(ActivatingArtifacts)])
            else
              RunResult(false, activated)
  }

  /** With distinct keys, building the map keeps every entry, in order. */
  lemma {:induction false} MapFromDistinctEntries(entries: seq<(string, string)>)
    requires Distinct(KeysOf(entries))
    ensures MapFromEntries(entries) == entries
  {
    if entries != [] {
      var init, last := entries[..|entries| - 1], entries[|entries| - 1];
      var keys := KeysOf(entries);
      assert keys[..|keys| - 1] == KeysOf(init);
      assert Distinct(KeysOf(init));
      forall t | 0 <= t < |init|
        ensures KeysOf(init)[t] != last.0
      {
        assert keys[t] != keys[|keys| - 1];
      }
      assert last.0 !in KeysOf(init);
      MapFromDistinctEntries(init);
      InsertKeys(init, last.0, last.1);
      assert entries == init + [last];
    }
  }

  /** `j` is the last position at or after `i` that holds the same name as `i`. */
  ghost predicate IsLastOccurrence(names: seq<string>, i: nat, j: nat)
  {
    i <= j < |names| && names[j] == names[i] && forall k :: j < k < |names| ==> names[k] != names[i]
  }

  /** The value kept for the key of `entries[i]` is that of the key's last occurrence. */
  lemma {:induction false} LastValueAt(entries: seq<(string, string)>, i: nat) returns (j: nat)
    requires i < |entries|
    ensures IsLastOccurrence(KeysOf(entries), i, j)
    ensures LastValue(entries, entries[i].0) == Some(entries[j].1)
  {
    var n := |entries| - 1;
    var init := entries[..n];
    if entries[n].0 == entries[i].0 {
      j := n;
    } else {
      j := LastValueAt(init, i);
      assert entries[j] == init[j];
      assert KeysOf(entries) == KeysOf(init) + [entries[n].0];
    }
  }

  /**
   * The selector is asked, for each input name, for the version given with
   * the name's last occurrence ('*' when none or empty); with distinct names
   * the map is exactly the list of (input, version) pairs.
   */
  lemma SelectionsPairInputsWithVersions(cmd: CommandLine, i: nat) returns (j: nat)
    requires i < |cmd.inputs|
    ensures IsLastOccurrence(cmd.inputs, i, j)
    ensures Lookup(Selections(cmd), cmd.inputs[i]) == Some(VersionFor(cmd.versions, j))
    ensures Distinct(cmd.inputs) ==>
      && Selections(cmd) == SelectionEntries(cmd.inputs, cmd.versions)
      && Lookup(Selections(cmd), cmd.inputs[i]) == Some(VersionFor(cmd.versions, i))
  {
    var entries := SelectionEntries(cmd.inputs, cmd.versions);
    MapFromEntriesSemantics(entries);
    assert KeysOf(entries) == cmd.inputs;
    j := LastValueAt(entries, i);
    if Distinct(cmd.inputs) {
      MapFromDistinctEntries(entries);
    }
  }

  /** Every input name appears in the map exactly once, in order of first appearance. */
  lemma SelectionsKeys(cmd: CommandLine)
    ensures Distinct(KeysOf(Selections(cmd)))
    ensures forall k :: k in KeysOf(Selections(cmd)) <==> k in cmd.inputs
  {
    var entries := SelectionEntries(cmd.inputs, cmd.versions);
    MapFromEntriesSemantics(entries);
    assert KeysOf(entries) == cmd.inputs;
    FirstOccurrencesDistinct(cmd.inputs);
  }

  /** No inputs: an error and `false`, before any collaborator is called. */
  lemma RunWithoutInputs<A>(cmd: CommandLine, env: Collaborators<A>)
    requires |cmd.inputs| == 0
    ensures Run(cmd, env) == RunResult(false, [Error(NoArtifactsSpecified)])
  {
  }

  /**
   * Selection is attempted exactly when there are inputs and either no
   * `--version` at all or one per input; then the selector gets the selection
   * map, the merged resolver and a count of 1. Otherwise the only call made is
   * building the resolver.
   */
  lemma RunSelectsIff<A>(cmd: CommandLine, env: Collaborators<A>)
    ensures (exists e :: e in Run(cmd, env).trace && e.Select?) <==> |cmd.inputs| > 0 && VersionCountOk(cmd)
    ensures |cmd.inputs| > 0 && VersionCountOk(cmd) ==>
      Select(Selections(cmd), With(env.globalResolver, env.buildRegistryResolver(env.projectRegistries)), 1)
        in Run(cmd, env).trace
    ensures |cmd.inputs| > 0 && !VersionCountOk(cmd) ==>
      Run(cmd, env) == RunResult(false, [BuildResolver(env.projectRegistries), Error(VersionCountMismatch)])
  {
    if |cmd.inputs| > 0 && VersionCountOk(cmd) {
      assert Run(cmd, env).trace[1].Select?;
    }
  }

  /** A falsy selection ends the run with `false`: nothing is shown or activated. */
  lemma RunStopsWhenSelectionFails<A>(cmd: CommandLine, env: Collaborators<A>)
    requires |cmd.inputs| > 0 && VersionCountOk(cmd)
    requires env.selectArtifacts(Selections(cmd), With(env.globalResolver, env.buildRegistryResolver(env.projectRegistries)), 1).None?
    ensures !Run(cmd, env).ok
    ensures forall e :: e in Run(cmd, env).trace ==> !e.Show? && !e.Activate?
  {
  }

  /** A declined confirmation ends the run with `false` and a warning: nothing is activated. */
  lemma RunStopsWhenDeclined<A>(cmd: CommandLine, env: Collaborators<A>, artifacts: A)
    requires |cmd.inputs| > 0 && VersionCountOk(cmd)
    requires var resolver := With(env.globalResolver, env.buildRegistryResolver(env.projectRegistries));
      env.selectArtifacts(Selections(cmd), resolver, 1) == Some(artifacts)
      && !env.showArtifacts(artifacts, resolver, cmd)
    ensures !Run(cmd, env).ok
    ensures Warning(NoArtifactsAcquired) in Run(cmd, env).trace
    ensures forall e :: e in Run(cmd, env).trace ==> !e.Activate?
  {
    assert Run(cmd, env).trace[|Run(cmd, env).trace| - 1] == Warning(NoArtifactsAcquired);
  }

  /**
   * `run` succeeds exactly when there are inputs, the version count is
   * acceptable, selection yields artifacts, the user confirms, and activation
   * of those artifacts (never forced to reactivate, with the command line's
   * options) succeeds.
   */
  lemma RunSucceedsIff<A>(cmd: CommandLine, env: Collaborators<A>)
    ensures var resolver := With(env.globalResolver, env.buildRegistryResolver(env.projectRegistries));
      Run(cmd, env).ok <==>
        && |cmd.inputs| > 0 && VersionCountOk(cmd)
        && env.selectArtifacts(Selections(cmd), resolver, 1).Some?
        && env.showArtifacts(env.selectArtifacts(Selections(cmd), resolver, 1).value, resolver, cmd)
        && env.activate(env.selectArtifacts(Selections(cmd), resolver, 1).value, resolver, false, cmd.options)
    ensures forall e :: e in Run(cmd, env).trace && e.Activate? ==>
      && !e.forceReactivate && e.options == cmd.options
      && env.selectArtifacts(Selections(cmd), e.resolver, 1) == Some(e.artifacts)
  {
  }
}

/**
 The generate sub-command: the configured generator suites are run one
 after another through `pre_gen`, `gen` and `post_gen`, and the registry
 fragments their `gen` hooks return are merged into one test list with
 `dict.update`, so a later suite overwrites an earlier suite's test of the
 same name.
 */
module Generate {
  import opened Common
  import opened Text
  import opened Registry
  import opened Hooks

  /**
   The suites named by the `generator` setting: the setting with every space
   removed, split at the commas. Empty names survive (a trailing comma gives
   one), no name holds a space or a comma, and joining the names with commas
   gives the space-free setting back.
   */
  function SuiteList(generator: string): (suites: seq<string>)
    ensures |suites| >= 1
    ensures forall i | 0 <= i < |suites| :: ' ' !in suites[i] && ',' !in suites[i]
    ensures Join(suites, ',') == DeleteAll(generator, " ")
  {
    var spaceless := DeleteAll(generator, " ");
    DeleteCharSpec(generator, ' ');
    assert ' ' !in spaceless;
    SplitAvoids(spaceless, ',', ' ');
    JoinSplit(spaceless, ',');
    Split(spaceless, ',')
  }

  /** The index of the last fragment that defines `t`, or -1 when none does. */
  function LastDefining(frags: seq<Registry>, t: string): (k: int)
    ensures -1 <= k < |frags|
    ensures k >= 0 ==> t in frags[k]
    ensures forall j | k < j < |frags| :: t !in frags[j]
  {
    if |frags| == 0 then -1
    else if t in frags[|frags| - 1] then |frags| - 1
    else LastDefining(frags[..|frags| - 1], t)
  }

  /** Left-to-right `dict.update` of the fragments. */
  function MergeFragments(frags: seq<Registry>): Registry {
    if |frags| == 0 then map[]
    else MergeFragments(frags[..|frags| - 1]) + frags[|frags| - 1]
  }

  /**
   A test is in the merged fragments exactly when some fragment defines it,
   and its entry is the one of the last fragment that does.
   */
  lemma {:induction false} MergeFragmentsSpec(frags: seq<Registry>, t: string)
    ensures t in MergeFragments(frags) <==> LastDefining(frags, t) >= 0
    ensures t in MergeFragments(frags) ==> MergeFragments(frags)[t] == frags[LastDefining(frags, t)][t]
  {
    if |frags| > 0 {
      var front := frags[..|frags| - 1];
      var last := frags[|frags| - 1];
      if t !in last {
        MergeFragmentsSpec(front, t);
        assert LastDefining(frags, t) == LastDefining(front, t);
        if LastDefining(front, t) >= 0 {
          assert front[LastDefining(front, t)] == frags[LastDefining(front, t)];
        }
      }
    }
  }

  /**
   What the generate sub-command can see of its surroundings: the
   configuration sections present, the suites whose plugin loads, and the
   fragment each suite's `gen` hook returns (a suite missing from
   `fragments` returns nothing).
   */
  datatype GenEnv = GenEnv(sections: set<string>, loadable: set<string>, fragments: map<string, Registry>)

  /** Why a generate run aborts. */
  datatype GenError =
    | MissingSection(suite: string)   // no configuration section for the suite
    | PluginNotFound(suite: string)   // the suite's plugin does not load
    | NoTestList(suite: string)       // the suite's `gen` hook returned nothing

  datatype GenOutcome = GenOutcome(calls: seq<Call>, status: Result<Registry, GenError>)

  /** True when a suite runs to completion. */
  predicate Generates(suite: string, env: GenEnv) {
    suite in env.sections && suite in env.loadable && suite in env.fragments
  }

  /**
   Run the suites in order. Each suite's configuration section is read,
   its plugin loaded, then `pre_gen`, `gen` and `post_gen` are called; the
   first suite that fails aborts the run, keeping the calls already made.
   */
  function RunSuites(suites: seq<string>, env: GenEnv): (o: GenOutcome)
    ensures WellOrdered(o.calls)
  {
    if |suites| == 0 then GenOutcome([], Ok(map[]))
    else
      var s := suites[|suites| - 1];
      var o := RunSuites(suites[..|suites| - 1], env);
      if o.status.Err? then o
      else if s !in env.sections then GenOutcome(o.calls, Err(MissingSection(s)))
      else if s !in env.loadable then GenOutcome(o.calls, Err(PluginNotFound(s)))
      else if s !in env.fragments then
        assert WellOrdered([Call(s, PreGen), Call(s, Gen)]);
        WellOrderedConcat(o.calls, [Call(s, PreGen), Call(s, Gen)]);
        GenOutcome(o.calls + [Call(s, PreGen), Call(s, Gen)], Err(NoTestList(s)))
      else
        assert WellOrdered([Call(s, PreGen), Call(s, Gen), Call(s, PostGen)]);
        WellOrderedConcat(o.calls, [Call(s, PreGen), Call(s, Gen), Call(s, PostGen)]);
        GenOutcome(o.calls + [Call(s, PreGen), Call(s, Gen), Call(s, PostGen)],
                   Ok(o.status.value + env.fragments[s]))
  }

  /**
   The generate sub-command on a `generator` setting: it succeeds exactly
   when every named suite generates, and then has called the three
   generator hooks of each named suite in order and holds the last-wins
   merge of their fragments.
   */
  function GenerateTests(generator: string, env: GenEnv): (o: GenOutcome)
    ensures WellOrdered(o.calls)
    ensures o.status.Ok? <==>
              forall i | 0 <= i < |SuiteList(generator)| :: Generates(SuiteList(generator)[i], env)
    ensures o.status.Ok? ==> o.calls == SuiteCalls(SuiteList(generator))
    ensures o.status.Ok? ==>
              && (forall i | 0 <= i < |SuiteList(generator)| :: SuiteList(generator)[i] in env.fragments)
              && o.status.value == MergeFragments(FragmentsOf(SuiteList(generator), env))
  {
    var suites := SuiteList(generator);
    RunSuitesSucceeds(suites, env);
    if RunSuites(suites, env).status.Ok? then
      RunSuitesCalls(suites, env);
      RunSuitesSpec(suites, env);
      RunSuites(suites, env)
    else
      RunSuites(suites, env)
  }

  /** The fragments the suites' `gen` hooks return, in suite order. */
  function FragmentsOf(suites: seq<string>, env: GenEnv): (frags: seq<Registry>)
    requires forall i | 0 <= i < |suites| :: suites[i] in env.fragments
    ensures |frags| == |suites|
    ensures forall i | 0 <= i < |suites| :: frags[i] == env.fragments[suites[i]]
  {
    seq(|suites|, i requires 0 <= i < |suites| => env.fragments[suites[i]])
  }

  /** The three generator hooks of each suite, suite after suite. */
  function SuiteCalls(suites: seq<string>): (calls: seq<Call>)
    ensures |calls| == 3 * |suites|
  {
    if |suites| == 0 then []
    else
      var s := suites[|suites| - 1];
      SuiteCalls(suites[..|suites| - 1]) + [Call(s, PreGen), Call(s, Gen), Call(s, PostGen)]
  }

  /**
   A generate run succeeds exactly when every suite has a section, a
   loadable plugin and a returned fragment.
   */
  lemma {:induction false} RunSuitesSucceeds(suites: seq<string>, env: GenEnv)
    ensures RunSuites(suites, env).status.Ok? <==> forall i | 0 <= i < |suites| :: Generates(suites[i], env)
  {
    if |suites| > 0 {
      var n := |suites| - 1;
      var front := suites[..n];
      RunSuitesSucceeds(front, env);
      var o := RunSuites(front, env);
      assert RunSuites(suites, env).status.Ok? <==> o.status.Ok? && Generates(suites[n], env);
      assert forall i | 0 <= i < n :: front[i] == suites[i];
    }
  }

  /** A successful generate run calls `pre_gen`, `gen`, `post_gen` on each suite in order. */
  lemma {:induction false} RunSuitesCalls(suites: seq<string>, env: GenEnv)
    requires RunSuites(suites, env).status.Ok?
    ensures RunSuites(suites, env).calls == SuiteCalls(suites)
  {
    if |suites| > 0 {
      var front := suites[..|suites| - 1];
      assert RunSuites(front, env).status.Ok?;
      RunSuitesCalls(front, env);
    }
  }

  /**
   A successful generate run's test list is the left-to-right merge of the
   fragments the suites return.
   */
  lemma {:induction false} RunSuitesSpec(suites: seq<string>, env: GenEnv)
    requires RunSuites(suites, env).status.Ok?
    ensures forall i | 0 <= i < |suites| :: suites[i] in env.fragments
    ensures RunSuites(suites, env).status.value == MergeFragments(FragmentsOf(suites, env))
  {
    RunSuitesSucceeds(suites, env);
    if |suites| > 0 {
      var n := |suites| - 1;
      var front := suites[..n];
      var o := RunSuites(front, env);
      assert o.status.Ok? && Generates(suites[n], env);
      RunSuitesSpec(front, env);
      var frags := FragmentsOf(suites, env);
      assert frags[..n] == FragmentsOf(front, env);
      assert RunSuites(suites, env).status.value == o.status.value + frags[n];
    }
  }

  /**
   On a name clash the later suite wins: after a successful run a test that
   some suite defines is in the list, with the entry of the last suite
   whose fragment defines it.
   */
  lemma LaterSuiteWins(suites: seq<string>, env: GenEnv, t: string, k: int)
    requires RunSuites(suites, env).status.Ok?
    requires 0 <= k < |suites| && suites[k] in env.fragments && t in env.fragments[suites[k]]
    requires forall j | k < j < |suites| && suites[j] in env.fragments :: t !in env.fragments[suites[j]]
    ensures t in RunSuites(suites, env).status.value
    ensures RunSuites(suites, env).status.value[t] == env.fragments[suites[k]][t]
  {
    RunSuitesSucceeds(suites, env);
    RunSuitesSpec(suites, env);
    var frags := FragmentsOf(suites, env);
    assert LastDefining(frags, t) == k;
    MergeFragmentsSpec(frags, t);
  }
}

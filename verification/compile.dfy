/**
 The compile sub-command: every configured target and then every
 configured reference is driven through the hooks the `init|build|run`
 flags select; afterwards the device-under-test and reference dumps of each
 test are compared byte for byte to give its verdict, the verdicts are
 reset when a run produced no report or comparison is off, and the verdicts
 are tallied for the report.
 */
module Compile {
  import opened Common
  import opened Text
  import opened Registry
  import opened Hooks

  type Bytes = seq<bv8>

  /** The files present when the dumps are compared: path to contents. */
  type Files = map<string, Bytes>

  /** Where a test's device-under-test dump is written. */
  function DutDump(e: TestEntry): string {
    e.workDir + "/dut.dump"
  }

  /** Where a test's reference dump is written. */
  function RefDump(e: TestEntry): string {
    e.workDir + "/ref.dump"
  }

  /** True when both dumps of a test exist. */
  predicate HasBothDumps(e: TestEntry, files: Files) {
    DutDump(e) in files && RefDump(e) in files
  }

  /** The verdict a comparison gives, or the entry untouched when a dump is missing. */
  function Reconcile(e: TestEntry, files: Files): TestEntry {
    if HasBothDumps(e, files) then
      e.(result := Some(if files[DutDump(e)] == files[RefDump(e)] then PASSED else FAILED))
    else e
  }

  /**
   Dump comparison over the whole test list. Only verdicts change; a test
   with both dumps is `Passed` exactly when the two dumps hold the same
   bytes and `Failed` otherwise; a test missing either dump keeps its entry,
   and the tests after it are compared all the same.
   */
  function CompareDumps(reg: Registry, files: Files): (r: Registry)
    ensures r.Keys == reg.Keys
    ensures forall t | t in reg :: SameButResult(r[t], reg[t])
    ensures forall t | t in reg && HasBothDumps(reg[t], files) ::
              && (r[t].result == Some(PASSED) <==> files[DutDump(reg[t])] == files[RefDump(reg[t])])
              && (r[t].result == Some(FAILED) <==> files[DutDump(reg[t])] != files[RefDump(reg[t])])
    ensures forall t | t in reg && !HasBothDumps(reg[t], files) :: r[t] == reg[t]
  {
    map t | t in reg :: Reconcile(reg[t], files)
  }

  /** The command-line and configuration settings the sub-command reads. */
  datatype CompileConfig = CompileConfig(
    target: string,       // comma-separated target plugins
    reference: string,    // comma-separated reference plugins
    dutFlag: string,      // `init`, `build`, `run` or anything else
    refFlag: string,
    compare: bool)

  /**
   What the sub-command sees of its surroundings: the plugins whose
   configuration section holds `jobs` and `count`, the plugins that load, the
   report path each plugin's `run` returns (absent when it returns nothing),
   the test list as loaded from disk, the files present after the runs, and
   whether a generator report was found.
   */
  datatype Environment = Environment(
    sections: set<string>,
    loadable: set<string>,
    reports: map<string, string>,
    testList: Registry,
    files: Files,
    genReportFound: bool)

  /** Why a compile run aborts. */
  datatype CompileError =
    | MissingSection(plugin: string)    // reading the plugin's `jobs` or `count` raises `KeyError`
    | PluginLoadFailed(plugin: string)
    | NoReference     // the reference list is disabled

  /**
   The outcome of comparison: the registry handed to the report, the test
   list as rewritten on disk (`None` when it is left as it was), and the
   report counters.
   */
  datatype Report = Report(registry: Registry, saved: Option<Registry>, counts: Counts)

  datatype CompileOutcome = CompileOutcome(calls: seq<Call>, status: Result<Report, CompileError>)

  /** The target list, split at commas without removing spaces. */
  function Targets(cfg: CompileConfig): seq<string> {
    Split(cfg.target, ',')
  }

  /** The reference list, split at commas without removing spaces. */
  function References(cfg: CompileConfig): seq<string> {
    Split(cfg.reference, ',')
  }

  /** The target pass; a target list holding an empty name skips every target. */
  function TargetPass(cfg: CompileConfig, env: Environment): RolePass {
    if "" in Targets(cfg) then RolePass([], None, None)
    else RunRole(Targets(cfg), cfg.dutFlag, env.sections, env.loadable, env.reports)
  }

  /** The reference pass. */
  function ReferencePass(cfg: CompileConfig, env: Environment): RolePass {
    RunRole(References(cfg), cfg.refFlag, env.sections, env.loadable, env.reports)
  }

  /** The compile error a role pass's abort raises. */
  function AbortError(a: Abort): (e: CompileError)
    ensures !e.NoReference? && e.plugin == a.plugin
    ensures e.MissingSection? <==> a.NoSection?
  {
    match a
    case NoSection(n) => MissingSection(n)
    case NotLoaded(n) => PluginLoadFailed(n)
  }

  /** True when some test has both dumps, so the test list is rewritten at least once. */
  predicate AnyCompared(reg: Registry, files: Files) {
    exists t | t in reg :: HasBothDumps(reg[t], files)
  }

  /**
   The plugin whose manager is current after the loop over a role list: its
   last name (an empty list has none, and is never asked for one).
   */
  function LastOf(names: seq<string>): string {
    if |names| == 0 then "" else names[|names| - 1]
  }

  /**
   The compile sub-command. Targets run first, then references; a plugin
   that fails to load or a disabled reference list aborts the run. With
   comparison on, verdicts come from the dumps and are all reset when either
   role's last `run` returned no report; `post_run` is called on the last
   target and the last reference only when both reports and a generator
   report exist. With comparison off, every verdict is reset.
   */
  function Compile(cfg: CompileConfig, env: Environment): (o: CompileOutcome)
    ensures WellOrdered(o.calls)
  {
    var dut := TargetPass(cfg, env);
    if dut.failed.Some? then
      CompileOutcome(dut.calls, Err(AbortError(dut.failed.value)))
    else if "" in References(cfg) then
      CompileOutcome(dut.calls, Err(NoReference))
    else
      var ref := ReferencePass(cfg, env);
      WellOrderedConcat(dut.calls, ref.calls);
      if ref.failed.Some? then
        CompileOutcome(dut.calls + ref.calls, Err(AbortError(ref.failed.value)))
      else if cfg.compare then
        var bothReports := dut.report.Some? && ref.report.Some?;
        var post := PostRunCalls(cfg, bothReports && env.genReportFound);
        WellOrderedConcat(dut.calls + ref.calls, post);
        CompileOutcome(dut.calls + ref.calls + post, Ok(ComparedReport(env, bothReports)))
      else
        var final := ResetAll(env.testList);
        CompileOutcome(dut.calls + ref.calls, Ok(Report(final, None, CountsOf(final))))
  }

  /** The `post_run` calls on the last target and the last reference, when they are made at all. */
  function PostRunCalls(cfg: CompileConfig, made: bool): (calls: seq<Call>)
    ensures WellOrdered(calls)
  {
    if made then [Call(LastOf(Targets(cfg)), PostRun), Call(LastOf(References(cfg)), PostRun)] else []
  }

  /**
   The report with comparison on: the comparison verdicts when both roles
   reported and all verdicts reset otherwise; the test list on disk is
   rewritten with the comparison verdicts when some test had both dumps.
   */
  function ComparedReport(env: Environment, bothReports: bool): Report {
    var compared := CompareDumps(env.testList, env.files);
    var saved := if AnyCompared(env.testList, env.files) then Some(compared) else None;
    var final := if bothReports then compared else ResetAll(compared);
    Report(final, saved, CountsOf(final))
  }

  /** True when the last plugin of a role list is run and its `run` returns a report. */
  predicate Reported(names: seq<string>, flag: string, reports: map<string, string>) {
    |names| > 0 && "" !in names && flag == "run" && LastOf(names) in reports
  }

  /** A role pass that does not abort has a report exactly when its last plugin reported. */
  lemma PassReport(cfg: CompileConfig, env: Environment)
    ensures TargetPass(cfg, env).failed.None? ==>
              (TargetPass(cfg, env).report.Some? <==> Reported(Targets(cfg), cfg.dutFlag, env.reports))
    ensures ReferencePass(cfg, env).failed.None? && "" !in References(cfg) ==>
              (ReferencePass(cfg, env).report.Some? <==> Reported(References(cfg), cfg.refFlag, env.reports))
  {
    RunRoleReport(Targets(cfg), cfg.dutFlag, env.sections, env.loadable, env.reports);
    RunRoleReport(References(cfg), cfg.refFlag, env.sections, env.loadable, env.reports);
  }

  /**
   A compile run gets through both roles exactly when every target has its
   section and loads (or targets are disabled or unflagged), the reference
   list is not disabled, and every reference has its section and loads (or
   references are unflagged).
   */
  lemma CompileSucceeds(cfg: CompileConfig, env: Environment)
    ensures Compile(cfg, env).status.Ok? <==>
              && ("" in Targets(cfg) || cfg.dutFlag == ""
                  || forall i | 0 <= i < |Targets(cfg)| :: Ready(Targets(cfg)[i], env.sections, env.loadable))
              && "" !in References(cfg)
              && (cfg.refFlag == ""
                  || forall i | 0 <= i < |References(cfg)| :: Ready(References(cfg)[i], env.sections, env.loadable))
  {
    RunRoleFailure(Targets(cfg), cfg.dutFlag, env.sections, env.loadable, env.reports);
    RunRoleFailure(References(cfg), cfg.refFlag, env.sections, env.loadable, env.reports);
  }

  /**
   The first target that is not ready aborts the run with its error: a
   missing section when its section is missing, a load failure otherwise.
   */
  lemma FirstUnreadyTargetAborts(cfg: CompileConfig, env: Environment, k: nat)
    requires "" !in Targets(cfg) && cfg.dutFlag != ""
    requires k < |Targets(cfg)| && !Ready(Targets(cfg)[k], env.sections, env.loadable)
    requires forall j | 0 <= j < k :: Ready(Targets(cfg)[j], env.sections, env.loadable)
    ensures Compile(cfg, env).status.Err?
    ensures Compile(cfg, env).status.error == (if Targets(cfg)[k] !in env.sections then MissingSection(Targets(cfg)[k])
                                               else PluginLoadFailed(Targets(cfg)[k]))
  {
    var names := Targets(cfg);
    RunRoleFailure(names, cfg.dutFlag, env.sections, env.loadable, env.reports);
    var p := TargetPass(cfg, env);
    var m :| 0 <= m < |names| && names[m] == p.failed.value.plugin && !Ready(names[m], env.sections, env.loadable)
             && (p.failed.value.NoSection? <==> names[m] !in env.sections)
             && forall j | 0 <= j < m :: Ready(names[j], env.sections, env.loadable);
    assert m == k;
  }

  /** A reference list holding an empty name aborts the run after the targets, before any reference hook. */
  lemma ReferenceDisabledAborts(cfg: CompileConfig, env: Environment)
    requires TargetPass(cfg, env).failed.None?
    requires "" in References(cfg)
    ensures Compile(cfg, env).status == Err(NoReference)
    ensures forall c | c in Compile(cfg, env).calls :: c.plugin in Targets(cfg)
  {
    var p := TargetPass(cfg, env);
    if "" !in Targets(cfg) {
      RunRoleCalls(Targets(cfg), cfg.dutFlag, env.sections, env.loadable, env.reports);
    }
    assert forall i | 0 <= i < |p.calls| :: p.calls[i].plugin in Targets(cfg);
  }

  /** A target list holding an empty name calls no target hook: every call goes to a reference. */
  lemma TargetsDisabledSkipped(cfg: CompileConfig, env: Environment)
    requires "" in Targets(cfg)
    ensures forall c | c in Compile(cfg, env).calls :: c.plugin in References(cfg)
  {
    var p := ReferencePass(cfg, env);
    RunRoleCalls(References(cfg), cfg.refFlag, env.sections, env.loadable, env.reports);
    assert forall i | 0 <= i < |p.calls| :: p.calls[i].plugin in References(cfg);
  }

  /**
   With comparison on and both roles reporting, the report's verdicts are
   the dump comparison: for a test with both dumps `Passed` exactly when
   they are equal and `Failed` otherwise, and the loaded entry for a test
   missing a dump.
   */
  lemma CompareVerdicts(cfg: CompileConfig, env: Environment, t: string)
    requires Compile(cfg, env).status.Ok? && cfg.compare
    requires Reported(Targets(cfg), cfg.dutFlag, env.reports)
    requires Reported(References(cfg), cfg.refFlag, env.reports)
    requires t in env.testList
    ensures var reg := Compile(cfg, env).status.value.registry;
            && t in reg
            && SameButResult(reg[t], env.testList[t])
            && (HasBothDumps(env.testList[t], env.files) ==>
                  && (reg[t].result == Some(PASSED)
                      <==> env.files[DutDump(env.testList[t])] == env.files[RefDump(env.testList[t])])
                  && (reg[t].result == Some(FAILED)
                      <==> env.files[DutDump(env.testList[t])] != env.files[RefDump(env.testList[t])]))
            && (!HasBothDumps(env.testList[t], env.files) ==> reg[t] == env.testList[t])
  {
    PassReport(cfg, env);
  }

  /**
   With comparison on but either role's last `run` returning no report,
   every verdict in the report is `Unavailable`, so the report counts every
   test as unavailable.
   */
  lemma MissingReportResets(cfg: CompileConfig, env: Environment)
    requires Compile(cfg, env).status.Ok? && cfg.compare
    requires !Reported(Targets(cfg), cfg.dutFlag, env.reports) || !Reported(References(cfg), cfg.refFlag, env.reports)
    ensures var r := Compile(cfg, env).status.value;
            && r.registry.Keys == env.testList.Keys
            && (forall t | t in r.registry :: r.registry[t].result == Some(UNAVAILABLE))
            && r.counts == Counts(|env.testList|, 0, 0, |env.testList|)
  {
    PassReport(cfg, env);
    var compared := CompareDumps(env.testList, env.files);
    CountsAfterReset(compared);
    assert |compared| == |compared.Keys| == |env.testList.Keys| == |env.testList|;
  }

  /**
   The test list written back after comparison: present exactly when some
   test had both dumps, and then holding, for every such test, `Passed`
   exactly when its two dumps are equal.
   */
  predicate SavesComparison(env: Environment, saved: Option<Registry>) {
    && (saved.Some? <==> exists t | t in env.testList :: HasBothDumps(env.testList[t], env.files))
    && (saved.Some? ==>
          forall t | t in env.testList && HasBothDumps(env.testList[t], env.files) ::
            t in saved.value &&
            (saved.value[t].result == Some(PASSED)
             <==> env.files[DutDump(env.testList[t])] == env.files[RefDump(env.testList[t])]))
  }

  /** What `ComparedReport` writes back to disk, whatever the reports. */
  lemma ComparedReportSaved(env: Environment, bothReports: bool)
    ensures SavesComparison(env, ComparedReport(env, bothReports).saved)
  {
    var compared := CompareDumps(env.testList, env.files);
    assert ComparedReport(env, bothReports).saved == if AnyCompared(env.testList, env.files) then Some(compared) else None;
  }

  /**
   The reset after a missing report is not written back: the test list on
   disk is rewritten exactly when some test had both dumps, and then holds
   the comparison verdicts.
   */
  lemma SavedListKeepsComparison(cfg: CompileConfig, env: Environment)
    requires Compile(cfg, env).status.Ok? && cfg.compare
    ensures SavesComparison(env, Compile(cfg, env).status.value.saved)
  {
    var both := TargetPass(cfg, env).report.Some? && ReferencePass(cfg, env).report.Some?;
    assert Compile(cfg, env).status.value == ComparedReport(env, both);
    ComparedReportSaved(env, both);
  }

  /** With comparison off every verdict is reset and the test list on disk is left alone. */
  lemma NoCompareResets(cfg: CompileConfig, env: Environment)
    requires Compile(cfg, env).status.Ok? && !cfg.compare
    ensures var r := Compile(cfg, env).status.value;
            && r.saved.None?
            && r.registry.Keys == env.testList.Keys
            && (forall t | t in r.registry :: r.registry[t].result == Some(UNAVAILABLE))
            && r.counts == Counts(|env.testList|, 0, 0, |env.testList|)
  {
    CountsAfterReset(env.testList);
  }

  /** True when no call of a trace is a `post_run`. */
  predicate NoPostRun(calls: seq<Call>) {
    forall i | 0 <= i < |calls| :: calls[i].stage != PostRun
  }

  /** A role pass never calls `post_run`. */
  lemma RoleCallsNoPostRun(names: seq<string>, flag: string, sections: set<string>, loadable: set<string>,
                           reports: map<string, string>)
    ensures NoPostRun(RunRole(names, flag, sections, loadable, reports).calls)
  {
    RunRoleCalls(names, flag, sections, loadable, reports);
    assert PostRun !in Lifecycle(flag);
  }

  /** Two traces without `post_run` run one after the other have none. */
  lemma NoPostRunConcat(a: seq<Call>, b: seq<Call>)
    requires NoPostRun(a) && NoPostRun(b)
    ensures NoPostRun(a + b)
  {
    forall i | 0 <= i < |a + b|
      ensures (a + b)[i].stage != PostRun
    {
      if i >= |a| {
        assert (a + b)[i] == b[i - |a|];
      }
    }
  }

  /** The role passes themselves never call `post_run`. */
  lemma PassesCallNoPostRun(cfg: CompileConfig, env: Environment)
    ensures var pre := TargetPass(cfg, env).calls + ReferencePass(cfg, env).calls;
            forall i | 0 <= i < |pre| :: pre[i].stage != PostRun
  {
    RoleCallsNoPostRun(Targets(cfg), cfg.dutFlag, env.sections, env.loadable, env.reports);
    RoleCallsNoPostRun(References(cfg), cfg.refFlag, env.sections, env.loadable, env.reports);
    NoPostRunConcat(TargetPass(cfg, env).calls, ReferencePass(cfg, env).calls);
  }

  /**
   `post_run` is called exactly when comparison is on, both roles reported
   and a generator report exists.
   */
  lemma PostRunOnlyWithAllReports(cfg: CompileConfig, env: Environment)
    requires Compile(cfg, env).status.Ok?
    ensures var calls := Compile(cfg, env).calls;
            (exists i | 0 <= i < |calls| :: calls[i].stage == PostRun) <==>
              cfg.compare && env.genReportFound
              && Reported(Targets(cfg), cfg.dutFlag, env.reports)
              && Reported(References(cfg), cfg.refFlag, env.reports)
  {
    PassReport(cfg, env);
    PassesCallNoPostRun(cfg, env);
    var calls := Compile(cfg, env).calls;
    var pre := TargetPass(cfg, env).calls + ReferencePass(cfg, env).calls;
    if cfg.compare && env.genReportFound
       && Reported(Targets(cfg), cfg.dutFlag, env.reports)
       && Reported(References(cfg), cfg.refFlag, env.reports) {
      assert calls[|pre|].stage == PostRun;
    }
  }

  /** `post_run` comes after every other hook of the run. */
  lemma PostRunComesLast(cfg: CompileConfig, env: Environment)
    requires Compile(cfg, env).status.Ok?
    ensures var calls := Compile(cfg, env).calls;
            forall i, j | 0 <= i < j < |calls| && calls[i].stage == PostRun :: calls[j].stage == PostRun
  {
    PassesCallNoPostRun(cfg, env);
  }
}

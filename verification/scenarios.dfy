/**
 End-to-end outcomes of the compile and merge sub-commands, derived from
 the model: verdicts and report counters for a small compile run, the
 symmetry of dump comparison, and the outcome of merging two runs that
 share a test.
 */
module Scenarios {
  import opened Common
  import opened Registry
  import opened Compile
  import opened Merge

  /** A compile run that got through both roles with comparison on, both roles reporting. */
  predicate ComparedRun(cfg: CompileConfig, env: Environment) {
    && Compile.Compile(cfg, env).status.Ok?
    && cfg.compare
    && Reported(Targets(cfg), cfg.dutFlag, env.reports)
    && Reported(References(cfg), cfg.refFlag, env.reports)
  }

  /** The counters of a two-test registry with one test passed and the other unavailable. */
  lemma CountsOfPassedAndUnavailable(reg: Registry, a: string, b: string)
    requires reg.Keys == {a, b} && a != b
    requires reg[a].result == Some(PASSED) && reg[b].result == Some(UNAVAILABLE)
    ensures CountsOf(reg) == Counts(2, 1, 0, 1)
  {
    assert PassedTests(reg) == {a};
    assert UnavailableTests(reg) == {b};
    assert FailedTests(reg) == {};
    assert |reg| == |reg.Keys| == 2;
  }

  /**
   Two tests: `t1` with matching dumps, `t2` without dumps, both loaded as
   `Unavailable`. The report gives `t1` Passed and `t2` Unavailable, and
   counts two tests, one passed, none failed, one unavailable.
   */
  lemma MatchingAndMissingDumps(cfg: CompileConfig, env: Environment, e1: TestEntry, e2: TestEntry)
    requires ComparedRun(cfg, env)
    requires env.testList == map["t1" := e1, "t2" := e2]
    requires e2.result == Some(UNAVAILABLE)
    requires HasBothDumps(e1, env.files) && env.files[DutDump(e1)] == env.files[RefDump(e1)]
    requires !HasBothDumps(e2, env.files)
    ensures var r := Compile.Compile(cfg, env).status.value;
            && r.registry.Keys == {"t1", "t2"}
            && r.registry["t1"].result == Some(PASSED)
            && r.registry["t2"].result == Some(UNAVAILABLE)
            && r.counts == Counts(2, 1, 0, 1)
  {
    CompareVerdicts(cfg, env, "t1");
    CompareVerdicts(cfg, env, "t2");
    var r := Compile.Compile(cfg, env).status.value;
    assert r.registry.Keys == env.testList.Keys;
    CountsOfPassedAndUnavailable(r.registry, "t1", "t2");
  }

  /** As above, but with `t1`'s dumps differing: `t1` is Failed. */
  lemma DifferingDumps(cfg: CompileConfig, env: Environment, e1: TestEntry, e2: TestEntry)
    requires ComparedRun(cfg, env)
    requires env.testList == map["t1" := e1, "t2" := e2]
    requires HasBothDumps(e1, env.files) && env.files[DutDump(e1)] != env.files[RefDump(e1)]
    ensures Compile.Compile(cfg, env).status.value.registry["t1"].result == Some(FAILED)
  {
    CompareVerdicts(cfg, env, "t1");
  }

  /** A test's two dumps are different files. */
  lemma DumpsDiffer(e: TestEntry)
    ensures DutDump(e) != RefDump(e)
  {
    var n := |e.workDir| + 1;
    assert DutDump(e)[n] == 'd' && RefDump(e)[n] == 'r';
  }

  /** Swapping the contents of a test's two dumps leaves its verdict as it was. */
  lemma SwappedDumpsSameVerdict(e: TestEntry, files: Files)
    requires HasBothDumps(e, files)
    ensures var swapped := files[DutDump(e) := files[RefDump(e)]][RefDump(e) := files[DutDump(e)]];
            Reconcile(e, swapped) == Reconcile(e, files)
  {
    DumpsDiffer(e);
  }

  /** Two sources flatten to the first one's tests followed by the second one's. */
  lemma FlattenTwo(a: Source, b: Source)
    ensures Flatten([a, b]) == a.tests + b.tests
  {
    assert [a, b][..1] == [a];
    assert [a][..0] == [];
  }

  /** In a list where every pair names the same test, that test is the only one with a last occurrence. */
  lemma {:induction false} OnlyName(pairs: seq<(string, TestEntry)>, name: string, t: string)
    requires |pairs| > 0
    requires forall i | 0 <= i < |pairs| :: pairs[i].0 == name
    ensures LastIndex(pairs, t) >= 0 <==> t == name
  {
    if t != name && |pairs| > 1 {
      OnlyName(pairs[..|pairs| - 1], name, t);
    }
  }

  /** Merging a list in which every pair names `shared` keeps exactly `shared`, from the last pair. */
  lemma MergeSameName(pairs: seq<(string, TestEntry)>, output: string, disk: Disk)
    requires |pairs| > 0
    requires forall i | 0 <= i < |pairs| :: pairs[i].0 == "shared" && Mergeable(pairs[i].1, disk)
    ensures var r := MergeAll(pairs, output, disk);
            && r.Ok?
            && r.value.reg.Keys == {"shared"}
            && RebuiltFrom(r.value.reg["shared"], pairs[|pairs| - 1].1, output, "shared")
            && r.value.asmOrigin["shared"] == pairs[|pairs| - 1].1.workDir
  {
    MergeAllSucceeds(pairs, output, disk);
    MergeAllKeys(pairs, output, disk);
    MergeAllEntries(pairs, output, disk);
    var ws := MergeAll(pairs, output, disk).value;
    forall t
      ensures t in ws.reg <==> t == "shared"
    {
      OnlyName(pairs, "shared", t);
    }
  }

  /**
   Two prior runs both holding test `shared`: the merged list holds exactly
   that test, rebuilt from the second run's entry, and its directory holds
   the second run's work directory.
   */
  lemma SharedTestFromSecondSource(s1: Source, s2: Source, e1: TestEntry, e2: TestEntry, output: string, disk: Disk)
    requires s1.tests == [("shared", e1)] && s2.tests == [("shared", e2)]
    requires Mergeable(e1, disk) && Mergeable(e2, disk)
    ensures var r := MergeAll(Flatten([s1, s2]), output, disk);
            && r.Ok?
            && r.value.reg.Keys == {"shared"}
            && RebuiltFrom(r.value.reg["shared"], e2, output, "shared")
            && r.value.asmOrigin["shared"] == e2.workDir
  {
    FlattenTwo(s1, s2);
    MergeSameName(Flatten([s1, s2]), output, disk);
  }
}

/**
 The plugin lifecycles. A hook invocation is recorded as a call in a trace;
 the generator role goes through `pre_gen`, `gen`, `post_gen`, a device role
 (target or reference) through `init`, `build`, `run` and, after
 comparison, `post_run`. Plugin loading is reduced to the set of plugin
 names that load.
 */
module Hooks {
  import opened Common

  datatype Stage = PreGen | Gen | PostGen | Init | Build | Run | PostRun

  /** One hook invocation on the plugin registered under `plugin`. */
  datatype Call = Call(plugin: string, stage: Stage)

  /** The hook that must come immediately before `s` on the same plugin, if any. */
  function Predecessor(s: Stage): Option<Stage> {
    match s
    case Gen => Some(PreGen)
    case PostGen => Some(Gen)
    case Build => Some(Init)
    case Run => Some(Build)
    case _ => None
  }

  /**
   True when every `gen`, `post_gen`, `build` and `run` call directly
   follows its predecessor hook on the same plugin.
   */
  predicate WellOrdered(calls: seq<Call>) {
    forall i | 0 <= i < |calls| && Predecessor(calls[i].stage).Some? ::
      0 < i && calls[i - 1] == Call(calls[i].plugin, Predecessor(calls[i].stage).value)
  }

  /** Well-ordered traces run one after the other stay well ordered. */
  lemma WellOrderedConcat(a: seq<Call>, b: seq<Call>)
    requires WellOrdered(a) && WellOrdered(b)
    ensures WellOrdered(a + b)
  {
    var ab := a + b;
    forall i | 0 <= i < |ab| && Predecessor(ab[i].stage).Some?
      ensures 0 < i && ab[i - 1] == Call(ab[i].plugin, Predecessor(ab[i].stage).value)
    {
      if i >= |a| {
        assert ab[i] == b[i - |a|];
        assert i - |a| > 0;
        assert ab[i - 1] == b[i - |a| - 1];
      } else {
        assert ab[i] == a[i];
      }
    }
  }

  /**
   The device hooks an `init|build|run` flag selects: a prefix of
   `init, build, run` that reaches `build` only for `build` and `run` and
   reaches `run` only for `run`; any other flag selects nothing.
   */
  function Lifecycle(flag: string): (stages: seq<Stage>)
    ensures |stages| <= 3 && stages == [Init, Build, Run][..|stages|]
    ensures Init in stages <==> flag == "init" || flag == "build" || flag == "run"
    ensures Build in stages <==> flag == "build" || flag == "run"
    ensures Run in stages <==> flag == "run"
  {
    if flag == "init" then [Init]
    else if flag == "build" then [Init, Build]
    else if flag == "run" then [Init, Build, Run]
    else []
  }

  /** The calls of `stages`, in order, all on `plugin`. */
  function CallsOf(plugin: string, stages: seq<Stage>): (calls: seq<Call>)
    ensures |calls| == |stages|
    ensures forall i | 0 <= i < |stages| :: calls[i] == Call(plugin, stages[i])
  {
    seq(|stages|, i requires 0 <= i < |stages| => Call(plugin, stages[i]))
  }

  /** One plugin's selected hooks never call `build` before `init` nor `run` before `build`. */
  lemma LifecycleWellOrdered(plugin: string, flag: string)
    ensures WellOrdered(CallsOf(plugin, Lifecycle(flag)))
  {
  }

  /**
   Why a role pass stops at a plugin: reading its configuration section
   (`jobs`, `count`) fails, or the plugin does not load.
   */
  datatype Abort = NoSection(plugin: string) | NotLoaded(plugin: string)

  /** True when a plugin of a flagged role gets past its section read and its loading. */
  predicate Ready(name: string, sections: set<string>, loadable: set<string>) {
    name in sections && name in loadable
  }

  /**
   What driving one role through its plugins left behind: the hook calls
   made, the report path returned by the last `run`, and why the pass
   aborted, if it did.
   */
  datatype RolePass = RolePass(calls: seq<Call>, report: Option<string>, failed: Option<Abort>)

  /**
   Drive each plugin of a role list in order. With a non-empty flag each
   plugin's configuration section is read and the plugin loaded first, and
   the first one whose section is missing (`sections` holds the plugins
   whose section has `jobs` and `count`) or that does not load aborts the
   pass; every loaded plugin then gets the hooks the flag selects, so no
   plugin is built before it is initialised nor run before it is built.
   `reports` gives the report path a plugin's `run` returns, when it returns
   one; the pass keeps the last plugin's.
   */
  function RunRole(names: seq<string>, flag: string, sections: set<string>, loadable: set<string>,
                   reports: map<string, string>)
    : (p: RolePass)
    ensures WellOrdered(p.calls)
  {
    if |names| == 0 then RolePass([], None, None)
    else
      var last := names[|names| - 1];
      var p := RunRole(names[..|names| - 1], flag, sections, loadable, reports);
      if p.failed.Some? then
        p
      else if flag != "" && last !in sections then
        RolePass(p.calls, p.report, Some(NoSection(last)))
      else if flag != "" && last !in loadable then
        RolePass(p.calls, p.report, Some(NotLoaded(last)))
      else
        var own := CallsOf(last, Lifecycle(flag));
        LifecycleWellOrdered(last, flag);
        WellOrderedConcat(p.calls, own);
        var report := if flag == "run" then Get(reports, last) else None;
        RolePass(p.calls + own, report, None)
  }

  /**
   A role pass aborts exactly when the flag is non-empty and some plugin is
   not ready, and then it names the first such plugin, as a missing section
   when its section is missing and as a load failure otherwise.
   */
  lemma {:induction false} RunRoleFailure(names: seq<string>, flag: string, sections: set<string>,
                                           loadable: set<string>, reports: map<string, string>)
    ensures var p := RunRole(names, flag, sections, loadable, reports);
            p.failed.None? <==> flag == "" || forall i | 0 <= i < |names| :: Ready(names[i], sections, loadable)
    ensures var p := RunRole(names, flag, sections, loadable, reports);
            p.failed.Some? ==>
              exists k | 0 <= k < |names| ::
                && names[k] == p.failed.value.plugin
                && !Ready(names[k], sections, loadable)
                && (p.failed.value.NoSection? <==> names[k] !in sections)
                && forall j | 0 <= j < k :: Ready(names[j], sections, loadable)
  {
    if |names| > 0 {
      var front := names[..|names| - 1];
      RunRoleFailure(front, flag, sections, loadable, reports);
      assert forall i | 0 <= i < |front| :: front[i] == names[i];
      var p := RunRole(names, flag, sections, loadable, reports);
      if RunRole(front, flag, sections, loadable, reports).failed.Some? {
        var k :| 0 <= k < |front| && front[k] == p.failed.value.plugin && !Ready(front[k], sections, loadable)
                 && (p.failed.value.NoSection? <==> front[k] !in sections)
                 && forall j | 0 <= j < k :: Ready(front[j], sections, loadable);
        assert names[k] == p.failed.value.plugin;
      } else if p.failed.Some? {
        assert names[|names| - 1] == p.failed.value.plugin;
      }
    }
  }

  /** A role pass only calls hooks the flag selects, and only on plugins of the list. */
  lemma {:induction false} RunRoleCalls(names: seq<string>, flag: string, sections: set<string>, loadable: set<string>,
                                         reports: map<string, string>)
    ensures forall i | 0 <= i < |RunRole(names, flag, sections, loadable, reports).calls| ::
              && RunRole(names, flag, sections, loadable, reports).calls[i].plugin in names
              && RunRole(names, flag, sections, loadable, reports).calls[i].stage in Lifecycle(flag)
  {
    if |names| > 0 {
      var last := names[|names| - 1];
      var front := names[..|names| - 1];
      RunRoleCalls(front, flag, sections, loadable, reports);
      assert forall x | x in front :: x in names;
      var p := RunRole(names, flag, sections, loadable, reports);
      var q := RunRole(front, flag, sections, loadable, reports);
      if q.failed.None? && (flag == "" || Ready(last, sections, loadable)) {
        var own := CallsOf(last, Lifecycle(flag));
        assert p.calls == q.calls + own;
        forall i | 0 <= i < |p.calls|
          ensures p.calls[i].plugin in names && p.calls[i].stage in Lifecycle(flag)
        {
          if i < |q.calls| {
            assert p.calls[i] == q.calls[i];
            assert q.calls[i].plugin in front;
          } else {
            assert p.calls[i] == own[i - |q.calls|];
          }
        }
      } else {
        assert p.calls == q.calls;
        forall i | 0 <= i < |p.calls|
          ensures p.calls[i].plugin in names
        {
          assert q.calls[i].plugin in front;
        }
      }
    }
  }

  /**
   The trace of a role pass that does not abort: each plugin's selected
   hooks, plugin after plugin in list order.
   */
  function RoleCalls(names: seq<string>, flag: string): (calls: seq<Call>)
    ensures |calls| == |names| * |Lifecycle(flag)|
  {
    if |names| == 0 then []
    else
      MulStep(|names| - 1, |Lifecycle(flag)|);
      RoleCalls(names[..|names| - 1], flag) + CallsOf(names[|names| - 1], Lifecycle(flag))
  }

  /** Plugin `i`'s hook `j` sits at position `i * |Lifecycle(flag)| + j` of the role trace. */
  lemma {:induction false} RoleCallsAt(names: seq<string>, flag: string, i: nat, j: nat)
    requires i < |names| && j < |Lifecycle(flag)|
    ensures i * |Lifecycle(flag)| + j < |RoleCalls(names, flag)|
    ensures RoleCalls(names, flag)[i * |Lifecycle(flag)| + j] == Call(names[i], Lifecycle(flag)[j])
  {
    var n := |names| - 1;
    var k := |Lifecycle(flag)|;
    var front := names[..n];
    MulStep(n, k);
    if i < n {
      RoleCallsAt(front, flag, i, j);
      MulStep(i, k);
      MulMono(i + 1, n, k);
    } else {
      assert RoleCalls(names, flag)[n * k + j] == CallsOf(names[n], Lifecycle(flag))[j];
    }
  }

  /** A product grows with its first factor. */
  lemma MulMono(a: nat, b: nat, k: nat)
    requires a <= b
    ensures a * k <= b * k
  {
  }

  /** A role pass that does not abort makes exactly the calls of `RoleCalls`. */
  lemma {:induction false} RunRoleTrace(names: seq<string>, flag: string, sections: set<string>,
                                         loadable: set<string>, reports: map<string, string>)
    ensures var p := RunRole(names, flag, sections, loadable, reports);
            p.failed.None? ==> p.calls == RoleCalls(names, flag)
  {
    if |names| > 0 {
      RunRoleTrace(names[..|names| - 1], flag, sections, loadable, reports);
    }
  }

  /** One more plugin adds one more lifecycle's worth of calls. */
  lemma MulStep(n: nat, k: nat)
    ensures (n + 1) * k == n * k + k
  {
  }

  /** A role pass that does not abort calls every selected hook on every plugin. */
  lemma {:induction false} RunRoleCallCount(names: seq<string>, flag: string, sections: set<string>,
                                             loadable: set<string>, reports: map<string, string>)
    ensures var p := RunRole(names, flag, sections, loadable, reports);
            p.failed.None? ==> |p.calls| == |names| * |Lifecycle(flag)|
  {
    if |names| > 0 {
      var front := names[..|names| - 1];
      RunRoleCallCount(front, flag, sections, loadable, reports);
      MulStep(|front|, |Lifecycle(flag)|);
    }
  }

  /**
   A role pass that does not abort returns the report of the last plugin's
   `run` when the flag is `run`; no other flag, and no empty list, yields a
   report.
   */
  lemma RunRoleReport(names: seq<string>, flag: string, sections: set<string>, loadable: set<string>,
                      reports: map<string, string>)
    ensures var p := RunRole(names, flag, sections, loadable, reports);
            p.failed.None? && flag == "run" && |names| > 0 ==> p.report == Get(reports, names[|names| - 1])
    ensures flag != "run" || |names| == 0 ==> RunRole(names, flag, sections, loadable, reports).report.None?
  {
    if |names| > 0 {
      RunRoleReport(names[..|names| - 1], flag, sections, loadable, reports);
    }
  }
}

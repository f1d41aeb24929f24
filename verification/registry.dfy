/**
 The test registry: the mapping from test name to test entry that the
 generate, compile and merge sub-commands hand to one another through the
 serialized test list, together with the verdict bookkeeping done on it:
 resetting every verdict and counting verdicts for the final report.
 */
module Registry {
  import opened Common

  /** The verdict strings written into an entry's `result` field. */
  const UNAVAILABLE: string := "Unavailable"
  const PASSED: string := "Passed"
  const FAILED: string := "Failed"

  /**
   One generated test. `extraCompile` and `result` are optional keys of the
   serialized entry: `None` stands for the key being absent.
   */
  datatype TestEntry = TestEntry(
    cc: string,
    ccArgs: string,
    isa: string,
    linkerArgs: string,
    mabi: string,
    march: string,
    workDir: string,
    asmFile: string,
    linkerFile: string,
    extraCompile: Option<seq<string>>,
    result: Option<string>)

  /** Test name to entry. */
  type Registry = map<string, TestEntry>

  /** True when `a` and `b` agree on every field except possibly the verdict. */
  predicate SameButResult(a: TestEntry, b: TestEntry) {
    a == b.(result := a.result)
  }

  /**
   Every verdict set to `Unavailable`, as the compile sub-command does when
   comparison is disabled or a run produced no report: same tests, nothing
   but the verdict touched.
   */
  function ResetAll(reg: Registry): (r: Registry)
    ensures r.Keys == reg.Keys
    ensures forall t | t in r :: r[t].result == Some(UNAVAILABLE) && SameButResult(r[t], reg[t])
  {
    map t | t in reg :: reg[t].(result := Some(UNAVAILABLE))
  }

  /** The counters of the final report. */
  datatype Counts = Counts(total: nat, passed: nat, failed: nat, unavailable: nat)

  /** Entries whose verdict is `Passed`. */
  function PassedTests(reg: Registry): set<string> {
    set t | t in reg && reg[t].result == Some(PASSED)
  }

  /** Entries whose verdict is `Unavailable`. */
  function UnavailableTests(reg: Registry): set<string> {
    set t | t in reg && reg[t].result == Some(UNAVAILABLE)
  }

  /** Entries with a verdict other than `Passed` and `Unavailable`: all of them count as failed. */
  function FailedTests(reg: Registry): set<string> {
    set t | t in reg && reg[t].result.Some? && reg[t].result.value != PASSED && reg[t].result.value != UNAVAILABLE
  }

  /** Entries that carry a verdict at all. */
  function JudgedTests(reg: Registry): set<string> {
    set t | t in reg && reg[t].result.Some?
  }

  /** The report counters, read off the registry. */
  function CountsOf(reg: Registry): Counts {
    Counts(|reg|, |PassedTests(reg)|, |FailedTests(reg)|, |UnavailableTests(reg)|)
  }

  /** `reg` cut down to the tests in `keys`. */
  function Restrict(reg: Registry, keys: set<string>): (r: Registry)
    ensures r.Keys == reg.Keys * keys
  {
    map t | t in reg && t in keys :: reg[t]
  }

  /** Restricting to every key changes nothing. */
  lemma RestrictToAllKeys(reg: Registry)
    ensures Restrict(reg, reg.Keys) == reg
    ensures |reg.Keys| == |reg|
  {
  }

  /** A subset of equal size is the whole set. */
  lemma SubsetOfEqualSize<T>(a: set<T>, b: set<T>)
    requires a <= b && |a| == |b|
    ensures a == b
  {
    assert b == a + (b - a);
    assert |b - a| == 0;
  }

  /** The passed, failed and unavailable tests are disjoint and together make up the judged tests. */
  lemma VerdictSetsPartition(reg: Registry)
    ensures PassedTests(reg) !! FailedTests(reg) && PassedTests(reg) !! UnavailableTests(reg)
    ensures FailedTests(reg) !! UnavailableTests(reg)
    ensures PassedTests(reg) + FailedTests(reg) + UnavailableTests(reg) == JudgedTests(reg)
  {
  }

  /** The three verdict counters add up to the number of tests carrying a verdict. */
  lemma CountersSumJudged(reg: Registry)
    ensures |PassedTests(reg)| + |FailedTests(reg)| + |UnavailableTests(reg)| == |JudgedTests(reg)|
  {
    var p, f, u := PassedTests(reg), FailedTests(reg), UnavailableTests(reg);
    VerdictSetsPartition(reg);
    assert |p + f| == |p| + |f|;
    assert |p + f + u| == |p + f| + |u|;
  }

  /** At most every test carries a verdict, and all of them do exactly when the counts agree. */
  lemma JudgedBound(reg: Registry)
    ensures |JudgedTests(reg)| <= |reg|
    ensures |JudgedTests(reg)| == |reg| <==> forall t | t in reg :: reg[t].result.Some?
  {
    var judged := JudgedTests(reg);
    assert judged <= reg.Keys;
    assert |reg.Keys| == |reg|;
    assert |reg.Keys| == |judged| + |reg.Keys - judged| by {
      assert reg.Keys == judged + (reg.Keys - judged);
    }
    if |judged| == |reg| {
      SubsetOfEqualSize(judged, reg.Keys);
    }
    if forall t | t in reg :: reg[t].result.Some? {
      assert judged == reg.Keys;
    }
  }

  /**
   The three counters add up to the number of judged tests, so to at most
   the total, and to exactly the total precisely when every entry carries a
   verdict.
   */
  lemma TallyPartition(reg: Registry)
    ensures CountsOf(reg).passed + CountsOf(reg).failed + CountsOf(reg).unavailable == |JudgedTests(reg)|
    ensures CountsOf(reg).passed + CountsOf(reg).failed + CountsOf(reg).unavailable <= CountsOf(reg).total
    ensures CountsOf(reg).passed + CountsOf(reg).failed + CountsOf(reg).unavailable == CountsOf(reg).total
            <==> forall t | t in reg :: reg[t].result.Some?
  {
    CountersSumJudged(reg);
    JudgedBound(reg);
  }

  /** After a reset every test counts as unavailable and none as passed or failed. */
  lemma CountsAfterReset(reg: Registry)
    ensures CountsOf(ResetAll(reg)) == Counts(|reg|, 0, 0, |reg|)
  {
    var r := ResetAll(reg);
    assert PassedTests(r) == {};
    assert FailedTests(r) == {};
    assert UnavailableTests(r) == r.Keys;
    assert |r.Keys| == |r| == |reg|;
  }

  /**
   The body of the tally loop: one test moves the total, then `Unavailable`
   the unavailable counter, `Passed` the passed counter, any other verdict
   the failed counter, and a missing verdict none of them.
   */
  function Bump(c: Counts, verdict: Option<string>): Counts {
    var c := c.(total := c.total + 1);
    if verdict == Some(UNAVAILABLE) then c.(unavailable := c.unavailable + 1)
    else if verdict == Some(PASSED) then c.(passed := c.passed + 1)
    else if verdict.Some? then c.(failed := c.failed + 1)
    else c
  }

  /** The two verdict strings the tally tests for are different. */
  lemma VerdictsDistinct()
    ensures PASSED != UNAVAILABLE
  {
    assert |PASSED| != |UNAVAILABLE|;
  }

  /** Adding an entry adds one to the passed count exactly when its verdict is `Passed`. */
  lemma PassedStep(reg: Registry, t: string, e: TestEntry)
    requires t !in reg
    ensures |PassedTests(reg[t := e])| == |PassedTests(reg)| + (if e.result == Some(PASSED) then 1 else 0)
  {
    var p := PassedTests(reg);
    assert t !in p;
    if e.result == Some(PASSED) {
      assert PassedTests(reg[t := e]) == p + {t};
    } else {
      assert PassedTests(reg[t := e]) == p;
    }
  }

  /** Adding an entry adds one to the unavailable count exactly when its verdict is `Unavailable`. */
  lemma UnavailableStep(reg: Registry, t: string, e: TestEntry)
    requires t !in reg
    ensures |UnavailableTests(reg[t := e])| == |UnavailableTests(reg)| + (if e.result == Some(UNAVAILABLE) then 1 else 0)
  {
    var u := UnavailableTests(reg);
    assert t !in u;
    if e.result == Some(UNAVAILABLE) {
      assert UnavailableTests(reg[t := e]) == u + {t};
    } else {
      assert UnavailableTests(reg[t := e]) == u;
    }
  }

  /** Adding an entry adds one to the failed count exactly when it has some other verdict. */
  lemma FailedStep(reg: Registry, t: string, e: TestEntry)
    requires t !in reg
    ensures |FailedTests(reg[t := e])| ==
              |FailedTests(reg)|
              + (if e.result.Some? && e.result.value != PASSED && e.result.value != UNAVAILABLE then 1 else 0)
  {
    var f := FailedTests(reg);
    assert t !in f;
    if e.result.Some? && e.result.value != PASSED && e.result.value != UNAVAILABLE {
      assert FailedTests(reg[t := e]) == f + {t};
    } else {
      assert FailedTests(reg[t := e]) == f;
    }
  }

  /** Adding one entry for a new test moves the counters as `Bump` does. */
  lemma CountsStep(reg: Registry, t: string, e: TestEntry)
    requires t !in reg
    ensures CountsOf(reg[t := e]) == Bump(CountsOf(reg), e.result)
  {
    assert |reg[t := e]| == |reg| + 1;
    PassedStep(reg, t, e);
    UnavailableStep(reg, t, e);
    FailedStep(reg, t, e);
    VerdictsDistinct();
  }

  /** Restricting to one more key of the registry adds that key's entry. */
  lemma RestrictOneMore(reg: Registry, seen: set<string>, t: string)
    requires t in reg && t !in seen
    ensures t !in Restrict(reg, seen)
    ensures Restrict(reg, seen + {t}) == Restrict(reg, seen)[t := reg[t]]
  {
  }

  /** Counting one more test moves the counters as `Bump` does. */
  lemma TallyStep(reg: Registry, seen: set<string>, t: string)
    requires t in reg && t !in seen
    ensures CountsOf(Restrict(reg, seen + {t})) == Bump(CountsOf(Restrict(reg, seen)), reg[t].result)
  {
    RestrictOneMore(reg, seen, t);
    CountsStep(Restrict(reg, seen), t, reg[t]);
  }

  /** Moving one element from `pending` to `seen` keeps them a partition of `keys`. */
  lemma MoveOne<T>(pending: set<T>, seen: set<T>, keys: set<T>, t: T)
    requires pending + seen == keys && pending !! seen && t in pending
    ensures (pending - {t}) + (seen + {t}) == keys && (pending - {t}) !! (seen + {t})
    ensures t !in seen && |pending - {t}| < |pending|
  {
  }

  /**
   The report tally of the compile sub-command: one pass over the tests,
   every test adding to the total; `Unavailable` adds to the unavailable
   counter, `Passed` to the passed counter, any other verdict to the failed
   counter, and an entry without a verdict to none of them.
   */
  method TallyResults(reg: Registry) returns (c: Counts)
    ensures c.total == |reg|
    ensures c.passed == |PassedTests(reg)|
    ensures c.failed == |FailedTests(reg)|
    ensures c.unavailable == |UnavailableTests(reg)|
  {
    c := Counts(0, 0, 0, 0);
    var pending := reg.Keys;
    ghost var seen: set<string> := {};
    while pending != {}
      invariant pending + seen == reg.Keys && pending !! seen
      invariant c == CountsOf(Restrict(reg, seen))
      decreases |pending|
    {
      var t :| t in pending;
      MoveOne(pending, seen, reg.Keys, t);
      TallyStep(reg, seen, t);
      c := Bump(c, reg[t].result);
      pending := pending - {t};
      seen := seen + {t};
    }
    assert seen == reg.Keys;
    RestrictToAllKeys(reg);
  }
}

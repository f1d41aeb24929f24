/**
 The registry side of the merge sub-command: the test lists of several
 prior run directories are folded into one, each test's entry rebuilt from
 the last directory that defines it with its paths moved under the new
 output directory, and the old directories are removed only after the user
 confirms.
 */
module Merge {
  import opened Common
  import opened Text
  import opened Registry
  import opened Prompt

  /** A prior run directory and its test list, in file order. */
  datatype Source = Source(folder: string, tests: seq<(string, TestEntry)>)

  /** The directories and files that exist. */
  datatype Disk = Disk(dirs: set<string>, files: set<string>)

  /** Why a merge run aborts. */
  datatype MergeError =
    | InputExhausted          // the confirmation prompt ran out of input
    | OutputKept              // the user declined to overwrite the output directory
    | CopyFailed(test: string)      // the test's work directory could not be copied
    | ExtraMissing(test: string)    // one of the test's extra files does not exist
    | MissingResult(test: string)   // the test's entry has no verdict
    | PluginLoadFailed        // the target plugin does not load

  /**
   The merge workspace: the merged test list, the names of the files in the
   common directory in the order they were first copied, and for each
   test's directory under `asm` the work directory whose contents it holds.
   */
  datatype Workspace = Workspace(reg: Registry, common: seq<string>, asmOrigin: map<string, string>)

  function AsmDir(output: string): string {
    output + "/asm"
  }

  function CommonDir(output: string): string {
    output + "/common"
  }

  /** Python truthiness of an optional list: present and non-empty. */
  predicate Truthy(extra: Option<seq<string>>) {
    extra.Some? && |extra.value| > 0
  }

  /** A name a `*` glob skips. */
  predicate Hidden(name: string) {
    |name| > 0 && name[0] == '.'
  }

  /** The base names of `paths`. */
  function Basenames(paths: seq<string>): set<string> {
    set p | p in paths :: Basename(p)
  }

  /**
   The common directory after copying `paths` into it: a file keeps its
   base name and a name already present is overwritten in place, so the
   directory ends up holding the old names and the new base names, each
   once.
   */
  function AddNames(common: seq<string>, paths: seq<string>): (r: seq<string>)
    ensures forall n :: n in r <==> n in common || n in Basenames(paths)
    decreases |paths|
  {
    if |paths| == 0 then common
    else
      var n := Basename(paths[0]);
      var r := AddNames(if n in common then common else common + [n], paths[1..]);
      assert Basenames(paths) == {n} + Basenames(paths[1..]);
      r
  }

  /**
   A star glob over the common directory: the path of every file
   whose name does not start with a dot.
   */
  function Listing(dir: string, names: seq<string>): (r: seq<string>)
    ensures forall n | n in names && !Hidden(n) :: dir + "/" + n in r
    ensures |r| <= |names|
  {
    if |names| == 0 then []
    else
      var front := Listing(dir, names[..|names| - 1]);
      var n := names[|names| - 1];
      assert forall m | m in names :: m in names[..|names| - 1] || m == n;
      if Hidden(n) then front else front + [dir + "/" + n]
  }

  /**
   Copying a work directory to the test's directory under `asm`, as
   intended: the test's directory ends up holding the copied work
   directory, whether or not an earlier source already filled it.
   */
  function CopyWorkDir(origin: map<string, string>, test: string, workDir: string): (r: map<string, string>)
    ensures r.Keys == origin.Keys + {test}
    ensures r[test] == workDir
    ensures forall u | u in origin && u != test :: r[u] == origin[u]
  {
    origin[test := workDir]
  }

  /**
   Copying a work directory with `cp -r -f workDir asm/test` as written:
   when `asm/test` already exists the copy lands inside it, one level down,
   so the directory keeps the contents of the first source that filled it.
   */
  function CopyWorkDirAsWritten(origin: map<string, string>, test: string, workDir: string)
    : (r: map<string, string>)
    ensures r.Keys == origin.Keys + {test}
    ensures test in origin ==> r[test] == origin[test]
    ensures test !in origin ==> r[test] == workDir
    ensures forall u | u in origin && u != test :: r[u] == origin[u]
  {
    if test in origin then origin else origin[test := workDir]
  }

  /** True when a source entry can be merged: its work directory exists, its extra files exist, it has a verdict. */
  predicate Mergeable(e: TestEntry, disk: Disk) {
    && e.workDir in disk.dirs
    && (Truthy(e.extraCompile) ==> forall i | 0 <= i < |e.extraCompile.value| :: e.extraCompile.value[i] in disk.files)
    && e.result.Some?
  }

  /**
   True when `n` is the entry the merge builds for test `t` from the source
   entry `e`: compiler, flags, ISA, ABI, architecture and verdict copied
   unchanged, the work directory `asm/<t>` with the assembly and linker
   script named after the test inside it, and extra files listed exactly
   when the source listed some.
   */
  predicate RebuiltFrom(n: TestEntry, e: TestEntry, output: string, t: string) {
    && n.cc == e.cc && n.ccArgs == e.ccArgs && n.isa == e.isa
    && n.linkerArgs == e.linkerArgs && n.mabi == e.mabi && n.march == e.march
    && n.result == e.result
    && n.workDir == AsmDir(output) + "/" + t
    && n.asmFile == n.workDir + "/" + t + ".S"
    && n.linkerFile == n.workDir + "/" + t + ".ld"
    && (n.extraCompile.Some? <==> Truthy(e.extraCompile))
  }

  /**
   Merge one test into the workspace: copy its work directory, copy its
   extra files into the common directory and list that directory, then
   rebuild its entry from scratch.
   */
  function MergeTest(ws: Workspace, output: string, name: string, e: TestEntry, disk: Disk)
    : (r: Result<Workspace, MergeError>)
    ensures r.Ok? <==> Mergeable(e, disk)
    ensures r.Ok? ==> && r.value.reg.Keys == ws.reg.Keys + {name}
                      && RebuiltFrom(r.value.reg[name], e, output, name)
                      && (forall u | u in ws.reg && u != name :: r.value.reg[u] == ws.reg[u])
                      && r.value.asmOrigin == CopyWorkDir(ws.asmOrigin, name, e.workDir)
    ensures r.Ok? && Truthy(e.extraCompile) ==>
              forall p | p in e.extraCompile.value && !Hidden(Basename(p)) ::
                CommonDir(output) + "/" + Basename(p) in r.value.reg[name].extraCompile.value
  {
    if e.workDir !in disk.dirs then Err(CopyFailed(name))
    else if Truthy(e.extraCompile)
            && !(forall i | 0 <= i < |e.extraCompile.value| :: e.extraCompile.value[i] in disk.files) then
      Err(ExtraMissing(name))
    else if e.result.None? then Err(MissingResult(name))
    else
      var common := if Truthy(e.extraCompile) then AddNames(ws.common, e.extraCompile.value) else ws.common;
      var extra := if Truthy(e.extraCompile) then Some(Listing(CommonDir(output), common)) else None;
      var dir := AsmDir(output) + "/" + name;
      var entry := TestEntry(e.cc, e.ccArgs, e.isa, e.linkerArgs, e.mabi, e.march,
                             dir, dir + "/" + name + ".S", dir + "/" + name + ".ld", extra, e.result);
      Ok(Workspace(ws.reg[name := entry], common, CopyWorkDir(ws.asmOrigin, name, e.workDir)))
  }

  /**
   Merge the tests in order, the first failure aborting. Every test of the
   merged list has its own directory under `asm`, and no directory is
   there without a test.
   */
  function MergeAll(pairs: seq<(string, TestEntry)>, output: string, disk: Disk): (r: Result<Workspace, MergeError>)
    ensures r.Ok? ==> r.value.reg.Keys == r.value.asmOrigin.Keys
  {
    if |pairs| == 0 then Ok(Workspace(map[], [], map[]))
    else
      match MergeAll(pairs[..|pairs| - 1], output, disk)
      case Err(e) => Err(e)
      case Ok(ws) => MergeTest(ws, output, pairs[|pairs| - 1].0, pairs[|pairs| - 1].1, disk)
  }

  /** The tests of every source, source after source. */
  function Flatten(sources: seq<Source>): (pairs: seq<(string, TestEntry)>)
    ensures |sources| == 0 ==> pairs == []
  {
    if |sources| == 0 then [] else Flatten(sources[..|sources| - 1]) + sources[|sources| - 1].tests
  }

  /** The position of the last pair naming `t`, or -1 when none does. */
  function LastIndex(pairs: seq<(string, TestEntry)>, t: string): (k: int)
    ensures -1 <= k < |pairs|
    ensures k >= 0 ==> pairs[k].0 == t
    ensures forall j | k < j < |pairs| :: pairs[j].0 != t
  {
    if |pairs| == 0 then -1
    else if pairs[|pairs| - 1].0 == t then |pairs| - 1
    else LastIndex(pairs[..|pairs| - 1], t)
  }

  /** The position of the first pair naming `t`, or |pairs| when none does. */
  function FirstIndex(pairs: seq<(string, TestEntry)>, t: string): (k: nat)
    ensures k <= |pairs|
    ensures k < |pairs| ==> pairs[k].0 == t
    ensures forall j | 0 <= j < k :: pairs[j].0 != t
  {
    if |pairs| == 0 then 0
    else if pairs[0].0 == t then 0
    else FirstIndex(pairs[1..], t) + 1
  }

  /** A merge succeeds exactly when every test of every source can be merged. */
  lemma {:induction false} MergeAllSucceeds(pairs: seq<(string, TestEntry)>, output: string, disk: Disk)
    ensures MergeAll(pairs, output, disk).Ok? <==> forall i | 0 <= i < |pairs| :: Mergeable(pairs[i].1, disk)
  {
    if |pairs| > 0 {
      var n := |pairs| - 1;
      var front := pairs[..n];
      MergeAllSucceeds(front, output, disk);
      assert forall i | 0 <= i < |front| :: front[i] == pairs[i];
      var o := MergeAll(front, output, disk);
      if o.Ok? {
        assert MergeAll(pairs, output, disk) == MergeTest(o.value, output, pairs[n].0, pairs[n].1, disk);
      } else {
        assert MergeAll(pairs, output, disk) == Err(o.error);
      }
    }
  }

  /**
   Last source wins, and nothing carries over: after a successful merge the
   tests are exactly the names of the sources (`MergeAllKeys`), each entry
   is rebuilt from the last source entry of that name, and that test's
   directory holds the work directory of the same entry (`MergeAllEntries`).
   */
  lemma {:induction false} MergeAllKeys(pairs: seq<(string, TestEntry)>, output: string, disk: Disk)
    requires MergeAll(pairs, output, disk).Ok?
    ensures forall t :: t in MergeAll(pairs, output, disk).value.reg <==> LastIndex(pairs, t) >= 0
  {
    if |pairs| > 0 {
      var front := pairs[..|pairs| - 1];
      var last := pairs[|pairs| - 1];
      MergeAllKeys(front, output, disk);
      var ws0 := MergeAll(front, output, disk).value;
      var ws := MergeAll(pairs, output, disk).value;
      assert MergeAll(pairs, output, disk) == MergeTest(ws0, output, last.0, last.1, disk);
      forall t
        ensures t in ws.reg <==> LastIndex(pairs, t) >= 0
      {
        if t != last.0 {
          assert LastIndex(pairs, t) == LastIndex(front, t);
        }
      }
    }
  }

  /** Each merged test is rebuilt from, and has the directory of, the last source entry of its name. */
  lemma {:induction false} MergeAllEntries(pairs: seq<(string, TestEntry)>, output: string, disk: Disk)
    requires MergeAll(pairs, output, disk).Ok?
    ensures var ws := MergeAll(pairs, output, disk).value;
            forall t | t in ws.reg ::
              && LastIndex(pairs, t) >= 0
              && RebuiltFrom(ws.reg[t], pairs[LastIndex(pairs, t)].1, output, t)
              && t in ws.asmOrigin && ws.asmOrigin[t] == pairs[LastIndex(pairs, t)].1.workDir
  {
    if |pairs| > 0 {
      var front := pairs[..|pairs| - 1];
      var last := pairs[|pairs| - 1];
      MergeAllEntries(front, output, disk);
      var ws0 := MergeAll(front, output, disk).value;
      var ws := MergeAll(pairs, output, disk).value;
      assert MergeAll(pairs, output, disk) == MergeTest(ws0, output, last.0, last.1, disk);
      forall t | t in ws.reg
        ensures LastIndex(pairs, t) >= 0
        ensures RebuiltFrom(ws.reg[t], pairs[LastIndex(pairs, t)].1, output, t)
        ensures t in ws.asmOrigin && ws.asmOrigin[t] == pairs[LastIndex(pairs, t)].1.workDir
      {
        if t != last.0 {
          var k := LastIndex(front, t);
          assert LastIndex(pairs, t) == k;
          assert pairs[k] == front[k];
          assert ws.reg[t] == ws0.reg[t];
        }
      }
    }
  }

  /** The asm directories as the `cp -r -f` copies written in the source leave them. */
  function OriginsAsWritten(pairs: seq<(string, TestEntry)>): map<string, string> {
    if |pairs| == 0 then map[]
    else
      var last := pairs[|pairs| - 1];
      CopyWorkDirAsWritten(OriginsAsWritten(pairs[..|pairs| - 1]), last.0, last.1.workDir)
  }

  /**
   As written, a test's directory holds the work directory of the FIRST
   source entry of that name, while its rebuilt entry comes from the last.
   */
  lemma {:induction false} AsWrittenKeepsFirstCopy(pairs: seq<(string, TestEntry)>, t: string)
    requires FirstIndex(pairs, t) < |pairs|
    ensures t in OriginsAsWritten(pairs)
    ensures OriginsAsWritten(pairs)[t] == pairs[FirstIndex(pairs, t)].1.workDir
  {
    var n := |pairs|;
    var front := pairs[..n - 1];
    var last := pairs[n - 1];
    assert OriginsAsWritten(pairs) == CopyWorkDirAsWritten(OriginsAsWritten(front), last.0, last.1.workDir);
    FirstIndexOfFront(pairs, t);
    if last.0 != t || FirstIndex(front, t) < n - 1 {
      AsWrittenKeepsFirstCopy(front, t);
    } else {
      OriginsAsWrittenKeys(front, t);
    }
  }

  /** The first occurrence in a sequence is the first occurrence in its front, unless it is the last element. */
  lemma {:induction false} FirstIndexOfFront(pairs: seq<(string, TestEntry)>, t: string)
    requires |pairs| > 0
    ensures FirstIndex(pairs[..|pairs| - 1], t) < |pairs| - 1 ==>
              FirstIndex(pairs, t) == FirstIndex(pairs[..|pairs| - 1], t)
    ensures FirstIndex(pairs[..|pairs| - 1], t) == |pairs| - 1 ==>
              FirstIndex(pairs, t) == |pairs| - 1 || FirstIndex(pairs, t) == |pairs|
  {
    var front := pairs[..|pairs| - 1];
    var k := FirstIndex(front, t);
    var m := FirstIndex(pairs, t);
    if k < |front| {
      assert pairs[k].0 == t;
      assert m <= k;
      assert m < |front| ==> front[m].0 == t;
    }
  }

  /** The as-written fold has a directory for exactly the names merged so far. */
  lemma {:induction false} OriginsAsWrittenKeys(pairs: seq<(string, TestEntry)>, t: string)
    ensures t in OriginsAsWritten(pairs) <==> FirstIndex(pairs, t) < |pairs|
  {
    if |pairs| > 0 {
      var front := pairs[..|pairs| - 1];
      var last := pairs[|pairs| - 1];
      assert OriginsAsWritten(pairs) == CopyWorkDirAsWritten(OriginsAsWritten(front), last.0, last.1.workDir);
      OriginsAsWrittenKeys(front, t);
      FirstIndexOfFront(pairs, t);
      if FirstIndex(pairs, t) < |pairs| && FirstIndex(front, t) == |front| {
        assert pairs[FirstIndex(pairs, t)].0 == t;
        assert FirstIndex(pairs, t) == |pairs| - 1;
      }
    }
  }

  /** What a merge run did: whether it cleared the old output directory, which sources it removed, what test list it wrote. */
  datatype MergeOutcome = MergeOutcome(
    clearedOutput: bool,
    removedSources: seq<string>,
    written: Option<Registry>,
    status: Result<(), MergeError>)

  /** The source directories, in order. */
  function Folders(sources: seq<Source>): (r: seq<string>)
    ensures |r| == |sources|
    ensures forall i | 0 <= i < |sources| :: r[i] == sources[i].folder
  {
    seq(|sources|, i requires 0 <= i < |sources| => sources[i].folder)
  }

  /**
   The merge sub-command, coverage left aside. An existing output directory
   is cleared only on a yes (a no aborts); the sources are merged; the
   target plugin must load; the merged list is written; then the source
   directories are removed only on a second yes.
   */
  function MergeRun(outputExists: bool, input: seq<string>, output: string, sources: seq<Source>, disk: Disk,
                    pluginLoads: bool): (o: MergeOutcome)
    ensures o.clearedOutput <==> outputExists && Confirm(input).Some? && Confirm(input).value.yes
    ensures o.written.Some? <==>
              && (outputExists ==> Confirm(input).Some? && Confirm(input).value.yes)
              && MergeAll(Flatten(sources), output, disk).Ok? && pluginLoads
    ensures o.written.Some? ==> o.written.value == MergeAll(Flatten(sources), output, disk).value.reg
    ensures o.status.Ok? ==> o.written.Some?
  {
    var first := Confirm(input);
    if outputExists && first.None? then MergeOutcome(false, [], None, Err(InputExhausted))
    else if outputExists && !first.value.yes then MergeOutcome(false, [], None, Err(OutputKept))
    else MergeAndRemove(outputExists, if outputExists then first.value.rest else input, output, sources, disk,
                        pluginLoads)
  }

  /**
   The merge sub-command once the output directory is settled (`cleared`
   when it had to be cleared): merge, load the target plugin, write the
   list, then ask on `rest` whether to remove the sources.
   */
  function MergeAndRemove(cleared: bool, rest: seq<string>, output: string, sources: seq<Source>, disk: Disk,
                          pluginLoads: bool): (o: MergeOutcome)
    ensures o.clearedOutput == cleared
    ensures o.written.Some? <==> MergeAll(Flatten(sources), output, disk).Ok? && pluginLoads
    ensures o.written.Some? ==> o.written.value == MergeAll(Flatten(sources), output, disk).value.reg
    ensures o.status.Ok? ==> o.written.Some?
  {
    match MergeAll(Flatten(sources), output, disk)
    case Err(e) => MergeOutcome(cleared, [], None, Err(e))
    case Ok(ws) =>
      if !pluginLoads then MergeOutcome(cleared, [], None, Err(PluginLoadFailed))
      else
        var second := Confirm(rest);
        if second.None? then MergeOutcome(cleared, [], Some(ws.reg), Err(InputExhausted))
        else if second.value.yes then MergeOutcome(cleared, Folders(sources), Some(ws.reg), Ok(()))
        else MergeOutcome(cleared, [], Some(ws.reg), Ok(()))
  }

  /** True when the user typed `y` or `Y` on some line before position `k`. */
  predicate YesBefore(input: seq<string>, k: int) {
    exists j | 0 <= j < k && j < |input| :: Lower(input[j]) == "y"
  }

  /**
   Declining to overwrite an existing output directory changes nothing: no
   directory is cleared or removed and no test list is written.
   */
  lemma DeclineKeepsEverything(outputExists: bool, input: seq<string>, output: string, sources: seq<Source>,
                               disk: Disk, pluginLoads: bool)
    requires outputExists && Confirm(input).Some? && !Confirm(input).value.yes
    ensures MergeRun(outputExists, input, output, sources, disk, pluginLoads)
            == MergeOutcome(false, [], None, Err(OutputKept))
  {
  }

  /** A yes reply comes from a `y` line, and the rest of the input follows that line. */
  lemma YesLine(input: seq<string>) returns (k: nat)
    requires Confirm(input).Some? && Confirm(input).value.yes
    ensures k < |input| && Lower(input[k]) == "y"
    ensures Confirm(input).value.rest == input[k + 1..]
  {
    var r := Confirm(input).value;
    k := |input| - |r.rest| - 1;
    assert AnsweredAt(input, k, r);
  }

  /** The existing output directory is cleared only after a yes. */
  lemma ClearingNeedsConsent(outputExists: bool, input: seq<string>, output: string, sources: seq<Source>,
                             disk: Disk, pluginLoads: bool)
    ensures MergeRun(outputExists, input, output, sources, disk, pluginLoads).clearedOutput ==>
              outputExists && YesBefore(input, |input|)
  {
    if MergeRun(outputExists, input, output, sources, disk, pluginLoads).clearedOutput {
      var k := YesLine(input);
    }
  }

  /**
   The sources are removed only after the merged list was written, and
   then all of them.
   */
  lemma RemovalNeedsConsent(outputExists: bool, input: seq<string>, output: string, sources: seq<Source>,
                            disk: Disk, pluginLoads: bool)
    ensures var o := MergeRun(outputExists, input, output, sources, disk, pluginLoads);
            |o.removedSources| > 0 ==> o.written.Some? && o.status.Ok? && o.removedSources == Folders(sources)
  {
    var o := MergeRun(outputExists, input, output, sources, disk, pluginLoads);
    if |o.removedSources| > 0 {
      var rest := AfterFirst(outputExists, input);
      assert o == MergeAndRemove(outputExists, rest, output, sources, disk, pluginLoads);
      RemovalAfterWrite(outputExists, rest, output, sources, disk, pluginLoads);
    }
  }

  /** Once the output is settled, the sources are removed only after a successful write, and then all of them. */
  lemma RemovalAfterWrite(cleared: bool, rest: seq<string>, output: string, sources: seq<Source>, disk: Disk,
                          pluginLoads: bool)
    ensures var o := MergeAndRemove(cleared, rest, output, sources, disk, pluginLoads);
            |o.removedSources| > 0 ==>
              && o.written.Some? && o.status.Ok? && o.removedSources == Folders(sources)
              && Confirm(rest).Some? && Confirm(rest).value.yes
  {
  }

  /** The input left for the second question. */
  function AfterFirst(outputExists: bool, input: seq<string>): seq<string> {
    if outputExists && Confirm(input).Some? then Confirm(input).value.rest else input
  }

  /**
   Removing the sources takes a typed yes to the second question, and when
   the output directory existed, a yes to the first.
   */
  lemma RemovalAnswers(outputExists: bool, input: seq<string>, output: string, sources: seq<Source>,
                       disk: Disk, pluginLoads: bool)
    requires |MergeRun(outputExists, input, output, sources, disk, pluginLoads).removedSources| > 0
    ensures outputExists ==> Confirm(input).Some? && Confirm(input).value.yes
    ensures Confirm(AfterFirst(outputExists, input)).Some? && Confirm(AfterFirst(outputExists, input)).value.yes
  {
    var first := Confirm(input);
    if outputExists && (first.None? || !first.value.yes) {
      assert false;
    } else {
      var rest := AfterFirst(outputExists, input);
      assert MergeRun(outputExists, input, output, sources, disk, pluginLoads)
             == MergeAndRemove(outputExists, rest, output, sources, disk, pluginLoads);
      RemovalAfterWrite(outputExists, rest, output, sources, disk, pluginLoads);
    }
  }

  /**
   Two yes replies in a row come from two `y` lines, the second after the
   first.
   */
  lemma {:induction false} TwoYesLines(input: seq<string>)
    requires Confirm(input).Some? && Confirm(input).value.yes
    requires Confirm(Confirm(input).value.rest).Some? && Confirm(Confirm(input).value.rest).value.yes
    ensures exists k | 0 <= k < |input| :: Lower(input[k]) == "y" && YesBefore(input, k)
  {
    var rest := Confirm(input).value.rest;
    var k1 := YesLine(input);
    var k2 := YesLine(rest);
    assert input[k1 + 1 + k2] == rest[k2];
    assert YesBefore(input, k1 + 1 + k2);
  }

  /**
   Removing the sources takes a typed yes, and when the output directory
   existed a second one after the yes that cleared it.
   */
  lemma RemovalNeedsYes(outputExists: bool, input: seq<string>, output: string, sources: seq<Source>,
                        disk: Disk, pluginLoads: bool)
    requires |MergeRun(outputExists, input, output, sources, disk, pluginLoads).removedSources| > 0
    ensures exists k | 0 <= k < |input| :: Lower(input[k]) == "y" && (outputExists ==> YesBefore(input, k))
  {
    RemovalAnswers(outputExists, input, output, sources, disk, pluginLoads);
    if outputExists {
      TwoYesLines(input);
    } else {
      var k := YesLine(input);
    }
  }

  /**
   Two sources that both hold test `shared` in different work directories:
   the merged entry describes the second, the directory the copies leave
   holds the first.
   */
  lemma NestedCopyExample(e1: TestEntry, e2: TestEntry)
    requires e1.workDir != e2.workDir
    ensures var pairs := [("shared", e1), ("shared", e2)];
            && LastIndex(pairs, "shared") == 1
            && OriginsAsWritten(pairs)["shared"] == e1.workDir != e2.workDir
  {
    var pairs := [("shared", e1), ("shared", e2)];
    assert pairs[..1] == [("shared", e1)];
    assert pairs[..1][..0] == [];
    assert OriginsAsWritten(pairs[..1]) == map["shared" := e1.workDir];
  }
}

# RiVer Core bookkeeping, modelled in Dafny

RiVer Core is a plugin-driven verification framework for RISC-V cores. A
*generator* suite produces assembly tests. A *target* (the design under
test) and a *reference* model run them. The framework compares the two
memory dumps of each test and reports a verdict per test.

Most of the framework is plugin plumbing. This project models the
deterministic bookkeeping inside that plumbing, with the filesystem,
plugins and user input reduced to values:

- **Test registry** (`registry.dfy`). The registry maps a test name to a
  `TestEntry`. Its `result` field is optional and holds `Unavailable`,
  `Passed`, `Failed` or any other string. This file also holds the
  reset-all operation and the verdict tally of the final report.
- **Hooks** (`hooks.dfy`). Hook calls are a trace of `(plugin, stage)`
  calls. The `init|build|run` flag selects a prefix of
  `init, build, run` for each plugin of a role.
- **generate** (`generate.dfy`). This covers:
  - parsing the suite list;
  - the `pre_gen, gen, post_gen` trace of each suite;
  - the left-to-right `dict.update` of the suites' test-list fragments;
  - the three ways a suite aborts the run.
- **compile** (`compile.dfy`). This covers:
  - the target pass and the reference pass, including the `''` rule that disables a role;
  - comparing each test's two dumps byte for byte;
  - resetting verdicts when a run returned no report or comparison is off;
  - what is written back to the test list;
  - when `post_run` is called.
- **merge** (`merge.dfy`). This covers:
  - rebuilding the test list from several prior run directories;
  - copying work directories and extra files;
  - the two Y/N confirmations guarding deletion.
- **confirm** (`prompt.dfy`). This is the Y/N loop over a finite sequence
  of typed lines. Running out of lines is the end-of-input error.
- **JSON row filter** (`pytest_json.dfy`). It keeps only the `TestReport`
  rows of a pytest JSON log.
- **MicroTESK `post_gen`** (`microtesk.dfy`). This covers:
  - deriving the test name and linker-script name from a generated `.S` path;
  - the relocation plan and the directories removed afterwards;
  - the regression list built from a directory listing;
  - writing the regression file.
- **Python string helpers** (`text.dfy`). These are `str.replace(p, '')`,
  `str.split`, `str.lower` (the ASCII part), `os.path.basename` and
  `os.path.dirname`.
- **Scenarios** (`scenarios.dfy`). These are end-to-end outcomes of the
  sub-commands on small concrete inputs, derived from the model above.

Values stand in for the outside world:

| Outside thing | Modelled as |
|---|---|
| Which plugins load | a set of names |
| Which plugins have a configuration section with `jobs` and `count` | a set of names |
| What a plugin's `run` hook returns | an optional report path |
| The files present after a run | a map from path to bytes |
| Directories | a set of paths, or a map from a directory to its listing |
| The user's typed answers | a finite sequence of lines |

The model follows what the compile and merge sub-commands do. For example,
when the compile sub-command compares dumps, a test missing a dump keeps the
verdict it was loaded with. It does not become `Unavailable`: it is
`Unavailable` only if it was loaded that way.

The two rows under Findings are the exception. There the end-to-end members
follow the evidently intended behaviour, and the code as written is modelled
only by separate members:

- `MicroTesk.PostGen` writes the regression file through
  `MicroTesk.WriteIntended`, which keeps the other suites. The code as
  written, which drops them and fails on a file without `microtesk`, is
  `MicroTesk.WriteAsWritten`.
- `Merge.MergeAll` (and so `Merge.MergeRun`) copies work directories with
  `Merge.CopyWorkDir`, so a test's directory comes from its last source.
  The code as written, which keeps the first source's copy, is
  `Merge.CopyWorkDirAsWritten`, folded over the sources by
  `Merge.OriginsAsWritten`.

Rows of the table below that describe this intended behaviour are marked
"(intended; see Findings)".

## Model

| member | source | states |
|---|---|---|
| Common.Get | river_core/rivercore.py:45 | `dict.get` gives a value exactly when the key is present, and then the stored value; the JSON filter reads `$report_type` through it |
| Text.DeleteAll | river_core/rivercore.py:294 | `replace(p, '')`: never longer than the input; unchanged when `p` does not occur; it works piece by piece (Text.DeleteCharConcat, Text.DeletePairConcat) |
| Text.DeleteCharConcat | river_core/rivercore.py:294 | deleting a one-character pattern from `a + b` gives the result for `a` followed by the result for `b`, so surviving characters keep their order |
| Text.DeletePairConcat | river_core/microtesk_plugin/microtesk_plugin.py:88 | deleting a two-character pattern of distinct characters, such as `.S`, from `a + pat + b` gives the result for `a` followed by the result for `b` |
| Text.DeleteCharSpec | river_core/rivercore.py:294 | deleting a one-character pattern removes every copy of it, every other character keeping its multiplicity; their order is kept by Text.DeleteCharConcat |
| Text.DeleteAllKeepsChars | river_core/microtesk_plugin/microtesk_plugin.py:88 | deleting a pattern never introduces a character, so a slash-free base name stays slash-free |
| Text.Split | river_core/rivercore.py:294 | `split(sep)` gives at least one part and no part holds the separator |
| Text.JoinSplit | river_core/rivercore.py:294 | joining the parts of `split(sep)` with the separator gives the input back |
| Text.SplitAvoids | river_core/rivercore.py:294 | a character missing from the input is missing from every part |
| Text.SplitJoin | river_core/rivercore.py:428-429 | splitting a join of separator-free parts gives the parts back (split and join are inverse) |
| Text.Basename | river_core/microtesk_plugin/microtesk_plugin.py:88-89 | `os.path.basename` is the slash-free suffix of the path, either the whole path or preceded by a slash |
| Text.PathRoundTrip | river_core/microtesk_plugin/microtesk_plugin.py:87-89 | `basename` and `dirname` of `d/name` give back `name` and `d` |
| Text.Lower | river_core/rivercore.py:224 | no ASCII upper-case letter is left; each becomes the letter 32 code points above it, and every other character stays in place, so the length is unchanged |
| Text.LowerIdempotent | river_core/rivercore.py:224 | lower-casing an already lower-cased answer changes nothing |
| Registry.ResetAll | river_core/rivercore.py:629-634 | every verdict becomes `Unavailable`; same tests; no other field changes |
| Registry.TallyResults | river_core/rivercore.py:161-173 | the loop counts every entry in `num_total`, and counts as passed, unavailable and failed exactly the entries with verdict `Passed`, `Unavailable`, or any other verdict |
| Registry.CountsStep | river_core/rivercore.py:162-173 | counting one more test moves the counters as one pass of the loop body does: the total always, then the one counter its verdict selects, or none without a verdict |
| Registry.CountersSumJudged | river_core/rivercore.py:161-173 | passed + failed + unavailable equals the number of entries with a verdict |
| Registry.JudgedBound | river_core/rivercore.py:161-173 | at most every entry has a verdict, and all do exactly when the two counts agree |
| Registry.TallyPartition | river_core/rivercore.py:161-173 | passed + failed + unavailable equals the number of entries with a verdict; it is at most the total, with equality exactly when every entry has a verdict |
| Registry.CountsAfterReset | river_core/rivercore.py:678-685 | after a reset every test counts as unavailable and none as passed or failed |
| PytestJson.Sanitise | river_core/rivercore.py:42-48 | keeps only `TestReport` rows; every such row keeps its multiplicity |
| PytestJson.SanitiseIsSubsequence | river_core/rivercore.py:42-48 | the kept rows are a subsequence of the input, in the original order |
| PytestJson.SanitiseIdempotent | river_core/rivercore.py:42-48 | filtering a second time changes nothing |
| PytestJson.AllReportsKept | river_core/rivercore.py:42-48 | an input made only of `TestReport` rows is returned unchanged |
| Prompt.Confirm | river_core/rivercore.py:216-226 | there is no reply exactly when no line is an acceptable answer; otherwise the first acceptable line decides the reply, rejected lines before it are skipped, and the line is consumed |
| Prompt.YesSpellings | river_core/rivercore.py:224-226 | the accepted yes-answers are exactly `y` and `Y` |
| Hooks.Lifecycle | river_core/rivercore.py:492-517 | `init` gives `[init]`, `build` gives `[init, build]`, `run` gives `[init, build, run]`; any other flag gives no hook; `build` only with `init` and `run` only with `build` |
| Hooks.LifecycleWellOrdered | river_core/rivercore.py:492-517 | one plugin's lifecycle never calls `build` without `init` just before it, or `run` without `build` just before it |
| Hooks.WellOrderedConcat | river_core/rivercore.py:449-586 | appending well-ordered traces keeps the ordering |
| Hooks.RunRole | river_core/rivercore.py:452-517 | the hook trace of a role pass is well ordered |
| Hooks.RunRoleFailure | river_core/rivercore.py:453-491 | a role pass aborts exactly when the flag is non-empty and some plugin lacks its configuration section or fails to load; it names the first such plugin, as a missing section exactly when its section is missing |
| Hooks.RunRoleTrace | river_core/rivercore.py:452-517 | a pass that does not abort makes exactly the calls of `RoleCalls`: each listed plugin's selected hooks, plugin after plugin in list order |
| Hooks.RoleCallsAt | river_core/rivercore.py:452-517 | in that trace, position `i × (lifecycle length) + j` holds hook `j` of the lifecycle on plugin `i` |
| Hooks.RunRoleCalls | river_core/rivercore.py:452-517 | every call goes to a listed plugin with a stage of the flag's lifecycle |
| Hooks.RunRoleCallCount | river_core/rivercore.py:452-517 | a pass that does not abort makes exactly (number of plugins) × (lifecycle length) calls |
| Hooks.RunRoleReport | river_core/rivercore.py:512-515 | a pass has a report exactly when the flag is `run` and the last plugin's `run` returned one; the report is that plugin's |
| Generate.SuiteList | river_core/rivercore.py:294 | suite names hold no space or comma, and joining them with commas gives the setting without spaces |
| Generate.MergeFragmentsSpec | river_core/rivercore.py:340-342 | a test is in the merged list exactly when some fragment defines it, and it has the entry of the last such fragment |
| Generate.RunSuites | river_core/rivercore.py:303-350 | the generator hook trace is well ordered |
| Generate.RunSuitesSucceeds | river_core/rivercore.py:303-350 | generation succeeds exactly when every suite has a configuration section, a plugin that loads, and returns a fragment |
| Generate.RunSuitesCalls | river_core/rivercore.py:303-350 | a successful run calls `pre_gen`, `gen`, `post_gen` on each suite, suite after suite |
| Generate.RunSuitesSpec | river_core/rivercore.py:303-350 | a successful run's test list is the left-to-right `update` merge of the suites' fragments |
| Generate.GenerateTests | river_core/rivercore.py:294-350 | the generate sub-command succeeds exactly when every suite named by the setting generates; it then calls `pre_gen`, `gen`, `post_gen` on each named suite in order, and its test list is the last-wins merge of their fragments |
| Generate.LaterSuiteWins | river_core/rivercore.py:340-342 | on a name clash the test has the entry of the last suite that defines it |
| Compile.CompareDumps | river_core/rivercore.py:595-608 | a test with both dumps is `Passed` exactly when they are equal and `Failed` otherwise; a test missing a dump keeps its entry; only verdicts change |
| Compile.Compile | river_core/rivercore.py:449-688 | the whole compile trace, `post_run` included, is well ordered |
| Compile.PassReport | river_core/rivercore.py:512-515 | a role pass that does not abort reports exactly when its last plugin ran with `run` and reported |
| Compile.CompileSucceeds | river_core/rivercore.py:449-586 | the run gets through both roles exactly when: every target has its configuration section and loads (or targets are disabled or unflagged); the reference list is not disabled; every reference has its section and loads (or references are unflagged) |
| Compile.FirstUnreadyTargetAborts | river_core/rivercore.py:452-491 | with flagged targets, the first target without its section aborts the run with `MissingSection` for it, and the first one that does not load with `PluginLoadFailed` |
| Compile.ReferenceDisabledAborts | river_core/rivercore.py:519-521 | a reference list holding `''` aborts the run, and only target hooks have run |
| Compile.TargetsDisabledSkipped | river_core/rivercore.py:449-450 | a target list holding `''` calls no target hook |
| Compile.CompareVerdicts | river_core/rivercore.py:589-616 | with both reports, the report's verdicts are the dump comparison, and the loaded entry for a test missing a dump |
| Compile.MissingReportResets | river_core/rivercore.py:622-647 | when either role's last `run` returned nothing, every reported verdict is `Unavailable` and the counts are (n, 0, 0, n) |
| Compile.ComparedReportSaved | river_core/rivercore.py:595-608 | with comparison on, the rewritten test list exists exactly when some test had both dumps and holds `Passed` exactly for equal dumps |
| Compile.SavedListKeepsComparison | river_core/rivercore.py:595-647 | the test list on disk is rewritten exactly when some test had both dumps, and then holds the comparison verdicts, never the reset |
| Compile.NoCompareResets | river_core/rivercore.py:678-688 | with comparison off, every verdict is `Unavailable`, the counts are (n, 0, 0, n), and the file is left alone |
| Compile.PassesCallNoPostRun | river_core/rivercore.py:452-586 | the role passes never call `post_run` |
| Compile.PostRunOnlyWithAllReports | river_core/rivercore.py:673-676 | `post_run` is called exactly when comparison is on, both roles reported, and a generator report exists |
| Compile.PostRunComesLast | river_core/rivercore.py:673-676 | no other hook follows a `post_run` |
| Merge.AddNames | river_core/rivercore.py:781-785 | the common directory holds the old names and the base names of the copied extras |
| Merge.Listing | river_core/rivercore.py:786 | every common file whose name does not start with a dot is listed under the common directory |
| Merge.CopyWorkDir | river_core/rivercore.py:775-779 | (intended; see Findings) intended copy: the test's directory holds the copied work directory; other tests' directories are untouched |
| Merge.CopyWorkDirAsWritten | river_core/rivercore.py:775-779 | `cp -r -f` as written: an existing test directory keeps its contents, and only a new one receives the copy |
| Merge.MergeTest | river_core/rivercore.py:768-797 | one test merges exactly when it is mergeable: its work directory exists, any extra files exist, and it has a verdict. It is then rebuilt: compiler, flags, ISA, ABI, arch and verdict copied; paths moved under `asm/<test>`; extra files listed exactly when the source had some, its own extras included |
| Merge.MergeAllSucceeds | river_core/rivercore.py:767-797 | the merge succeeds exactly when every test of every source is mergeable |
| Merge.MergeAll | river_core/rivercore.py:767-797 | (intended; see Findings) every test of the merged list has its own directory under `asm`, and every directory there belongs to a merged test |
| Merge.MergeAllKeys | river_core/rivercore.py:767-797 | the merged tests are exactly the names the sources define |
| Merge.MergeAllEntries | river_core/rivercore.py:767-797 | (intended; see Findings) each merged test is rebuilt from the last source entry of its name, with nothing carried over, and its directory holds that same entry's work directory |
| Merge.AsWrittenKeepsFirstCopy | river_core/rivercore.py:775-776 | as written, a test's directory holds the work directory of the first source that defines it |
| Merge.NestedCopyExample | river_core/rivercore.py:775-776 | two sources defining `shared`: the entry is the second source's, but the directory is the first's |
| Merge.MergeRun | river_core/rivercore.py:737-885 | the output is cleared exactly when it existed and the first answer was yes; the merged list is written exactly when the output was not kept, every test merged and the target plugin loaded; a successful run always wrote it |
| Merge.DeclineKeepsEverything | river_core/rivercore.py:737-745 | declining to overwrite the output clears nothing, writes nothing, removes nothing |
| Merge.ClearingNeedsConsent | river_core/rivercore.py:737-742 | the output directory is cleared only when it exists and a `y` was typed |
| Merge.RemovalNeedsConsent | river_core/rivercore.py:866-885 | the sources are removed only after the merged list was written, and then all of them |
| Merge.RemovalAfterWrite | river_core/rivercore.py:866-885 | once the output is settled, the sources are removed only after a successful write and a yes to the removal question, and then all of them |
| Merge.RemovalAnswers | river_core/rivercore.py:879-883 | removing the sources took a yes to the second question, and a yes to the first when the output existed |
| Merge.RemovalNeedsYes | river_core/rivercore.py:879-883 | removing the sources took a typed `y`, after an earlier `y` when the output existed |
| Merge.TwoYesLines | river_core/rivercore.py:216-226 | two yes replies in a row come from two `y` lines, in order |
| MicroTesk.TestName | river_core/microtesk_plugin/microtesk_plugin.py:88 | the test name is slash-free and no longer than the base name; it splits at each `.S` (MicroTesk.TestNameSplits) |
| MicroTesk.TestNameSplits | river_core/microtesk_plugin/microtesk_plugin.py:88 | for a base name `a.Sb` the test name is the name of `a` followed by the name of `b` |
| MicroTesk.RelocationOfGenerated | river_core/microtesk_plugin/microtesk_plugin.py:86-94 | for `<dir>/<stem>.S` with no `.S` in the stem: the test is `stem`; the moved file is the generated one; the linker script is `<dir>/<basename dir>.ld`; the destination is next to `dir` |
| MicroTesk.DeleteSuffix | river_core/microtesk_plugin/microtesk_plugin.py:88 | deleting `.S` from `stem.S` leaves `stem` when the stem holds no `.S` |
| MicroTesk.DeleteEveryOccurrence | river_core/microtesk_plugin/microtesk_plugin.py:88 | every `.S` is deleted, not only the suffix: for any `a` and `b` without `.S`, `a.Sb.S` gives `ab` |
| MicroTesk.ReplaceIsNotSuffixStrip | river_core/microtesk_plugin/microtesk_plugin.py:88-94 | for `<dir>/a.Sb.S` the test is named `ab` and the file moved is `<dir>/ab.S`, not the generated file |
| MicroTesk.FirstClashSpec | river_core/microtesk_plugin/microtesk_plugin.py:90-91 | creating the destinations in order fails exactly when one exists already or repeats an earlier one |
| MicroTesk.RelocateSpec | river_core/microtesk_plugin/microtesk_plugin.py:86-94 | relocation succeeds exactly when the destinations are new and pairwise distinct, then makes one move per generated file, in order |
| MicroTesk.Dedup | river_core/microtesk_plugin/microtesk_plugin.py:95-97 | the dict keys hold each element once and exactly the elements of the input |
| MicroTesk.DedupOrder | river_core/microtesk_plugin/microtesk_plugin.py:95-97 | the dict keys come in the order of each element's first occurrence in the input |
| MicroTesk.Removals | river_core/microtesk_plugin/microtesk_plugin.py:95-99 | every directory that held a generated file is removed exactly once, and no other |
| MicroTesk.DedupOfDistinct | river_core/microtesk_plugin/microtesk_plugin.py:95-97 | a list already free of repeats is its own removal list |
| MicroTesk.PathSuffix | river_core/microtesk_plugin/microtesk_plugin.py:108-111 | `testpath/file` ends in a slash-free suffix exactly when `file` does |
| MicroTesk.ClassifySpec | river_core/microtesk_plugin/microtesk_plugin.py:104-112 | a test directory's record names the last `.S` file and the last `.ld` file in listing order, or `''` when there is none |
| MicroTesk.RecordsSucceed | river_core/microtesk_plugin/microtesk_plugin.py:103-106 | building the records fails exactly when some entry of the generation directory is not a directory |
| MicroTesk.RecordsKeys | river_core/microtesk_plugin/microtesk_plugin.py:103-112 | the records add a key for exactly the entries of the generation directory |
| MicroTesk.RecordsKeepOthers | river_core/microtesk_plugin/microtesk_plugin.py:103-112 | a key that is not an entry keeps its value |
| MicroTesk.RecordsEntry | river_core/microtesk_plugin/microtesk_plugin.py:103-112 | every entry is a directory and gets the record of its own listing |
| MicroTesk.RecordsContent | river_core/microtesk_plugin/microtesk_plugin.py:103-112 | every entry gets the record of its own listing; keys not listed keep their value |
| MicroTesk.RegressListShape | river_core/microtesk_plugin/microtesk_plugin.py:73-112 | the list has the single suite `microtesk`. It is keyed by the entries plus `microtesk_global_testpath`, which holds the generation directory unless an entry has that name. Each entry's record is built from its own files |
| MicroTesk.WriteAsWritten | river_core/microtesk_plugin/microtesk_plugin.py:114-123 | as written: an existing file without `microtesk` is an error; otherwise only the fresh list is written |
| MicroTesk.AsWrittenDropsOtherSuites | river_core/microtesk_plugin/microtesk_plugin.py:114-123 | an existing file's other suite is not in what is written |
| MicroTesk.WriteIntended | river_core/microtesk_plugin/microtesk_plugin.py:74-76 | the fresh suites replace their namesakes, and every other suite of an existing file is kept |
| MicroTesk.WriteIntendedIdempotent | river_core/microtesk_plugin/microtesk_plugin.py:74-76 | writing the same result twice gives the same file |
| MicroTesk.PostGen | river_core/microtesk_plugin/microtesk_plugin.py:67-123 | (intended; see Findings) the step succeeds exactly when the generation directory exists, every destination is new and distinct, and the generation directory and each of its entries are listed as directories; without the generation directory it fails with `NoGenDir` |
| MicroTesk.PostGenSpec | river_core/microtesk_plugin/microtesk_plugin.py:80-123 | (intended; see Findings) after a successful step the file holds the fresh `microtesk` suite and every other suite it held; each generated file was moved once, and its directory removed once |
| Scenarios.MatchingAndMissingDumps | river_core/rivercore.py:589-647 | `t1` has matching dumps and `t2` has none: `t1` is Passed, `t2` keeps the verdict it was loaded with (loaded as Unavailable), counts are (2, 1, 0, 1) |
| Scenarios.DifferingDumps | river_core/rivercore.py:605-608 | `t1`'s dumps differ, so `t1` is Failed |
| Scenarios.SwappedDumpsSameVerdict | river_core/rivercore.py:605-608 | swapping the contents of the two dumps leaves the verdict unchanged |
| Scenarios.MergeSameName | river_core/rivercore.py:767-797 | a list naming only `shared` merges to exactly `shared`, from its last entry |
| Scenarios.SharedTestFromSecondSource | river_core/rivercore.py:767-797 | (intended; see Findings) two runs both define `shared`: the merged list holds only `shared`, rebuilt from the second run, with the second run's files |

## Left out

- Plugin loading (`importlib`, `pluggy` registration, the hook
  specifications): a set of loadable plugin names stands for it. A
  configuration section is reduced to whether it holds `jobs` and `count`;
  the `isa` value written into it is not modelled. Hook
  arguments are not modelled, so neither is the mismatch between the
  declared hook signatures and the keyword arguments passed.
- The plugins' own behaviour: what `gen` returns is a parameter (a
  fragment per suite), and what `run` returns is an optional report path.
  The MicroTESK `pre_gen` and `gen` hooks (a directory reset and a pytest
  launch) are not modelled.
- YAML and JSON reading and writing, and the schema validation of the
  generated test list (`testlist_schema` is not part of this model). The
  test list appears as a value.
- `filecmp.cmp` is modelled as byte equality. Its shallow mode, which can
  call two files equal from their `stat` signatures alone, is not modelled.
- Finding the generator report (`glob`, then the newest by `ctime`) is
  reduced to a boolean. Reading the target and reference report files is
  not modelled.
- The `isinstance(test_list, dict)` check after each `gen` (rivercore.py:343)
  tests the accumulator, which is always a dict. It can never fail and is
  not modelled as an error.
- The `[0]` indexing of an empty `gen` hook result is modelled as the
  `NoTestList` error. Other Python exceptions (a malformed section, a
  non-dict result) are not modelled.
- HTML report rendering, CSS copying, timestamps and opening a browser.
- Coverage: the `merge_db` call, the vendor-specific database globbing in
  the merge sub-command, and `generate_coverage_report`.
- `rivercore_clean` and `rivercore_setup`.
- Logging.
- Merge.Listing: `glob` returns the common directory in the filesystem's
  order. The model lists names in first-copy order, and its contract states
  only that every visible copied name is listed.
- Merge: `os.path.abspath`, and the creation of the output's
  sub-directories, are not modelled.
- MicroTesk.PostGen: the glob over the `os.walk` of the generation
  directory is an input sequence of paths. The directory listing after
  relocation is a second input; it is not derived from the moves. Failures
  of the `cp` and `mv` shell commands are not modelled, and neither are
  failures of `shutil.rmtree`.
- MicroTesk.Relocation: the destination `<testdir>/../<testname>` is kept
  in resolved form (the parent of the test directory, then the name).
- MicroTesk.Removals: the contract does not state the first-occurrence
  order of the removal list. It states only that each directory appears
  once, and that exactly the test directories appear. The order is stated
  for the list of test directories by `MicroTesk.DedupOrder`.
- Text.Lower: only ASCII letters are lower-cased, while `str.lower` also
  lower-cases other letters. No other character lower-cases to `y` or `n`,
  so `Prompt.Confirm` accepts the same answers.
- Hooks.RunRole and Compile.Compile: the target and reference roles share
  one set of loadable plugin names and one map of `run` reports, and a hook
  call records no role. The code loads targets from `path_to_target` and
  references from `path_to_ref`, so a name listed under both roles could
  load in one and not the other, or report differently. The model gives
  such a name the same outcome in both roles.

## Findings

| source | as written | input that shows it | evidently intended | confidence | as-written member | corrected member |
|---|---|---|---|---|---|---|
| river_core/microtesk_plugin/microtesk_plugin.py:114-123 | The existing regression file is loaded and updated in memory, but only the freshly built dictionary is written back. A file without a `microtesk` key raises `KeyError`. | An existing file holding suites `microtesk` and `riscv_ctg` is rewritten without `riscv_ctg`. | The docstring at lines 74-76 says only the `microtesk` entries are overwritten, so the other suites should be kept. | high; not executed | MicroTesk.WriteAsWritten, MicroTesk.AsWrittenDropsOtherSuites | MicroTesk.WriteIntended, MicroTesk.WriteIntendedIdempotent, MicroTesk.PostGen, MicroTesk.PostGenSpec |
| river_core/rivercore.py:775-776 | `cp -r -f <work_dir> asm/<test>` copies into `asm/<test>/<basename>` when `asm/<test>` already exists. A test defined by two sources therefore keeps the first source's files. Its rebuilt entry comes from the last source. | Two sources both define `shared` with different work directories: `asm/shared` holds the first one's files, the entry the second one's. | The test's directory holds the files of the source its entry is rebuilt from. | medium; not executed | Merge.CopyWorkDirAsWritten, Merge.AsWrittenKeepsFirstCopy, Merge.NestedCopyExample | Merge.CopyWorkDir, Merge.MergeAll, Merge.MergeAllEntries, Scenarios.SharedTestFromSecondSource |

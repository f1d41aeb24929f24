/**
 The regression-list step of the MicroTESK generator plugin (`post_gen`).
 Every generated assembly file sits in a `microtesk_*` directory next to
 that directory's linker script; each is moved into a directory of its own
 named after the test, the emptied generation directories are removed, and
 the generation directory is listed to build the regression list: one
 record per test directory naming its assembly file and linker script.
 */
module MicroTesk {
  import opened Common
  import opened Text

  /** The suite key of the regression list. */
  const SUITE := "microtesk"

  /** The key under which the regression list records the generation directory. */
  const GLOBAL_PATH := "microtesk_global_testpath"

  /**
   The test name of a generated assembly file: its base name with every
   `.S` deleted (a `str.replace`, not a suffix strip). It is a slash-free
   name no longer than the base name.
   */
  function TestName(gentest: string): (r: string)
    ensures '/' !in r
    ensures |r| <= |Basename(gentest)|
  {
    DeleteAllKeepsChars(Basename(gentest), ".S");
    DeleteAll(Basename(gentest), ".S")
  }

  /** The linker-script name of a generated file: the base name of its directory. */
  function LdName(gentest: string): string {
    Basename(Dirname(gentest))
  }

  /**
   What relocating one generated file does: create the destination
   directory `<testdir>/../<testname>`, copy the linker script
   `<testdir>/<ldname>.ld` into it, and move `<testdir>/<testname>.S` into
   it. The destination is kept in resolved form: the parent of the test
   directory, then the test name.
   */
  datatype Move = Move(testdir: string, dest: string, ldSource: string, asmSource: string)

  function Relocation(gentest: string): Move {
    var testdir := Dirname(gentest);
    var name := TestName(gentest);
    Move(testdir, Dirname(testdir) + "/" + name, testdir + "/" + LdName(gentest) + ".ld", testdir + "/" + name + ".S")
  }

  /**
   For an assembly file `<dir>/<stem>.S` whose stem holds no `.S`, the
   relocation moves that very file, names the test `stem`, copies the
   linker script named after `dir`, and creates the test's directory next
   to `dir`.
   */
  lemma RelocationOfGenerated(dir: string, stem: string)
    requires |dir| > 0 && dir[|dir| - 1] != '/'
    requires '/' !in stem && !Occurs(stem, ".S")
    ensures var m := Relocation(dir + "/" + stem + ".S");
            && TestName(dir + "/" + stem + ".S") == stem
            && m.testdir == dir
            && m.asmSource == dir + "/" + stem + ".S"
            && m.ldSource == dir + "/" + Basename(dir) + ".ld"
            && m.dest == Dirname(dir) + "/" + stem
  {
    var g := dir + "/" + stem + ".S";
    assert g == dir + "/" + (stem + ".S");
    PathRoundTrip(dir, stem + ".S");
    DeleteSuffix(stem);
  }

  /** Deleting `.S` from `stem + ".S"` leaves `stem` when `stem` holds no `.S`. */
  lemma {:induction false} DeleteSuffix(stem: string)
    requires !Occurs(stem, ".S")
    ensures DeleteAll(stem + ".S", ".S") == stem
    decreases |stem|
  {
    var s := stem + ".S";
    if |stem| == 0 {
      assert StartsWith(s, ".S");
      assert s[2..] == [];
    } else {
      assert !StartsWith(stem, ".S");
      if |stem| >= 2 {
        assert s[..2] == stem[..2];
      } else {
        assert s[..2][1] == '.';
      }
      assert s[1..] == stem[1..] + ".S";
      DeleteSuffix(stem[1..]);
    }
  }

  /**
   Every `.S` is deleted, not only the trailing one: from `a.Sb.S`, with
   no `.S` inside `a` or `b`, the name left is `ab`.
   */
  lemma DeleteEveryOccurrence(a: string, b: string)
    requires !Occurs(a, ".S") && !Occurs(b, ".S")
    ensures DeleteAll(a + ".S" + b + ".S", ".S") == a + b
  {
    assert a + ".S" + b + ".S" == a + ".S" + (b + ".S");
    DeletePairConcat(a, ".S", b + ".S");
    DeleteSuffix(b);
  }

  /** The instance `a.Sb.S` of the law above. */
  lemma DeleteTwoSuffixes()
    ensures DeleteAll("a.Sb.S", ".S") == "ab"
  {
    assert "a.Sb.S" == "a" + ".S" + "b" + ".S";
    assert "a" + "b" == "ab";
    assert !Occurs("a", ".S") && !Occurs("b", ".S");
    DeleteEveryOccurrence("a", "b");
  }

  /**
   The test name splits at every `.S` of the base name: for a base name
   `a.Sb` the name is the name of `a` followed by the name of `b`.
   */
  lemma TestNameSplits(dir: string, a: string, b: string)
    requires '/' !in a && '/' !in b
    requires |dir| > 0 && dir[|dir| - 1] != '/'
    ensures TestName(dir + "/" + a + ".S" + b) == TestName(dir + "/" + a) + TestName(dir + "/" + b)
  {
    var base := a + ".S" + b;
    assert '/' !in base by {
      assert forall i | 0 <= i < |base| :: base[i] in a || base[i] in ".S" || base[i] in b;
    }
    assert dir + "/" + a + ".S" + b == dir + "/" + base;
    PathRoundTrip(dir, base);
    PathRoundTrip(dir, a);
    PathRoundTrip(dir, b);
    DeletePairConcat(a, ".S", b);
  }

  /**
   The replace is not a suffix strip: from `<dir>/a.Sb.S` the test is named
   `ab`, so the file the relocation moves, `<dir>/ab.S`, is not the one that
   was generated.
   */
  lemma ReplaceIsNotSuffixStrip(dir: string)
    requires |dir| > 0 && dir[|dir| - 1] != '/'
    ensures TestName(dir + "/a.Sb.S") == "ab"
    ensures Relocation(dir + "/a.Sb.S").asmSource == dir + "/ab.S" != dir + "/a.Sb.S"
  {
    var g := dir + "/" + "a.Sb.S";
    assert dir + "/a.Sb.S" == g;
    PathRoundTrip(dir, "a.Sb.S");
    DeleteTwoSuffixes();
    assert TestName(g) == "ab";
    assert Relocation(g).asmSource == dir + "/" + "ab" + ".S";
    assert dir + "/" + "ab" + ".S" == dir + "/ab.S";
    assert |dir + "/ab.S"| == |dir| + 5 && |g| == |dir| + 7;
  }

  /** Why `post_gen` aborts. */
  datatype PostGenError =
    | DestinationExists(dest: string)   // `os.makedirs` on a directory that exists
    | NoGenDir                           // the generation directory cannot be listed
    | NotADirectory(entry: string)       // an entry of the generation directory is a file
    | RegressKeyMissing                  // the existing regression file has no `microtesk` key

  /**
   The first destination that cannot be created while creating `dests` in
   order: one that already exists, either beforehand or because an earlier
   destination created it.
   */
  function FirstClash(dests: seq<string>, dirs: set<string>): Option<string> {
    if |dests| == 0 then None
    else
      var front := dests[..|dests| - 1];
      var d := dests[|dests| - 1];
      match FirstClash(front, dirs)
      case Some(c) => Some(c)
      case None => if d in dirs || d in front then Some(d) else None
  }

  /** No destination clashes exactly when all are new and pairwise distinct. */
  lemma {:induction false} FirstClashSpec(dests: seq<string>, dirs: set<string>)
    ensures FirstClash(dests, dirs).None? <==>
              && (forall i | 0 <= i < |dests| :: dests[i] !in dirs)
              && (forall i, j | 0 <= i < j < |dests| :: dests[i] != dests[j])
  {
    if |dests| > 0 {
      var n := |dests| - 1;
      var front := dests[..n];
      FirstClashSpec(front, dirs);
      assert forall i | 0 <= i < n :: front[i] == dests[i];
      if dests[n] in front {
        var k :| 0 <= k < n && front[k] == dests[n];
        assert dests[k] == dests[n];
      }
    }
  }

  /** The moves relocating the generated files, in order. */
  function Moves(gentests: seq<string>): (moves: seq<Move>)
    ensures |moves| == |gentests|
  {
    seq(|gentests|, i requires 0 <= i < |gentests| => Relocation(gentests[i]))
  }

  /** The destinations of some moves. */
  function Dests(moves: seq<Move>): (dests: seq<string>)
    ensures |dests| == |moves|
    ensures forall i | 0 <= i < |moves| :: dests[i] == moves[i].dest
  {
    seq(|moves|, i requires 0 <= i < |moves| => moves[i].dest)
  }

  /**
   Relocate the generated files in order, each destination directory
   created with `os.makedirs`, which fails on the first that exists.
   */
  function Relocate(gentests: seq<string>, dirs: set<string>): Result<seq<Move>, PostGenError> {
    var moves := Moves(gentests);
    match FirstClash(Dests(moves), dirs)
    case Some(d) => Err(DestinationExists(d))
    case None => Ok(moves)
  }

  /**
   Relocation succeeds exactly when the destinations are new and pairwise
   distinct, and then performs one move per generated file, in order.
   */
  lemma RelocateSpec(gentests: seq<string>, dirs: set<string>)
    ensures Relocate(gentests, dirs).Ok? <==>
              && (forall i | 0 <= i < |gentests| :: Relocation(gentests[i]).dest !in dirs)
              && (forall i, j | 0 <= i < j < |gentests| :: Relocation(gentests[i]).dest != Relocation(gentests[j]).dest)
    ensures Relocate(gentests, dirs).Ok? ==>
              && |Relocate(gentests, dirs).value| == |gentests|
              && forall i | 0 <= i < |gentests| :: Relocate(gentests, dirs).value[i] == Relocation(gentests[i])
  {
    var moves := Moves(gentests);
    var dests := Dests(moves);
    FirstClashSpec(dests, dirs);
    assert forall i | 0 <= i < |gentests| :: dests[i] == Relocation(gentests[i]).dest;
  }

  predicate NoDuplicates(s: seq<string>) {
    forall i, j | 0 <= i < j < |s| :: s[i] != s[j]
  }

  /** The elements of `s`, each once, in first-occurrence order (`DedupOrder`): the keys of a dict filled from `s`. */
  function Dedup(s: seq<string>): (r: seq<string>)
    ensures NoDuplicates(r)
    ensures forall x :: x in r <==> x in s
  {
    if |s| == 0 then []
    else
      var r := Dedup(s[..|s| - 1]);
      assert forall x | x in s :: x in s[..|s| - 1] || x == s[|s| - 1];
      if s[|s| - 1] in r then r else r + [s[|s| - 1]]
  }

  /** The position of the first occurrence of `x` in `s`. */
  function FirstOccurrence(s: seq<string>, x: string): (k: nat)
    requires x in s
    ensures k < |s| && s[k] == x
    ensures forall j | 0 <= j < k :: s[j] != x
  {
    if s[0] == x then 0 else 1 + FirstOccurrence(s[1..], x)
  }

  /** An element of the front of `s` first occurs where it first occurs in the front. */
  lemma FirstOccurrenceOfFront(s: seq<string>, x: string)
    requires |s| > 0 && x in s[..|s| - 1]
    ensures FirstOccurrence(s, x) == FirstOccurrence(s[..|s| - 1], x)
  {
    var k := FirstOccurrence(s[..|s| - 1], x);
    var m := FirstOccurrence(s, x);
    assert s[k] == x;
  }

  /** `Dedup` keeps the elements in the order of their first occurrences. */
  lemma {:induction false} DedupOrder(s: seq<string>)
    ensures forall x | x in Dedup(s) :: x in s
    ensures forall i, j | 0 <= i < j < |Dedup(s)| ::
              FirstOccurrence(s, Dedup(s)[i]) < FirstOccurrence(s, Dedup(s)[j])
  {
    if |s| > 0 {
      var n := |s| - 1;
      var front := s[..n];
      var last := s[n];
      var r := Dedup(front);
      DedupOrder(front);
      forall x | x in r
        ensures FirstOccurrence(s, x) == FirstOccurrence(front, x) < n
      {
        FirstOccurrenceOfFront(s, x);
      }
      if last !in r {
        assert Dedup(s) == r + [last];
        assert last !in front;
        assert FirstOccurrence(s, last) == n;
      }
    }
  }

  /** The directories removed after relocation: every test directory, each once. */
  function Removals(gentests: seq<string>): (r: seq<string>)
    ensures NoDuplicates(r)
    ensures forall d :: d in r <==> exists i | 0 <= i < |gentests| :: Dirname(gentests[i]) == d
  {
    var dirs := seq(|gentests|, i requires 0 <= i < |gentests| => Dirname(gentests[i]));
    assert forall i | 0 <= i < |gentests| :: dirs[i] == Dirname(gentests[i]);
    Dedup(dirs)
  }

  /** Removing directories twice does nothing new: the removal list of a list already free of repeats is that list. */
  lemma {:induction false} DedupOfDistinct(s: seq<string>)
    requires NoDuplicates(s)
    ensures Dedup(s) == s
  {
    if |s| > 0 {
      var front := s[..|s| - 1];
      DedupOfDistinct(front);
      assert s[|s| - 1] !in front;
      assert s == front + [s[|s| - 1]];
    }
  }

  /** A value of the regression list: the generation directory, or one test's files. */
  datatype RegValue = TestPath(path: string) | TestFiles(testname: string, ld: string)

  /** A directory listing: each directory path mapped to its entries' names, in listing order. */
  type Listing = map<string, seq<string>>

  /** The regression file: suites mapped to their records. */
  type Doc = map<string, map<string, RegValue>>

  /**
   The record of one test directory: the names of the files whose path ends
   in `.S` and in `.ld`, the last in listing order winning, empty when
   there is none.
   */
  function Classify(testpath: string, files: seq<string>): (r: RegValue)
    ensures r.TestFiles?
  {
    if |files| == 0 then TestFiles("", "")
    else
      var r := Classify(testpath, files[..|files| - 1]);
      var f := files[|files| - 1];
      var name := testpath + "/" + f;
      if EndsWith(name, ".S") then TestFiles(f, r.ld)
      else if EndsWith(name, ".ld") then TestFiles(r.testname, f)
      else r
  }

  /** The position of the last file whose name ends in `suffix`, or -1 when none does. */
  function LastWith(files: seq<string>, suffix: string): (k: int)
    ensures -1 <= k < |files|
    ensures k >= 0 ==> EndsWith(files[k], suffix)
    ensures forall j | k < j < |files| :: !EndsWith(files[j], suffix)
  {
    if |files| == 0 then -1
    else if EndsWith(files[|files| - 1], suffix) then |files| - 1
    else LastWith(files[..|files| - 1], suffix)
  }

  /** A file's path ends in a slash-free suffix exactly when its name does. */
  lemma PathSuffix(dir: string, f: string, suffix: string)
    requires '/' !in suffix
    ensures EndsWith(dir + "/" + f, suffix) <==> EndsWith(f, suffix)
  {
    var p := dir + "/" + f;
    if |suffix| <= |f| {
      assert p[|p| - |suffix|..] == f[|f| - |suffix|..];
    } else if |suffix| <= |p| {
      assert p[|p| - |suffix|..][|suffix| - |f| - 1] == '/';
    }
  }

  /** The name a record keeps for `suffix`: the last file ending in it, or the empty name. */
  function Chosen(files: seq<string>, suffix: string): string {
    var k := LastWith(files, suffix);
    if k >= 0 then files[k] else ""
  }

  /** Adding a file to a listing changes the choice for a suffix exactly when the file ends in it. */
  lemma ChosenStep(files: seq<string>, suffix: string)
    requires |files| > 0
    ensures Chosen(files, suffix) == if EndsWith(files[|files| - 1], suffix) then files[|files| - 1]
                                     else Chosen(files[..|files| - 1], suffix)
  {
    var front := files[..|files| - 1];
    var k := LastWith(front, suffix);
    if k >= 0 {
      assert front[k] == files[k];
    }
  }

  /**
   Classification by suffix: a test directory's record names the last file
   ending in `.S` and the last ending in `.ld`, or the empty name when
   there is none; every other file is ignored.
   */
  lemma {:induction false} ClassifySpec(testpath: string, files: seq<string>)
    ensures Classify(testpath, files) == TestFiles(Chosen(files, ".S"), Chosen(files, ".ld"))
  {
    if |files| > 0 {
      var f := files[|files| - 1];
      ClassifySpec(testpath, files[..|files| - 1]);
      PathSuffix(testpath, f, ".S");
      PathSuffix(testpath, f, ".ld");
      ChosenStep(files, ".S");
      ChosenStep(files, ".ld");
      if EndsWith(f, ".S") {
        assert f[|f| - 1] == 'S';
        assert !EndsWith(f, ".ld");
      }
    }
  }

  /**
   One record per entry of the generation directory, added in listing
   order on top of `inner`; listing an entry that is a file fails.
   */
  function Records(gendir: string, listing: Listing, entries: seq<string>, inner: map<string, RegValue>)
    : Result<map<string, RegValue>, PostGenError>
  {
    if |entries| == 0 then Ok(inner)
    else
      match Records(gendir, listing, entries[..|entries| - 1], inner)
      case Err(e) => Err(e)
      case Ok(m) =>
        var entry := entries[|entries| - 1];
        var testpath := gendir + "/" + entry;
        if testpath !in listing then Err(NotADirectory(entry))
        else Ok(m[entry := Classify(testpath, listing[testpath])])
  }

  /**
   The regression list built from the listing of the generation directory
   after relocation: a single suite `microtesk` recording the generation
   directory under `microtesk_global_testpath` and one record per entry.
   */
  function RegressList(gendir: string, listing: Listing): Result<Doc, PostGenError> {
    if gendir !in listing then Err(NoGenDir)
    else
      match Records(gendir, listing, listing[gendir], map[GLOBAL_PATH := TestPath(gendir)])
      case Err(e) => Err(e)
      case Ok(inner) => Ok(map[SUITE := inner])
  }

  /** Building the records succeeds exactly when every entry is a directory. */
  lemma {:induction false} RecordsSucceed(gendir: string, listing: Listing, entries: seq<string>, inner: map<string, RegValue>)
    ensures Records(gendir, listing, entries, inner).Ok? <==> forall i | 0 <= i < |entries| :: gendir + "/" + entries[i] in listing
  {
    if |entries| > 0 {
      var front := entries[..|entries| - 1];
      RecordsSucceed(gendir, listing, front, inner);
      assert forall i | 0 <= i < |front| :: front[i] == entries[i];
    }
  }

  /** The names of the entries. */
  function EntryNames(entries: seq<string>): set<string> {
    set i | 0 <= i < |entries| :: entries[i]
  }

  /** Building the records adds a key for exactly the entries. */
  lemma {:induction false} RecordsKeys(gendir: string, listing: Listing, entries: seq<string>, inner: map<string, RegValue>)
    requires Records(gendir, listing, entries, inner).Ok?
    ensures Records(gendir, listing, entries, inner).value.Keys == inner.Keys + EntryNames(entries)
  {
    if |entries| > 0 {
      var n := |entries| - 1;
      var front := entries[..n];
      var e := entries[n];
      assert Records(gendir, listing, front, inner).Ok?;
      RecordsKeys(gendir, listing, front, inner);
      assert Records(gendir, listing, entries, inner).value.Keys
             == Records(gendir, listing, front, inner).value.Keys + {e};
      assert forall i | 0 <= i < n :: front[i] == entries[i];
      assert EntryNames(entries) == EntryNames(front) + {e};
    }
  }

  /** Building the records leaves every key that is not an entry as it was. */
  lemma {:induction false} RecordsKeepOthers(gendir: string, listing: Listing, entries: seq<string>,
                                             inner: map<string, RegValue>, k: string)
    requires Records(gendir, listing, entries, inner).Ok?
    requires k in inner && k !in entries
    ensures k in Records(gendir, listing, entries, inner).value
    ensures Records(gendir, listing, entries, inner).value[k] == inner[k]
  {
    if |entries| > 0 {
      var front := entries[..|entries| - 1];
      assert Records(gendir, listing, front, inner).Ok?;
      assert k !in front;
      RecordsKeepOthers(gendir, listing, front, inner, k);
    }
  }

  /** After building the records every entry is a directory and has the record of its own listing. */
  lemma {:induction false} RecordsEntry(gendir: string, listing: Listing, entries: seq<string>,
                                        inner: map<string, RegValue>, i: nat)
    requires Records(gendir, listing, entries, inner).Ok?
    requires i < |entries|
    ensures gendir + "/" + entries[i] in listing
    ensures var m := Records(gendir, listing, entries, inner).value;
            entries[i] in m && m[entries[i]] == Classify(gendir + "/" + entries[i], listing[gendir + "/" + entries[i]])
  {
    var n := |entries| - 1;
    var front := entries[..n];
    assert Records(gendir, listing, front, inner).Ok?;
    if i < n && entries[i] != entries[n] {
      assert front[i] == entries[i];
      RecordsEntry(gendir, listing, front, inner, i);
    }
  }

  /**
   After building the records every entry has the record of its own
   listing, and every other key keeps its value.
   */
  lemma RecordsContent(gendir: string, listing: Listing, entries: seq<string>, inner: map<string, RegValue>)
    requires Records(gendir, listing, entries, inner).Ok?
    ensures var m := Records(gendir, listing, entries, inner).value;
            && m.Keys == inner.Keys + EntryNames(entries)
            && (forall k | k in inner && k !in entries :: m[k] == inner[k])
            && (forall i | 0 <= i < |entries| ::
                  gendir + "/" + entries[i] in listing
                  && m[entries[i]] == Classify(gendir + "/" + entries[i], listing[gendir + "/" + entries[i]]))
  {
    RecordsKeys(gendir, listing, entries, inner);
    forall k | k in inner && k !in entries {
      RecordsKeepOthers(gendir, listing, entries, inner, k);
    }
    forall i | 0 <= i < |entries| {
      RecordsEntry(gendir, listing, entries, inner, i);
    }
  }

  /**
   The shape of the regression list: the single suite `microtesk`, keyed
   by the generation directory's entries plus the global path, which holds
   the generation directory unless an entry bears its name; every entry's
   record names its last `.S` and `.ld` files.
   */
  lemma RegressListShape(gendir: string, listing: Listing)
    ensures RegressList(gendir, listing).Ok? <==>
              gendir in listing && forall i | 0 <= i < |listing[gendir]| :: gendir + "/" + listing[gendir][i] in listing
    ensures RegressList(gendir, listing).Ok? ==>
              var doc := RegressList(gendir, listing).value;
              var entries := listing[gendir];
              && doc.Keys == {SUITE}
              && doc[SUITE].Keys == {GLOBAL_PATH} + (set i | 0 <= i < |entries| :: entries[i])
              && (GLOBAL_PATH !in entries ==> doc[SUITE][GLOBAL_PATH] == TestPath(gendir))
              && (forall i | 0 <= i < |entries| ::
                    var files := listing[gendir + "/" + entries[i]];
                    doc[SUITE][entries[i]] == TestFiles(Chosen(files, ".S"), Chosen(files, ".ld")))
  {
    if gendir in listing {
      var entries := listing[gendir];
      RecordsSucceed(gendir, listing, entries, map[GLOBAL_PATH := TestPath(gendir)]);
      if RegressList(gendir, listing).Ok? {
        RecordsContent(gendir, listing, entries, map[GLOBAL_PATH := TestPath(gendir)]);
      }
      forall i | 0 <= i < |entries| && gendir + "/" + entries[i] in listing {
        ClassifySpec(gendir + "/" + entries[i], listing[gendir + "/" + entries[i]]);
      }
    }
  }

  /**
   Writing the regression file as the source does: an existing file must
   hold a `microtesk` suite, but only the latest list is written, so every
   other suite of the existing file is lost.
   */
  function WriteAsWritten(existing: Option<Doc>, latest: Doc): (r: Result<Doc, PostGenError>)
    ensures r.Err? <==> existing.Some? && SUITE !in existing.value
  {
    if existing.Some? && SUITE !in existing.value then Err(RegressKeyMissing) else Ok(latest)
  }

  /** An existing regression file with a second suite loses it. */
  lemma AsWrittenDropsOtherSuites(other: map<string, RegValue>, prior: map<string, RegValue>, latest: Doc)
    requires latest.Keys == {SUITE}
    ensures var existing := map[SUITE := prior, "riscv_ctg" := other];
            && WriteAsWritten(Some(existing), latest).Ok?
            && "riscv_ctg" !in WriteAsWritten(Some(existing), latest).value
  {
  }

  /**
   Writing the regression file as evidently intended: the latest
   suites replace their namesakes and every other suite of an existing file
   is kept.
   */
  function WriteIntended(existing: Option<Doc>, latest: Doc): (r: Doc)
    ensures forall s :: s in r <==> s in latest || (existing.Some? && s in existing.value)
    ensures forall s | s in latest :: r[s] == latest[s]
    ensures existing.Some? ==> forall s | s in existing.value && s !in latest :: r[s] == existing.value[s]
  {
    if existing.Some? then existing.value + latest else latest
  }

  /** Regenerating with the same result leaves the intended regression file unchanged. */
  lemma WriteIntendedIdempotent(existing: Option<Doc>, latest: Doc)
    ensures WriteIntended(Some(WriteIntended(existing, latest)), latest) == WriteIntended(existing, latest)
  {
  }

  /** What `post_gen` does: the moves, the directories it removes, and the regression file it writes. */
  datatype PostGenResult = PostGenResult(moves: seq<Move>, removed: seq<string>, written: Doc)

  /**
   The whole step. The generated files (`gentests`, the glob's result) are
   relocated and their directories removed; `listing` is the directory tree
   afterwards, from which the regression list is built and written over
   `existing`. The generation directory is listed whether or not it exists,
   so without it the step fails, as `os.listdir` does.
   */
  function PostGen(gendir: string, gentests: seq<string>, dirs: set<string>, listing: Listing, existing: Option<Doc>)
    : (r: Result<PostGenResult, PostGenError>)
    ensures r.Ok? <==>
              && gendir in dirs
              && (forall i | 0 <= i < |gentests| :: Relocation(gentests[i]).dest !in dirs)
              && (forall i, j | 0 <= i < j < |gentests| ::
                    Relocation(gentests[i]).dest != Relocation(gentests[j]).dest)
              && gendir in listing
              && (forall i | 0 <= i < |listing[gendir]| :: gendir + "/" + listing[gendir][i] in listing)
    ensures gendir !in dirs ==> r == Err(NoGenDir)
  {
    RelocateSpec(gentests, dirs);
    RegressListShape(gendir, listing);
    if gendir !in dirs then Err(NoGenDir)
    else
      match Relocate(gentests, dirs)
      case Err(e) => Err(e)
      case Ok(moves) =>
        match RegressList(gendir, listing)
        case Err(e) => Err(e)
        case Ok(latest) => Ok(PostGenResult(moves, Removals(gentests), WriteIntended(existing, latest)))
  }

  /**
   After a successful step the regression file holds the latest `microtesk`
   suite and every other suite it held before, and each generated file was
   moved exactly once, its directory removed exactly once.
   */
  lemma PostGenSpec(gendir: string, gentests: seq<string>, dirs: set<string>, listing: Listing, existing: Option<Doc>)
    requires PostGen(gendir, gentests, dirs, listing, existing).Ok?
    ensures var r := PostGen(gendir, gentests, dirs, listing, existing).value;
            && RegressList(gendir, listing).Ok?
            && SUITE in r.written && r.written[SUITE] == RegressList(gendir, listing).value[SUITE]
            && (existing.Some? ==> forall s | s in existing.value && s != SUITE :: s in r.written && r.written[s] == existing.value[s])
            && |r.moves| == |gentests|
            && (forall i | 0 <= i < |gentests| :: r.moves[i] == Relocation(gentests[i]))
            && NoDuplicates(r.removed)
            && (forall i | 0 <= i < |gentests| :: Dirname(gentests[i]) in r.removed)
  {
    RelocateSpec(gentests, dirs);
    RegressListShape(gendir, listing);
  }
}

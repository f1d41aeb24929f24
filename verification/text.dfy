/**
 The string operations the orchestrator borrows from Python: `str.endswith`,
 `str.replace(pat, '')`, `str.split(sep)`, `str.lower()` and the POSIX
 `os.path.basename` / `os.path.dirname`.
 */
module Text {

  /** Python's `s.endswith(suffix)`. */
  predicate EndsWith(s: string, suffix: string) {
    |suffix| <= |s| && s[|s| - |suffix|..] == suffix
  }

  /** Python's `s.startswith(prefix)`. */
  predicate StartsWith(s: string, prefix: string) {
    |prefix| <= |s| && s[..|prefix|] == prefix
  }

  /** True when `pat` occurs somewhere inside `s`. */
  predicate Occurs(s: string, pat: string)
    decreases |s|
  {
    StartsWith(s, pat) || (|s| > 0 && Occurs(s[1..], pat))
  }

  /**
   `s` with every occurrence of `pat` deleted, scanning left to right and
   never overlapping, as Python's `s.replace(pat, '')` does. A text in which
   `pat` does not occur is returned unchanged.
   */
  function DeleteAll(s: string, pat: string): (r: string)
    requires |pat| > 0
    ensures |r| <= |s|
    ensures !Occurs(s, pat) ==> r == s
    decreases |s|
  {
    if |s| < |pat| then s
    else if StartsWith(s, pat) then DeleteAll(s[|pat|..], pat)
    else [s[0]] + DeleteAll(s[1..], pat)
  }

  /**
   A one-character pattern is removed entirely, every other character
   keeping its multiplicity.
   */
  lemma {:induction false} DeleteCharSpec(s: string, c: char)
    ensures c !in DeleteAll(s, [c])
    ensures multiset(DeleteAll(s, [c])) == multiset(s)[c := 0]
    decreases |s|
  {
    if |s| > 0 {
      DeleteCharSpec(s[1..], c);
      assert s == [s[0]] + s[1..];
      if s[0] == c {
        assert StartsWith(s, [c]);
      } else {
        assert !StartsWith(s, [c]);
        assert DeleteAll(s, [c]) == [s[0]] + DeleteAll(s[1..], [c]);
      }
    }
  }

  /**
   Deleting a one-character pattern works piece by piece: the result for
   `a + b` is the result for `a` followed by the result for `b`, so the
   surviving characters keep their order.
   */
  lemma {:induction false} DeleteCharConcat(a: string, b: string, c: char)
    ensures DeleteAll(a + b, [c]) == DeleteAll(a, [c]) + DeleteAll(b, [c])
    decreases |a|
  {
    if |a| == 0 {
      assert a + b == b;
    } else {
      var s := a + b;
      assert s[1..] == a[1..] + b;
      DeleteCharConcat(a[1..], b, c);
      if a[0] == c {
        assert StartsWith(s, [c]) && StartsWith(a, [c]);
      } else {
        assert !StartsWith(s, [c]) && !StartsWith(a, [c]);
        assert s[0] == a[0];
      }
    }
  }

  /**
   Deleting a two-character pattern of distinct characters splits at every
   occurrence: for `a + pat + b` the result is the result for `a` followed
   by the result for `b`, since no occurrence can straddle `a` and `pat`.
   */
  lemma {:induction false} DeletePairConcat(a: string, pat: string, b: string)
    requires |pat| == 2 && pat[0] != pat[1]
    ensures DeleteAll(a + pat + b, pat) == DeleteAll(a, pat) + DeleteAll(b, pat)
    decreases |a|
  {
    var s := a + pat + b;
    if |a| == 0 {
      assert StartsWith(s, pat);
      assert s[2..] == b;
    } else if |a| >= 2 && StartsWith(a, pat) {
      assert s[..2] == a[..2];
      assert s[2..] == a[2..] + pat + b;
      DeletePairConcat(a[2..], pat, b);
    } else {
      if |a| >= 2 {
        assert s[..2] == a[..2];
      } else {
        assert s[..2][1] == pat[0];
      }
      assert !StartsWith(s, pat);
      assert s[1..] == a[1..] + pat + b;
      DeletePairConcat(a[1..], pat, b);
      if |a| == 1 {
        assert DeleteAll(a[1..], pat) == [];
      }
    }
  }

  /** Deleting a pattern adds no character. */
  lemma {:induction false} DeleteAllKeepsChars(s: string, pat: string)
    requires |pat| > 0
    ensures forall c | c in DeleteAll(s, pat) :: c in s
    decreases |s|
  {
    if |s| >= |pat| {
      if StartsWith(s, pat) {
        DeleteAllKeepsChars(s[|pat|..], pat);
        assert forall c | c in s[|pat|..] :: c in s;
      } else {
        DeleteAllKeepsChars(s[1..], pat);
        assert forall c | c in s[1..] :: c in s;
      }
    }
  }

  /** The position of the first `c` in `s`. */
  function IndexOf(s: string, c: char): (i: nat)
    requires c in s
    ensures i < |s| && s[i] == c
    ensures c !in s[..i]
  {
    if s[0] == c then 0
    else
      var j := IndexOf(s[1..], c);
      assert s[..j + 1] == [s[0]] + s[1..][..j];
      j + 1
  }

  /** Glues `parts` together with `sep` between neighbours, as Python's `sep.join(parts)`. */
  function Join(parts: seq<string>, sep: char): string
    requires |parts| >= 1
  {
    if |parts| == 1 then parts[0] else parts[0] + [sep] + Join(parts[1..], sep)
  }

  /**
   Python's `s.split(sep)` for a one-character separator: never empty, an
   empty field between two adjacent separators and at either end is kept,
   and no field holds the separator.
   */
  function Split(s: string, sep: char): (parts: seq<string>)
    ensures |parts| >= 1
    ensures forall i | 0 <= i < |parts| :: sep !in parts[i]
    decreases |s|
  {
    if sep !in s then [s]
    else
      var i := IndexOf(s, sep);
      [s[..i]] + Split(s[i + 1..], sep)
  }

  /** Joining the fields of `s.split(sep)` with `sep` gives `s` back. */
  lemma {:induction false} JoinSplit(s: string, sep: char)
    ensures Join(Split(s, sep), sep) == s
    decreases |s|
  {
    if sep in s {
      var i := IndexOf(s, sep);
      var rest := Split(s[i + 1..], sep);
      JoinSplit(s[i + 1..], sep);
      var parts := [s[..i]] + rest;
      assert Split(s, sep) == parts;
      assert parts[1..] == rest;
      assert s == s[..i] + [sep] + s[i + 1..];
    }
  }

  /** A character of one of the parts is a character of their join. */
  lemma {:induction false} InJoin(parts: seq<string>, sep: char, i: nat, c: char)
    requires i < |parts| && c in parts[i]
    ensures c in Join(parts, sep)
    decreases |parts|
  {
    if i > 0 {
      assert parts[1..][i - 1] == parts[i];
      InJoin(parts[1..], sep, i - 1, c);
    }
  }

  /** A character in a field of `s.split(sep)` is a character of `s`. */
  lemma SplitFieldChars(s: string, sep: char, i: nat, c: char)
    requires i < |Split(s, sep)| && c in Split(s, sep)[i]
    ensures c in s
  {
    JoinSplit(s, sep);
    InJoin(Split(s, sep), sep, i, c);
  }

  /** A character missing from `s` is missing from every field of `s.split(sep)`. */
  lemma SplitAvoids(s: string, sep: char, c: char)
    requires c !in s
    ensures forall i | 0 <= i < |Split(s, sep)| :: c !in Split(s, sep)[i]
  {
    forall i | 0 <= i < |Split(s, sep)|
      ensures c !in Split(s, sep)[i]
    {
      if c in Split(s, sep)[i] {
        SplitFieldChars(s, sep, i, c);
      }
    }
  }

  /** The first separator of `p + [sep] + q` is the one between them when `p` holds none. */
  lemma IndexOfAfterPrefix(p: string, q: string, sep: char)
    requires sep !in p
    ensures sep in p + [sep] + q && IndexOf(p + [sep] + q, sep) == |p|
    decreases |p|
  {
    var s := p + [sep] + q;
    assert s[|p|] == sep;
    if |p| > 0 {
      assert s[1..] == p[1..] + [sep] + q;
      IndexOfAfterPrefix(p[1..], q, sep);
    }
  }

  /** Splitting at the first separator of `p + [sep] + q` peels off `p`. */
  lemma SplitAtFirst(p: string, q: string, sep: char)
    requires sep !in p
    ensures Split(p + [sep] + q, sep) == [p] + Split(q, sep)
  {
    var s := p + [sep] + q;
    IndexOfAfterPrefix(p, q, sep);
    assert s[..|p|] == p;
    assert s[|p| + 1..] == q;
  }

  /** Splitting undoes joining when no part holds the separator. */
  lemma {:induction false} SplitJoin(parts: seq<string>, sep: char)
    requires |parts| >= 1
    requires forall i | 0 <= i < |parts| :: sep !in parts[i]
    ensures Split(Join(parts, sep), sep) == parts
    decreases |parts|
  {
    if |parts| > 1 {
      var tail := Join(parts[1..], sep);
      assert Join(parts, sep) == parts[0] + [sep] + tail;
      SplitAtFirst(parts[0], tail, sep);
      SplitJoin(parts[1..], sep);
      assert parts == [parts[0]] + parts[1..];
    }
  }

  /**
   POSIX `os.path.basename`: the longest suffix of `p` without a slash, so
   that it is all of `p` or is preceded by a slash.
   */
  function Basename(p: string): (b: string)
    ensures '/' !in b
    ensures |b| <= |p| && p[|p| - |b|..] == b
    ensures |b| < |p| ==> p[|p| - |b| - 1] == '/'
    decreases |p|
  {
    if |p| == 0 || p[|p| - 1] == '/' then ""
    else Basename(p[..|p| - 1]) + [p[|p| - 1]]
  }

  /** True when `s` consists of slashes only. */
  predicate AllSlashes(s: string) {
    forall i | 0 <= i < |s| :: s[i] == '/'
  }

  /** `s` with its trailing slashes stripped, as Python's `s.rstrip('/')`. */
  function TrimSlashes(s: string): (r: string)
    ensures |r| <= |s| && s[..|r|] == r
    ensures |r| > 0 ==> r[|r| - 1] != '/'
    ensures AllSlashes(s[|r|..])
    decreases |s|
  {
    if |s| > 0 && s[|s| - 1] == '/' then TrimSlashes(s[..|s| - 1]) else s
  }

  /**
   POSIX `os.path.dirname`: everything before the basename, with trailing
   slashes stripped unless nothing but slashes is left.
   */
  function Dirname(p: string): string {
    var head := p[..|p| - |Basename(p)|];
    if |head| > 0 && !AllSlashes(head) then TrimSlashes(head) else head
  }

  /** Appending a slash-free name to a path adds it to the basename. */
  lemma {:induction false} BasenameOfJoin(d: string, name: string)
    requires '/' !in name
    ensures Basename(d + "/" + name) == name
    decreases |name|
  {
    var p := d + "/" + name;
    if |name| > 0 {
      assert p[..|p| - 1] == d + "/" + name[..|name| - 1];
      BasenameOfJoin(d, name[..|name| - 1]);
      assert name == name[..|name| - 1] + [name[|name| - 1]];
    }
  }

  /**
   Splitting `d + "/" + name` into directory and base name gives back `d`
   and `name` when `name` is slash-free and `d` is a non-empty path that
   does not end in a slash.
   */
  lemma PathRoundTrip(d: string, name: string)
    requires '/' !in name
    requires |d| > 0 && d[|d| - 1] != '/'
    ensures Basename(d + "/" + name) == name
    ensures Dirname(d + "/" + name) == d
  {
    var p := d + "/" + name;
    BasenameOfJoin(d, name);
    assert p[..|p| - |name|] == d + "/";
    assert (d + "/")[|d| - 1] != '/';
    assert (d + "/")[..|d|] == d;
  }

  /** ASCII lower-casing of one character. */
  function LowerChar(c: char): char {
    if 'A' <= c <= 'Z' then (c as int + 32) as char else c
  }

  /**
   `s.lower()` restricted to ASCII letters: no upper-case ASCII letter is
   left, each one is replaced by the letter 32 code points above it, and
   every other character stays where it was.
   */
  function Lower(s: string): (r: string)
    ensures |r| == |s|
    ensures forall i | 0 <= i < |r| :: !('A' <= r[i] <= 'Z')
    ensures forall i | 0 <= i < |s| && !('A' <= s[i] <= 'Z') :: r[i] == s[i]
    ensures forall i | 0 <= i < |s| && 'A' <= s[i] <= 'Z' :: r[i] as int == s[i] as int + 32
  {
    seq(|s|, i requires 0 <= i < |s| => LowerChar(s[i]))
  }

  /** Lower-casing twice is lower-casing once. */
  lemma LowerIdempotent(s: string)
    ensures Lower(Lower(s)) == Lower(s)
  {
  }
}

/** What the test suite asks of `flatten_directory_files` beyond this
    version of flatten.py: a source that is the destination aborts the run,
    an empty target list is reported as such, equal flattened names are told
    apart by `_1`, `_2`, ... before the extension, and the run ends with a
    tally of successes and failures. */
module Tested {
  import opened Paths
  import opened Scan
  import opened Flatten

  /** The decimal digit for `d`. */
  function Digit(d: nat): char
    requires d < 10
  {
    ('0' as int + d) as char
  }

  /** `str(n)`: the decimal numeral of `n`, without leading zeros. */
  function Decimal(n: nat): (s: string)
    ensures |s| >= 1
    ensures n >= 10 ==> |s| >= 2
    ensures s[|s| - 1] == Digit(n % 10)
  {
    if n < 10 then [Digit(n)] else Decimal(n / 10) + [Digit(n % 10)]
  }

  /** Distinct numbers have distinct numerals. */
  lemma {:induction false} DecimalInjective(m: nat, n: nat)
    requires Decimal(m) == Decimal(n)
    ensures m == n
  {
    var s := Decimal(m);
    assert Digit(m % 10) == Digit(n % 10);
    assert m % 10 == n % 10;
    if m >= 10 && n >= 10 {
      assert Decimal(m / 10) == s[..|s| - 1] == Decimal(n / 10);
      DecimalInjective(m / 10, n / 10);
    } else {
      assert m < 10 && n < 10;
    }
  }

  /** `Path.stem`: the name without its suffix. */
  function Stem(name: string): (stem: string)
    ensures stem + Suffix(name) == name
  {
    name[..|name| - |Suffix(name)|]
  }

  /** The name a repeat gets: `<stem>_<n><suffix>`. */
  function Numbered(name: string, n: nat): string
  {
    Stem(name) + "_" + Decimal(n) + Suffix(name)
  }

  /** A numbered name is never the plain name: it is longer. */
  lemma NumberedIsLonger(name: string, n: nat)
    ensures |Numbered(name, n)| > |name|
  {
    assert |Stem(name)| + |Suffix(name)| == |name|;
  }

  /** Different repeat numbers give different names. */
  lemma NumberedInjective(name: string, m: nat, n: nat)
    requires Numbered(name, m) == Numbered(name, n)
    ensures m == n
  {
    var p, suf := Stem(name) + "_", Suffix(name);
    assert Numbered(name, m) == p + (Decimal(m) + suf);
    assert Numbered(name, n) == p + (Decimal(n) + suf);
    CancelPrefix(p, Decimal(m) + suf, Decimal(n) + suf);
    CancelSuffix(Decimal(m), Decimal(n), suf);
    DecimalInjective(m, n);
  }

  /** Equal texts with equal beginnings have equal rests. */
  lemma CancelPrefix(p: string, x: string, y: string)
    requires p + x == p + y
    ensures x == y
  {
    assert x == (p + x)[|p|..];
    assert y == (p + y)[|p|..];
  }

  /** Equal texts with equal endings have equal beginnings. */
  lemma CancelSuffix(x: string, y: string, z: string)
    requires x + z == y + z
    ensures x == y
  {
    assert |x| == |y|;
    assert x == (x + z)[..|x|];
    assert y == (y + z)[..|y|];
  }

  /** A numbered name keeps the suffix of the name it numbers, so it still
      passes the extension test. */
  lemma NumberedKeepsTarget(name: string, n: nat)
    requires IsTargetName(name)
    ensures Suffix(Numbered(name, n)) == Suffix(name)
    ensures IsTargetName(Numbered(name, n))
  {
    var suf := Suffix(name);
    assert Lower("") == "";
    assert suf != "";
    var ext := suf[1..];
    assert suf == "." + ext;
    var prefix := Stem(name) + "_" + Decimal(n);
    assert Numbered(name, n) == prefix + "." + ext;
    SuffixOfStemAndExtension(prefix, ext);
  }

  /** How often `x` occurs in `s`. */
  function Occurrences(s: seq<string>, x: string): nat
  {
    if s == [] then 0
    else Occurrences(s[..|s| - 1], x) + (if s[|s| - 1] == x then 1 else 0)
  }

  /** The collision table after assigning `names` in order: how often each
      flattened name has been assigned so far. */
  function Table(names: seq<string>): map<string, nat>
  {
    if names == [] then map[]
    else
      var t := Table(names[..|names| - 1]);
      var last := names[|names| - 1];
      t[last := (if last in t then t[last] else 0) + 1]
  }

  /** The name written for `name` given the table so far: unchanged the first
      time, `<stem>_<count><suffix>` after that. */
  function Assign(table: map<string, nat>, name: string): string
  {
    var count := if name in table then table[name] else 0;
    if count == 0 then name else Numbered(name, count)
  }

  /** The names written for a run's flattened names, in order. */
  function Resolve(names: seq<string>): (written: seq<string>)
    ensures |written| == |names|
  {
    if names == [] then []
    else Resolve(names[..|names| - 1]) + [Assign(Table(names[..|names| - 1]), names[|names| - 1])]
  }

  /** The table counts the assignments made so far. */
  lemma {:induction false} TableCounts(names: seq<string>, x: string)
    ensures (if x in Table(names) then Table(names)[x] else 0) == Occurrences(names, x)
  {
    if names != [] {
      TableCounts(names[..|names| - 1], x);
    }
  }

  /** Resolving keeps one name per file; the i-th becomes its flattened name
      when that name did not occur earlier, and `<stem>_<k><suffix>` when it
      occurred k times before. */
  lemma {:induction false} ResolveAt(names: seq<string>, i: nat)
    requires i < |names|
    ensures |Resolve(names)| == |names|
    ensures var k := Occurrences(names[..i], names[i]);
      Resolve(names)[i] == if k == 0 then names[i] else Numbered(names[i], k)
  {
    var n := |names| - 1;
    var init := names[..n];
    if i < n {
      ResolveAt(init, i);
      assert init[..i] == names[..i];
    } else {
      if n > 0 {
        ResolveAt(init, 0);
      }
      TableCounts(init, names[n]);
    }
  }

  /** A name occurs more often in a longer prefix that includes one more copy of it. */
  lemma {:induction false} OccurrencesGrow(names: seq<string>, i: nat, j: nat)
    requires i < j <= |names|
    ensures Occurrences(names[..j], names[i]) >= Occurrences(names[..i], names[i]) + 1
  {
    if j == i + 1 {
      assert names[..j][..i] == names[..i];
    } else {
      OccurrencesGrow(names, i, j - 1);
      assert names[..j][..j - 1] == names[..j - 1];
    }
  }

  /** Files with the same flattened name are written under different names. */
  lemma ResolveSeparatesRepeats(names: seq<string>, i: nat, j: nat)
    requires i < j < |names| && names[i] == names[j]
    ensures |Resolve(names)| == |names| && Resolve(names)[i] != Resolve(names)[j]
  {
    ResolveAt(names, i);
    ResolveAt(names, j);
    OccurrencesGrow(names, i, j);
    var ki := Occurrences(names[..i], names[i]);
    var kj := Occurrences(names[..j], names[j]);
    if ki == 0 {
      NumberedIsLonger(names[j], kj);
    } else if Resolve(names)[i] == Resolve(names)[j] {
      NumberedInjective(names[i], ki, kj);
    }
  }

  /** A name assigned twice is kept the first time and numbered 1 the second. */
  lemma ResolveTwice(x: string)
    ensures Resolve([x, x]) == [x, Numbered(x, 1)]
  {
    assert [x, x][..1] == [x];
    assert [x][..0] == [];
    assert Table([x]) == map[x := 1];
  }

  /** `dir1_file.xlsx` numbered 1 is `dir1_file_1.xlsx`. */
  lemma NumberedExample()
    ensures Numbered("dir1_file.xlsx", 1) == "dir1_file_1.xlsx"
  {
    SuffixOfStemAndExtension("dir1_file", "xlsx");
    assert "dir1_file" + "." + "xlsx" == "dir1_file.xlsx";
    assert Stem("dir1_file.xlsx") == "dir1_file";
    assert Decimal(1) == "1";
  }

  /** The collision case of the tests: the second `dir1_file.xlsx` becomes `dir1_file_1.xlsx`. */
  lemma CollisionExample()
    ensures Resolve(["dir1_file.xlsx", "dir1_file.xlsx"]) == ["dir1_file.xlsx", "dir1_file_1.xlsx"]
  {
    ResolveTwice("dir1_file.xlsx");
    NumberedExample();
  }

  /** Numbering only looks at names assigned earlier in the run, so a file
      already named like a numbered repeat can still meet one: the scan
      `a_1.xlsx`, `a.xlsx`, `a.xlsx` writes `a_1.xlsx` twice. */
  lemma NumberedRepeatCanMeetExistingName(numbered: string, plain: string)
    requires numbered == "a_1.xlsx" && plain == "a.xlsx"
    ensures var r := Resolve([numbered, plain, plain]); r[0] == r[2] == numbered
  {
    var names := [numbered, plain, plain];
    FirstRepeatOfA(numbered, plain);
    ResolveAt(names, 0);
    ResolveAt(names, 2);
    assert names[..0] == [];
    assert names[..2] == [numbered, plain];
    assert [numbered, plain][..1] == [numbered];
    assert [numbered][..0] == [];
    assert numbered != plain;
    assert Occurrences([numbered], plain) == 0;
    assert Occurrences(names[..2], plain) == 1;
  }

  /** The first repeat of `a.xlsx` is numbered `a_1.xlsx`. */
  lemma FirstRepeatOfA(numbered: string, plain: string)
    requires numbered == "a_1.xlsx" && plain == "a.xlsx"
    ensures Numbered(plain, 1) == numbered
  {
    SuffixOfStemAndExtension("a", "xlsx");
    assert "a" + "." + "xlsx" == plain;
    assert Stem(plain) == "a";
    assert Decimal(1) == "1";
  }

  /** The flattened names of the targets, in order. */
  function FlattenedNames(targets: seq<Entry>): (names: seq<string>)
    ensures |names| == |targets|
    ensures forall k :: 0 <= k < |targets| ==> names[k] == FlattenedName(targets[k].path)
  {
    if targets == [] then []
    else FlattenedNames(targets[..|targets| - 1]) + [FlattenedName(targets[|targets| - 1].path)]
  }

  /** The destination listing after copying each target under the name at its position. */
  function CopyAllAs(files: map<string, FileId>, targets: seq<Entry>, names: seq<string>,
                     copy: RelPath -> CopyOutcome): (after: map<string, FileId>)
    requires |names| == |targets|
    ensures files.Keys <= after.Keys
  {
    if targets == [] then files
    else
      var n := |targets| - 1;
      var before := CopyAllAs(files, targets[..n], names[..n], copy);
      if copy(targets[n].path).Copied? then before[names[n] := targets[n].path] else before
  }

  /** Target `k` writes `name` under the given names: its copy succeeds and
      `name` is the name at its position. */
  ghost predicate WritesAs(targets: seq<Entry>, names: seq<string>, copy: RelPath -> CopyOutcome,
                           k: int, name: string)
  {
    0 <= k < |targets| && k < |names| && copy(targets[k].path).Copied? && names[k] == name
  }

  /** After copying under the given names the destination holds the old names
      plus the name of every successfully copied target, and nothing else. */
  lemma {:induction false} CopyAllAsNames(files: map<string, FileId>, targets: seq<Entry>,
                                          names: seq<string>, copy: RelPath -> CopyOutcome)
    requires |names| == |targets|
    ensures forall name :: name in CopyAllAs(files, targets, names, copy) <==>
      name in files || exists k :: WritesAs(targets, names, copy, k, name)
  {
    if targets != [] {
      var n := |targets| - 1;
      var init, initNames := targets[..n], names[..n];
      CopyAllAsNames(files, init, initNames, copy);
      assert forall k :: 0 <= k < n ==> init[k] == targets[k] && initNames[k] == names[k];
      forall name | name in CopyAllAs(files, targets, names, copy) && name !in files
        ensures exists k :: WritesAs(targets, names, copy, k, name)
      {
        if name !in CopyAllAs(files, init, initNames, copy) {
          assert WritesAs(targets, names, copy, n, name);
        } else {
          var k :| WritesAs(init, initNames, copy, k, name);
          assert WritesAs(targets, names, copy, k, name);
        }
      }
      forall name | exists k :: WritesAs(targets, names, copy, k, name)
        ensures name in CopyAllAs(files, targets, names, copy)
      {
        var k :| WritesAs(targets, names, copy, k, name);
        if k < n {
          assert WritesAs(init, initNames, copy, k, name);
        }
      }
    }
  }

  /** A name holds the last successfully copied target written under it. */
  lemma {:induction false} CopyAllAsLastWriterWins(files: map<string, FileId>, targets: seq<Entry>,
                                                   names: seq<string>, copy: RelPath -> CopyOutcome, k: nat)
    requires |names| == |targets|
    requires k < |targets| && copy(targets[k].path).Copied?
    requires forall j :: k < j ==> !WritesAs(targets, names, copy, j, names[k])
    ensures names[k] in CopyAllAs(files, targets, names, copy)
    ensures CopyAllAs(files, targets, names, copy)[names[k]] == targets[k].path
  {
    var n := |targets| - 1;
    var init, initNames := targets[..n], names[..n];
    if k < n {
      assert init[k] == targets[k] && initNames[k] == names[k];
      forall j | k < j
        ensures !WritesAs(init, initNames, copy, j, initNames[k])
      {
        if j < n {
          assert init[j] == targets[j] && initNames[j] == names[j];
          assert !WritesAs(targets, names, copy, j, names[k]);
        }
      }
      CopyAllAsLastWriterWins(files, init, initNames, copy, k);
      assert !WritesAs(targets, names, copy, n, names[k]);
    }
  }

  /** No name occurs twice. */
  ghost predicate Distinct(names: seq<string>)
  {
    forall i, j :: 0 <= i < j < |names| ==> names[i] != names[j]
  }

  /** Under pairwise distinct names every copied target sits under its own name. */
  lemma CopyAllAsDistinct(files: map<string, FileId>, targets: seq<Entry>, names: seq<string>,
                          copy: RelPath -> CopyOutcome, k: nat)
    requires |names| == |targets| && Distinct(names)
    requires k < |targets| && copy(targets[k].path).Copied?
    ensures names[k] in CopyAllAs(files, targets, names, copy)
    ensures CopyAllAs(files, targets, names, copy)[names[k]] == targets[k].path
  {
    forall j | k < j
      ensures !WritesAs(targets, names, copy, j, names[k])
    {
      if j < |targets| {
        assert names[k] != names[j];
      }
    }
    CopyAllAsLastWriterWins(files, targets, names, copy, k);
  }

  /** A completed run copies the targets under their resolved names, so it
      holds exactly the old names plus the resolved name of every copied target. */
  lemma CompletedRunFiles(source: Source, sameDirectory: bool, files: map<string, FileId>,
                          copy: RelPath -> CopyOutcome)
    requires TestedRun(source, sameDirectory, files, copy).Completed?
    ensures |Resolve(FlattenedNames(Selected(source.entries)))| == |Selected(source.entries)|
    ensures TestedRun(source, sameDirectory, files, copy).files
      == CopyAllAs(files, Selected(source.entries), Resolve(FlattenedNames(Selected(source.entries))), copy)
    ensures var targets := Selected(source.entries);
      var names := Resolve(FlattenedNames(targets));
      forall name :: name in TestedRun(source, sameDirectory, files, copy).files <==>
        name in files || exists j :: WritesAs(targets, names, copy, j, name)
  {
    var targets := Selected(source.entries);
    var names := Resolve(FlattenedNames(targets));
    assert TestedRun(source, sameDirectory, files, copy).files == CopyAllAs(files, targets, names, copy);
    CopyAllAsNames(files, targets, names, copy);
  }

  /** When the resolved names of a completed run are pairwise distinct, each
      copied target sits under its own resolved name. */
  lemma CompletedRunKeepsEveryCopy(source: Source, sameDirectory: bool, files: map<string, FileId>,
                                   copy: RelPath -> CopyOutcome, k: nat)
    requires TestedRun(source, sameDirectory, files, copy).Completed?
    requires Distinct(Resolve(FlattenedNames(Selected(source.entries))))
    requires k < |Selected(source.entries)| && copy(Selected(source.entries)[k].path).Copied?
    ensures var targets := Selected(source.entries);
      var names := Resolve(FlattenedNames(targets));
      var after := TestedRun(source, sameDirectory, files, copy).files;
      names[k] in after && after[names[k]] == targets[k].path
  {
    var targets := Selected(source.entries);
    var names := Resolve(FlattenedNames(targets));
    CompletedRunFiles(source, sameDirectory, files, copy);
    var after := TestedRun(source, sameDirectory, files, copy).files;
    assert after == CopyAllAs(files, targets, names, copy);
    CopyAllAsDistinct(files, targets, names, copy, k);
  }

  /** How many of the targets are copied successfully. */
  function Succeeded(targets: seq<Entry>, copy: RelPath -> CopyOutcome): (n: nat)
    ensures n <= |targets|
  {
    if targets == [] then 0
    else Succeeded(targets[..|targets| - 1], copy) + (if copy(targets[|targets| - 1].path).Copied? then 1 else 0)
  }

  /** Successes and failures together account for every target. */
  lemma {:induction false} TallyAddsUp(targets: seq<Entry>, copy: RelPath -> CopyOutcome)
    ensures Succeeded(targets, copy) + |Errors(targets, copy)| == |targets|
  {
    if targets != [] {
      TallyAddsUp(targets[..|targets| - 1], copy);
    }
  }

  /** How a run as the tests expect it ends. */
  datatype Summary =
    | SourceNotFound
    | SameDirectory
    | NoTargetFiles
    | Completed(files: map<string, FileId>, succeeded: nat, failed: nat)

  /** The run the tests expect: the missing-source check first, then the
      same-directory check, then the scan; an empty target list ends the run,
      otherwise every target is copied under its resolved name and tallied. */
  function TestedRun(source: Source, sameDirectory: bool, files: map<string, FileId>,
                     copy: RelPath -> CopyOutcome): Summary
  {
    if !source.present then SourceNotFound
    else if sameDirectory then SameDirectory
    else
      var targets := Selected(source.entries);
      if targets == [] then NoTargetFiles
      else Completed(CopyAllAs(files, targets, Resolve(FlattenedNames(targets)), copy),
                     Succeeded(targets, copy), |Errors(targets, copy)|)
  }

  /** Which way a run ends, and that a completed run tallies every target. */
  lemma TestedRunOutcome(source: Source, sameDirectory: bool, files: map<string, FileId>,
                         copy: RelPath -> CopyOutcome)
    ensures TestedRun(source, sameDirectory, files, copy) == SourceNotFound <==> !source.present
    ensures TestedRun(source, sameDirectory, files, copy) == SameDirectory <==> source.present && sameDirectory
    ensures TestedRun(source, sameDirectory, files, copy) == NoTargetFiles <==>
      source.present && !sameDirectory && Selected(source.entries) == []
    ensures TestedRun(source, sameDirectory, files, copy).Completed? ==>
      TestedRun(source, sameDirectory, files, copy).succeeded + TestedRun(source, sameDirectory, files, copy).failed
      == |Selected(source.entries)| > 0
  {
    TallyAddsUp(Selected(source.entries), copy);
  }

  /** A run over a single target whose copy fails copies nothing and counts one failure. */
  lemma OneFailingTarget(e: Entry, copy: RelPath -> CopyOutcome)
    requires IsTarget(e) && copy(e.path).Failed?
    ensures TestedRun(Source(true, [e]), false, map[], copy) == Completed(map[], 0, 1)
  {
    var targets := [e];
    assert targets[..0] == [];
    assert Selected(targets) == targets;
    assert Succeeded(targets, copy) == 0;
    assert |Errors(targets, copy)| == 1;
    var names := Resolve(FlattenedNames(targets));
    assert names[..0] == [];
    assert CopyAllAs(map[], targets[..0], names[..0], copy) == map[];
    assert CopyAllAs(map[], targets, names, copy) == map[];
  }

  /** The copy-error case of the tests: one spreadsheet whose copy fails gives
      0 successes and 1 failure, and the destination gains nothing. */
  lemma CopyErrorScenario(file: Entry, copy: RelPath -> CopyOutcome)
    requires file == Entry(["file.xlsx"], true)
    requires copy(file.path) == Failed("Mocked permission error")
    ensures TestedRun(Source(true, [file]), false, map[], copy) == Completed(map[], 0, 1)
  {
    assert "file" + ".xlsx" == "file.xlsx";
    SpreadsheetSelected(file.path, "file");
    OneFailingTarget(file, copy);
  }

  /** Two copied targets after a directory, flattening to the same name `x`,
      end as `x` holding the first and `x` numbered 1 holding the second. */
  lemma TwoTargetsOneName(d: Entry, a: Entry, b: Entry, x: string)
    requires !d.isFile && IsTarget(a) && IsTarget(b)
    requires FlattenedName(a.path) == x && FlattenedName(b.path) == x
    ensures TestedRun(Source(true, [d, a, b]), false, map[], _ => Copied)
      == Completed(map[x := a.path, Numbered(x, 1) := b.path], 2, 0)
  {
    DirectoryThenTwoTargets(d, a, b);
    FlattenedNamesTwo(a, b);
    ResolveTwice(x);
    CopyTwoAsIntoEmpty(a, b, x, Numbered(x, 1));
    TallyTwoCopied(a, b, _ => Copied);
    assert map[x := a.path][Numbered(x, 1) := b.path] == map[x := a.path, Numbered(x, 1) := b.path];
  }

  /** The flattened names of two targets. */
  lemma FlattenedNamesTwo(a: Entry, b: Entry)
    ensures FlattenedNames([a, b]) == [FlattenedName(a.path), FlattenedName(b.path)]
  {
  }

  /** Copying two targets successfully under given names into an empty destination. */
  lemma CopyTwoAsIntoEmpty(a: Entry, b: Entry, x: string, y: string)
    ensures CopyAllAs(map[], [a, b], [x, y], _ => Copied) == map[x := a.path][y := b.path]
  {
    var copy: RelPath -> CopyOutcome := _ => Copied;
    assert [a, b][..1] == [a];
    assert [x, y][..1] == [x];
    assert [a][..0] == [];
    assert [x][..0] == [];
    assert CopyAllAs(map[], [a], [x], copy) == map[x := a.path];
  }

  /** Two successful copies tally as two successes and no failure. */
  lemma TallyTwoCopied(a: Entry, b: Entry, copy: RelPath -> CopyOutcome)
    requires copy(a.path) == Copied && copy(b.path) == Copied
    ensures Succeeded([a, b], copy) == 2 && Errors([a, b], copy) == []
  {
    assert [a, b][..1] == [a];
    assert [a][..0] == [];
    assert Succeeded([a], copy) == 1;
    assert Errors([a], copy) == [];
  }

  /** The collision case of the tests run end to end: the scan lists the
      root's `dir1_file.xlsx` before `dir1/file.xlsx`, so the top-level file is
      written as `dir1_file.xlsx` and the nested one as `dir1_file_1.xlsx`. */
  lemma CollisionScenario(dir1: Entry, top: Entry, nested: Entry)
    requires dir1 == Entry(["dir1"], false)
    requires top == Entry(["dir1_file.xlsx"], true) && nested == Entry(["dir1", "file.xlsx"], true)
    ensures TestedRun(Source(true, [dir1, top, nested]), false, map[], _ => Copied)
      == Completed(map["dir1_file.xlsx" := top.path, "dir1_file_1.xlsx" := nested.path], 2, 0)
  {
    TopFileSelected(top);
    NestedFileSelected(nested);
    FlatteningIsNotInjective();
    NumberedExample();
    TwoTargetsOneName(dir1, top, nested, "dir1_file.xlsx");
  }
}

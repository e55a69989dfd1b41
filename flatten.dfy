/** `flatten_directory_files` as this version of flatten.py has it: return early when the
    source is missing, create the destination, collect the targets, then copy
    each target under its flattened name, reporting and skipping failures.
    Two targets with the same flattened name write the same destination path,
    so the later copy replaces the earlier one. */
module Flatten {
  import opened Paths
  import opened Scan

  /** What a destination file holds: the relative path of the source file it
      was copied from. Files that were there before the run hold anything. */
  type FileId = RelPath

  /** The outcome of `shutil.copy2` for one file, decided by the environment. */
  datatype CopyOutcome = Copied | Failed(message: string)

  /** A reported failure: the source file's name and the error text. */
  datatype CopyError = CopyError(file: string, message: string)

  /** The source directory as the run sees it: whether it exists and, if it
      does, the entries of its recursive scan in the order they are yielded. */
  datatype Source = Source(present: bool, entries: seq<Entry>)

  /** The destination directory: whether it exists and the files it holds. */
  class Destination {
    var present: bool
    var files: map<string, FileId>

    /** A directory that does not exist holds no files. */
    ghost predicate Valid()
      reads this
    {
      !present ==> files == map[]
    }

    constructor (present: bool, files: map<string, FileId>)
      requires present || files == map[]
      ensures Valid()
      ensures this.present == present && this.files == files
    {
      this.present := present;
      this.files := files;
    }

    /** `mkdir(parents=True, exist_ok=True)`: the directory exists afterwards
        and what it already held is kept. */
    method MakeDirs()
      requires Valid()
      modifies this
      ensures Valid()
      ensures present && files == old(files)
    {
      present := true;
    }

    /** A successful copy to `name`: the file there now holds `id`, replacing
        whatever was there. */
    method Write(name: string, id: FileId)
      requires Valid() && present
      modifies this
      ensures Valid() && present
      ensures files == old(files)[name := id]
    {
      files := files[name := id];
    }
  }

  /** One pass of the copy loop on the destination listing. */
  function CopyStep(files: map<string, FileId>, t: Entry, copy: RelPath -> CopyOutcome): map<string, FileId>
  {
    if copy(t.path).Copied? then files[FlattenedName(t.path) := t.path] else files
  }

  /** The destination listing after the copy loop has gone through `targets` in order. */
  function CopyAll(files: map<string, FileId>, targets: seq<Entry>, copy: RelPath -> CopyOutcome): map<string, FileId>
  {
    if targets == [] then files
    else CopyStep(CopyAll(files, targets[..|targets| - 1], copy), targets[|targets| - 1], copy)
  }

  /** The failures the copy loop reports, in target order. */
  function Errors(targets: seq<Entry>, copy: RelPath -> CopyOutcome): (errors: seq<CopyError>)
    ensures |errors| <= |targets|
  {
    if targets == [] then []
    else
      var t := targets[|targets| - 1];
      Errors(targets[..|targets| - 1], copy)
      + (if copy(t.path).Failed? then [CopyError(Name(t.path), copy(t.path).message)] else [])
  }

  /** The run. `attempted` lists the source paths handed to the copy, in order;
      `errors` the failures reported. A missing source changes nothing. */
  method FlattenDirectoryFiles(source: Source, dest: Destination, copy: RelPath -> CopyOutcome)
      returns (attempted: seq<RelPath>, errors: seq<CopyError>)
    requires dest.Valid()
    modifies dest
    ensures dest.Valid()
    ensures !source.present ==>
      dest.present == old(dest.present) && dest.files == old(dest.files) && attempted == [] && errors == []
    ensures !source.present && !old(dest.present) ==> !dest.present && dest.files == map[]
    ensures source.present ==>
      var targets := Selected(source.entries);
      && dest.present
      && dest.files == CopyAll(old(dest.files), targets, copy)
      && errors == Errors(targets, copy)
      && |attempted| == |targets|
      && (forall k :: 0 <= k < |targets| ==> attempted[k] == targets[k].path)
  {
    if !source.present {
      return [], [];
    }
    dest.MakeDirs();
    var targets := CollectTargets(source.entries);
    attempted, errors := CopyTargets(targets, dest, copy);
  }

  /** The copy loop: each target is attempted once, in order; a successful
      copy writes the flattened name, a failed one is reported and skipped. */
  method CopyTargets(targets: seq<Entry>, dest: Destination, copy: RelPath -> CopyOutcome)
      returns (attempted: seq<RelPath>, errors: seq<CopyError>)
    requires dest.Valid() && dest.present
    modifies dest
    ensures dest.Valid() && dest.present
    ensures dest.files == CopyAll(old(dest.files), targets, copy)
    ensures errors == Errors(targets, copy)
    ensures |attempted| == |targets|
    ensures forall k :: 0 <= k < |targets| ==> attempted[k] == targets[k].path
  {
    attempted, errors := [], [];
    for i := 0 to |targets|
      invariant dest.Valid() && dest.present
      invariant dest.files == CopyAll(old(dest.files), targets[..i], copy)
      invariant errors == Errors(targets[..i], copy)
      invariant |attempted| == i
      invariant forall k :: 0 <= k < i ==> attempted[k] == targets[k].path
    {
      var t := targets[i];
      assert targets[..i + 1][..i] == targets[..i];
      attempted := attempted + [t.path];
      var newName := FlattenedName(t.path);
      match copy(t.path)
      case Copied =>
        dest.Write(newName, t.path);
      case Failed(message) =>
        errors := errors + [CopyError(Name(t.path), message)];
    }
    assert targets[..|targets|] == targets;
  }

  /** Target `k` writes `name`: its copy succeeds and it flattens to `name`. */
  ghost predicate Writes(targets: seq<Entry>, copy: RelPath -> CopyOutcome, k: int, name: string)
  {
    0 <= k < |targets| && copy(targets[k].path).Copied? && FlattenedName(targets[k].path) == name
  }

  /** After the loop the destination holds the old names plus the flattened
      name of every successfully copied target, and nothing else. */
  lemma {:induction false} CopyAllNames(files: map<string, FileId>, targets: seq<Entry>, copy: RelPath -> CopyOutcome)
    ensures forall name :: name in CopyAll(files, targets, copy) <==>
      name in files || exists k :: Writes(targets, copy, k, name)
  {
    if targets != [] {
      var n := |targets| - 1;
      var init := targets[..n];
      CopyAllNames(files, init, copy);
      assert forall k :: 0 <= k < n ==> init[k] == targets[k];
      forall name | name in CopyAll(files, targets, copy) && name !in files
        ensures exists k :: Writes(targets, copy, k, name)
      {
        if name !in CopyAll(files, init, copy) {
          assert Writes(targets, copy, n, name);
        } else {
          var k :| Writes(init, copy, k, name);
          assert Writes(targets, copy, k, name);
        }
      }
      forall name | exists k :: Writes(targets, copy, k, name)
        ensures name in CopyAll(files, targets, copy)
      {
        var k :| Writes(targets, copy, k, name);
        if k < n {
          assert Writes(init, copy, k, name);
        }
      }
    }
  }

  /** A name no successful target flattens to keeps its old content. */
  lemma {:induction false} CopyAllKeepsOthers(files: map<string, FileId>, targets: seq<Entry>,
                                              copy: RelPath -> CopyOutcome, name: string)
    requires name in files
    requires forall k :: !Writes(targets, copy, k, name)
    ensures name in CopyAll(files, targets, copy) && CopyAll(files, targets, copy)[name] == files[name]
  {
    if targets != [] {
      var n := |targets| - 1;
      var init := targets[..n];
      forall k ensures !Writes(init, copy, k, name) {
        if 0 <= k < n {
          assert init[k] == targets[k];
          assert !Writes(targets, copy, k, name);
        }
      }
      assert !Writes(targets, copy, n, name);
      CopyAllKeepsOthers(files, init, copy, name);
    }
  }

  /** A name gets the content of the last successful target that flattens to it:
      equal flattened names overwrite, and the later copy wins. */
  lemma {:induction false} CopyAllLastWriterWins(files: map<string, FileId>, targets: seq<Entry>,
                                                 copy: RelPath -> CopyOutcome, k: nat)
    requires k < |targets| && copy(targets[k].path).Copied?
    requires forall j :: k < j ==> !Writes(targets, copy, j, FlattenedName(targets[k].path))
    ensures var name := FlattenedName(targets[k].path);
      name in CopyAll(files, targets, copy) && CopyAll(files, targets, copy)[name] == targets[k].path
  {
    var n := |targets| - 1;
    var init := targets[..n];
    var name := FlattenedName(targets[k].path);
    if k < n {
      assert init[k] == targets[k];
      forall j | k < j
        ensures !Writes(init, copy, j, name)
      {
        if j < n {
          assert init[j] == targets[j];
          assert !Writes(targets, copy, j, name);
        }
      }
      CopyAllLastWriterWins(files, init, copy, k);
      assert !Writes(targets, copy, n, name);
    }
  }

  /** A failing copy is skipped and nothing else: the destination ends as if
      that target had not been in the list at all. */
  lemma {:induction false} FailedCopyIsSkipped(files: map<string, FileId>, targets: seq<Entry>,
                                               copy: RelPath -> CopyOutcome, k: nat)
    requires k < |targets| && copy(targets[k].path).Failed?
    ensures CopyAll(files, targets, copy) == CopyAll(files, targets[..k] + targets[k + 1..], copy)
  {
    var n := |targets| - 1;
    var init := targets[..n];
    var rest := targets[..k] + targets[k + 1..];
    if k == n {
      assert rest == init;
    } else {
      assert init[k] == targets[k];
      FailedCopyIsSkipped(files, init, copy, k);
      var rest' := init[..k] + init[k + 1..];
      assert rest == rest' + [targets[n]] by {
        assert init[..k] == targets[..k];
        assert targets[k + 1..] == init[k + 1..] + [targets[n]];
      }
      assert (rest' + [targets[n]])[..|rest'|] == rest';
    }
  }

  /** A failure is reported for exactly the targets whose copy fails. */
  lemma {:induction false} ErrorsCount(targets: seq<Entry>, copy: RelPath -> CopyOutcome)
    ensures |Errors(targets, copy)| == |set k | 0 <= k < |targets| && copy(targets[k].path).Failed?|
  {
    if targets != [] {
      var n := |targets| - 1;
      var init := targets[..n];
      ErrorsCount(init, copy);
      var before := set k | 0 <= k < n && copy(init[k].path).Failed?;
      var after := set k | 0 <= k < |targets| && copy(targets[k].path).Failed?;
      assert forall k :: 0 <= k < n ==> init[k] == targets[k];
      if copy(targets[n].path).Failed? {
        assert after == before + {n};
      } else {
        assert after == before;
      }
    }
  }

  /** Every name the run adds to the destination passes the extension test. */
  lemma AddedNamesAreTargets(files: map<string, FileId>, entries: seq<Entry>,
                             copy: RelPath -> CopyOutcome, name: string)
    requires name in CopyAll(files, Selected(entries), copy) && name !in files
    ensures IsTargetName(name)
  {
    var targets := Selected(entries);
    CopyAllNames(files, targets, copy);
    var k :| Writes(targets, copy, k, name);
    SelectedMembership(entries);
    assert targets[k] in targets;
    assert |targets[k].path| >= 1;
    FlattenedNameStillTarget(targets[k].path);
  }

  /** The copy loop over two targets is two copy steps. */
  lemma CopyAllTwo(files: map<string, FileId>, a: Entry, b: Entry, copy: RelPath -> CopyOutcome)
    ensures CopyAll(files, [a, b], copy) == CopyStep(CopyStep(files, a, copy), b, copy)
  {
    assert [a, b][..1] == [a];
    assert [a][..0] == [];
    assert CopyAll(files, [a], copy) == CopyStep(files, a, copy);
  }

  /** Directories are skipped and files that pass the test are kept. */
  lemma SelectedOfShape(d1: Entry, d2: Entry, e1: Entry, d3: Entry, e4: Entry)
    requires !d1.isFile && !d2.isFile && !d3.isFile && IsTarget(e1) && IsTarget(e4)
    ensures Selected([d1, d2, e1, d3, e4]) == [e1, e4]
  {
    var p3 := [d1, d2, e1];
    DirectoryDirectoryFile(d1, d2, e1);
    var p4 := p3 + [d3];
    SelectedSnoc(p3, d3);
    var p5 := p4 + [e4];
    SelectedSnoc(p4, e4);
    assert p5 == [d1, d2, e1, d3, e4];
  }

  /** Of two directories and a kept file, the file is kept. */
  lemma DirectoryDirectoryFile(d1: Entry, d2: Entry, e1: Entry)
    requires !d1.isFile && !d2.isFile && IsTarget(e1)
    ensures Selected([d1, d2, e1]) == [e1]
  {
    var p1 := [] + [d1];
    SelectedSnoc([], d1);
    var p2 := p1 + [d2];
    SelectedSnoc(p1, d2);
    var p3 := p2 + [e1];
    SelectedSnoc(p2, e1);
    assert p3 == [d1, d2, e1];
  }

  /** A directory is skipped and the two files after it are kept. */
  lemma DirectoryThenTwoTargets(d: Entry, a: Entry, b: Entry)
    requires !d.isFile && IsTarget(a) && IsTarget(b)
    ensures Selected([d, a, b]) == [a, b]
  {
    var p1 := [] + [d];
    SelectedSnoc([], d);
    var p2 := p1 + [a];
    SelectedSnoc(p1, a);
    var p3 := p2 + [b];
    SelectedSnoc(p2, b);
    assert p3 == [d, a, b];
  }

  /** The entries of the basic scenario's scan that are collected. The scan
      lists a directory's entries before descending into it. */
  lemma BasicScanTargets(dir1: Entry, dir2: Entry, file1: Entry, sub: Entry, file2: Entry)
    requires dir1 == Entry(["dir1"], false) && file1 == Entry(["dir1", "file1.xlsx"], true)
    requires dir2 == Entry(["dir2"], false) && sub == Entry(["dir2", "sub"], false)
    requires file2 == Entry(["dir2", "sub", "file2.pptx"], true)
    ensures Selected([dir1, dir2, file1, sub, file2]) == [file1, file2]
  {
    File1Selected(file1);
    NestedPresentationSelected();
    SelectedOfShape(dir1, dir2, file1, sub, file2);
  }

  /** Copying two targets successfully into an empty destination. */
  lemma CopyTwoIntoEmpty(a: Entry, b: Entry)
    ensures CopyAll(map[], [a, b], _ => Copied) == map[FlattenedName(a.path) := a.path][FlattenedName(b.path) := b.path]
  {
    CopyAllTwo(map[], a, b, _ => Copied);
  }

  /** The basic scenario: `dir1/file1.xlsx` and `dir2/sub/file2.pptx` scanned
      with their directories, every copy succeeding, into an empty destination,
      give exactly `dir1_file1.xlsx` and `dir2_sub_file2.pptx`. */
  lemma BasicScenario(dir1: Entry, dir2: Entry, file1: Entry, sub: Entry, file2: Entry)
    requires dir1 == Entry(["dir1"], false) && file1 == Entry(["dir1", "file1.xlsx"], true)
    requires dir2 == Entry(["dir2"], false) && sub == Entry(["dir2", "sub"], false)
    requires file2 == Entry(["dir2", "sub", "file2.pptx"], true)
    ensures CopyAll(map[], Selected([dir1, dir2, file1, sub, file2]), _ => Copied)
      == map["dir1_file1.xlsx" := ["dir1", "file1.xlsx"], "dir2_sub_file2.pptx" := ["dir2", "sub", "file2.pptx"]]
  {
    BasicScanTargets(dir1, dir2, file1, sub, file2);
    CopyTwoIntoEmpty(file1, file2);
    NestedExample();
  }

  /** Of a scan of `dir1`, `dir1_file.xlsx` and then `dir1/file.xlsx` (the
      root's entries come before those of `dir1`), both files are collected. */
  lemma CollidingScanTargets(dir1: Entry, top: Entry, nested: Entry)
    requires dir1 == Entry(["dir1"], false)
    requires top == Entry(["dir1_file.xlsx"], true) && nested == Entry(["dir1", "file.xlsx"], true)
    ensures Selected([dir1, top, nested]) == [top, nested]
  {
    TopFileSelected(top);
    NestedFileSelected(nested);
    DirectoryThenTwoTargets(dir1, top, nested);
  }

  /** Two files that flatten to the same name leave one destination file, with
      the content of the later copy: the nested file. */
  lemma SameNameOverwrites(dir1: Entry, top: Entry, nested: Entry)
    requires dir1 == Entry(["dir1"], false)
    requires top == Entry(["dir1_file.xlsx"], true) && nested == Entry(["dir1", "file.xlsx"], true)
    ensures CopyAll(map[], Selected([dir1, top, nested]), _ => Copied) == map["dir1_file.xlsx" := ["dir1", "file.xlsx"]]
  {
    CollidingScanTargets(dir1, top, nested);
    CopyTwoIntoEmpty(top, nested);
    FlatteningIsNotInjective();
  }
}

/** The scan filter of `flatten_directory_files`: of the entries that
    `rglob('*')` yields, in that order, keep the regular files whose suffix,
    lower-cased, is one of the target extensions. */
module Scan {
  import opened Paths

  /** The extensions flatten.py as it stands collects; compared with the lower-cased suffix. */
  const TargetExtensions: set<string> := {".xlsx", ".xls", ".pptx", ".ppt"}

  /** One entry of the recursive scan: its path relative to the source root and
      whether it is a regular file (`is_file()`). */
  datatype Entry = Entry(path: RelPath, isFile: bool)

  /** The extension test on a final segment: `p.suffix.lower() in target_extensions`. */
  predicate IsTargetName(name: string)
  {
    Lower(Suffix(name)) in TargetExtensions
  }

  /** The whole selection test of one entry: a regular file with a target extension. */
  predicate IsTarget(e: Entry)
  {
    e.isFile && IsTargetName(Name(e.path))
  }

  /** The specification of the target list: the entries that pass the test, in scan order. */
  function Selected(entries: seq<Entry>): seq<Entry>
  {
    if entries == [] then []
    else
      var last := entries[|entries| - 1];
      Selected(entries[..|entries| - 1]) + (if IsTarget(last) then [last] else [])
  }

  /** The positions, in scan order, of the entries the filter keeps. */
  function SelectedIndices(entries: seq<Entry>): seq<nat>
  {
    if entries == [] then []
    else
      SelectedIndices(entries[..|entries| - 1])
      + (if IsTarget(entries[|entries| - 1]) then [|entries| - 1] else [])
  }

  /** Builds the target list as the source does: one pass over the scan,
      appending each entry that passes the test. */
  method CollectTargets(entries: seq<Entry>) returns (targets: seq<Entry>)
    ensures targets == Selected(entries)
    ensures forall e :: e in targets <==> e in entries && IsTarget(e)
  {
    targets := [];
    for i := 0 to |entries|
      invariant targets == Selected(entries[..i])
    {
      assert entries[..i + 1][..i] == entries[..i];
      if IsTarget(entries[i]) {
        targets := targets + [entries[i]];
      }
    }
    assert entries[..|entries|] == entries;
    SelectedMembership(entries);
  }

  /** An entry is in the target list exactly when it was scanned and passes the test. */
  lemma {:induction false} SelectedMembership(entries: seq<Entry>)
    ensures forall e :: e in Selected(entries) <==> e in entries && IsTarget(e)
  {
    if entries != [] {
      var init := entries[..|entries| - 1];
      SelectedMembership(init);
      assert entries == init + [entries[|entries| - 1]];
    }
  }

  /** Scanning one more entry appends it to the target list iff it passes the test. */
  lemma SelectedSnoc(entries: seq<Entry>, e: Entry)
    ensures Selected(entries + [e]) == Selected(entries) + (if IsTarget(e) then [e] else [])
  {
    assert (entries + [e])[..|entries|] == entries;
  }

  /** The kept positions point into the scan at the entries of the target list. */
  lemma {:induction false} SelectedAtIndices(entries: seq<Entry>)
    ensures |SelectedIndices(entries)| == |Selected(entries)|
    ensures forall k :: 0 <= k < |SelectedIndices(entries)| ==>
      SelectedIndices(entries)[k] < |entries| && Selected(entries)[k] == entries[SelectedIndices(entries)[k]]
  {
    if entries != [] {
      var n := |entries| - 1;
      var init := entries[..n];
      SelectedAtIndices(init);
      assert forall j :: 0 <= j < n ==> init[j] == entries[j];
    }
  }

  /** The kept positions are strictly increasing: the target list keeps scan order. */
  lemma {:induction false} SelectedIndicesIncrease(entries: seq<Entry>)
    ensures forall k :: 0 <= k < |SelectedIndices(entries)| ==> SelectedIndices(entries)[k] < |entries|
    ensures forall k, l :: 0 <= k < l < |SelectedIndices(entries)| ==>
      SelectedIndices(entries)[k] < SelectedIndices(entries)[l]
  {
    if entries != [] {
      SelectedIndicesIncrease(entries[..|entries| - 1]);
    }
  }

  /** A scan position is kept iff its entry passes the test. */
  lemma {:induction false} SelectedIndicesExact(entries: seq<Entry>)
    ensures forall j :: 0 <= j < |entries| ==> (IsTarget(entries[j]) <==> j in SelectedIndices(entries))
  {
    if entries != [] {
      var n := |entries| - 1;
      var init := entries[..n];
      var before := SelectedIndices(init);
      SelectedIndicesExact(init);
      SelectedIndicesIncrease(init);
      assert n !in before;
      forall j | 0 <= j < n
        ensures IsTarget(entries[j]) <==> j in before
      {
        assert init[j] == entries[j];
      }
      if IsTarget(entries[n]) {
        KeptPositionsAppend(before, n);
      } else {
        assert SelectedIndices(entries) == before;
      }
    }
  }

  /** Membership in the kept positions after one more is kept. */
  lemma KeptPositionsAppend(before: seq<nat>, n: nat)
    ensures forall j :: j in before + [n] <==> j in before || j == n
  {
  }

  /** The target list is exactly the passing entries in scan order: its k-th
      element is the scanned entry at the k-th kept position, the kept
      positions increase, and a position is kept iff its entry passes the test. */
  lemma SelectedInScanOrder(entries: seq<Entry>)
    ensures |SelectedIndices(entries)| == |Selected(entries)|
    ensures forall k :: 0 <= k < |SelectedIndices(entries)| ==>
      SelectedIndices(entries)[k] < |entries| && Selected(entries)[k] == entries[SelectedIndices(entries)[k]]
    ensures forall k, l :: 0 <= k < l < |SelectedIndices(entries)| ==>
      SelectedIndices(entries)[k] < SelectedIndices(entries)[l]
    ensures forall j :: 0 <= j < |entries| ==> (IsTarget(entries[j]) <==> j in SelectedIndices(entries))
  {
    SelectedAtIndices(entries);
    SelectedIndicesIncrease(entries);
    SelectedIndicesExact(entries);
  }

  /** Extension matching ignores case: a name passes iff its lower-cased form does. */
  lemma SelectionIgnoresCase(name: string)
    ensures IsTargetName(Lower(name)) <==> IsTargetName(name)
  {
    SuffixLower(name);
    LowerIdempotent(Suffix(name));
  }

  /** Any `<stem>.xlsx` file is collected, at any depth. */
  lemma SpreadsheetSelected(path: RelPath, stem: string)
    requires stem != "" && |path| >= 1 && path[|path| - 1] == stem + ".xlsx"
    ensures IsTarget(Entry(path, true))
  {
    var ext := "." + "xlsx";
    assert Name(path) == stem + "." + "xlsx";
    SuffixOfStemAndExtension(stem, "xlsx");
    assert Suffix(Name(path)) == ext;
    SpreadsheetExtension(ext);
    assert Lower(Suffix(Name(path))) in TargetExtensions;
  }

  /** `.xlsx` lower-cases to itself and is a target extension. */
  lemma SpreadsheetExtension(ext: string)
    requires ext == "." + "xlsx"
    ensures Lower(ext) == ext && ext in TargetExtensions
  {
    LowerOfLowercase(ext);
    assert ext == ".xlsx";
  }

  /** The spreadsheet of the basic scenario is collected. */
  lemma File1Selected(e: Entry)
    requires e == Entry(["dir1", "file1.xlsx"], true)
    ensures IsTarget(e)
  {
    assert "file1" + ".xlsx" == "file1.xlsx";
    SpreadsheetSelected(e.path, "file1");
  }

  /** The top-level spreadsheet of the collision scenario is collected. */
  lemma TopFileSelected(e: Entry)
    requires e == Entry(["dir1_file.xlsx"], true)
    ensures IsTarget(e)
  {
    assert "dir1_file" + ".xlsx" == "dir1_file.xlsx";
    SpreadsheetSelected(e.path, "dir1_file");
  }

  /** The nested spreadsheet of the collision scenario is collected. */
  lemma NestedFileSelected(e: Entry)
    requires e == Entry(["dir1", "file.xlsx"], true)
    ensures IsTarget(e)
  {
    assert "file" + ".xlsx" == "file.xlsx";
    SpreadsheetSelected(e.path, "file");
  }

  /** Upper-case spreadsheets are collected. */
  lemma UpperCaseExtensionSelected()
    ensures IsTarget(Entry(["A.XLSX"], true))
  {
    SuffixOfStemAndExtension("A", "XLSX");
    assert "A" + "." + "XLSX" == "A.XLSX";
    assert Name(["A.XLSX"]) == "A.XLSX";
    assert Lower(".XLSX") == ".xlsx";
  }

  /** The nested presentation of the basic scenario is collected. */
  lemma NestedPresentationSelected()
    ensures IsTarget(Entry(["dir2", "sub", "file2.pptx"], true))
  {
    SuffixOfStemAndExtension("file2", "pptx");
    assert "file2" + "." + "pptx" == "file2.pptx";
    assert Name(["dir2", "sub", "file2.pptx"]) == "file2.pptx";
    assert Lower(".pptx") == ".pptx";
  }

  /** No `<stem>.txt`, at any depth, is collected. */
  lemma TextFileRejected(path: RelPath, stem: string, isFile: bool)
    requires stem != "" && |path| >= 1 && path[|path| - 1] == stem + ".txt"
    ensures !IsTarget(Entry(path, isFile))
  {
    var ext := ".txt";
    SuffixOfStemAndExtension(stem, "txt");
    assert stem + "." + "txt" == stem + ext;
    TextExtensionIsNoTarget(ext);
  }

  /** `.txt` lower-cases to itself, which is not a target extension. */
  lemma TextExtensionIsNoTarget(ext: string)
    requires ext == ".txt"
    ensures Lower(ext) == ext && ext !in TargetExtensions
  {
    LowerOfLowercase(ext);
    assert |ext| == 4 && ext[1] == 't';
  }

  /** Directories and a hidden file named like an extension are not collected. */
  lemma DirectoryAndHiddenFileRejected()
    ensures !IsTarget(Entry(["dir.xlsx"], false))
    ensures !IsTarget(Entry([".xlsx"], true))
  {
    RFindLastSeparator("", '.', "xlsx");
    assert "" + ['.'] + "xlsx" == ".xlsx";
    assert Name([".xlsx"]) == ".xlsx";
    assert Suffix(".xlsx") == "";
    assert Lower("") == "";
  }

  /** A name with a leading dot before the stem's dot, such as `..xlsx`, still
      has the suffix `.xlsx` under the modelled rule, so it is collected. */
  lemma LeadingDotsSelected()
    ensures IsTarget(Entry(["..xlsx"], true))
  {
    RFindLastSeparator(".", '.', "xlsx");
    assert "." + ['.'] + "xlsx" == "..xlsx";
    assert Name(["..xlsx"]) == "..xlsx";
    assert Suffix("..xlsx") == ".xlsx";
    SpreadsheetExtension(".xlsx");
  }

  /** The flattened name of a collected file passes the same extension test. */
  lemma FlattenedNameStillTarget(p: RelPath)
    requires |p| >= 1
    requires IsTargetName(Name(p))
    ensures IsTargetName(FlattenedName(p))
  {
    FlattenedNameSuffix(p);
  }
}

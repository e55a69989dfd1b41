/** Path and string manipulation used by the flattener: the final segment of a
    relative path, its suffix (as `PurePath.suffix` computes it), lower-casing,
    and the `"_".join(parts)` that turns a relative path into one file name. */
module Paths {

  /** A path relative to the source root, as its segments (`Path.parts`). */
  type RelPath = seq<string>

  /** The final segment of a path (`Path.name`); the empty path has an empty name. */
  function Name(p: RelPath): string
  {
    if p == [] then "" else p[|p| - 1]
  }

  /** `s.rfind(c)`: the index of the last occurrence of `c` in `s`, or -1. */
  function RFind(s: string, c: char): (i: int)
    ensures -1 <= i < |s|
    ensures i >= 0 ==> s[i] == c
    ensures forall k :: i < k < |s| ==> s[k] != c
  {
    if s == [] then -1
    else if s[|s| - 1] == c then |s| - 1
    else RFind(s[..|s| - 1], c)
  }

  /** `s.find(c)`: the index of the first occurrence of `c` in `s`, or -1. */
  function Find(s: string, c: char): (i: int)
    ensures -1 <= i < |s|
    ensures i >= 0 ==> s[i] == c
    ensures forall k :: 0 <= k < |s| && (i < 0 || k < i) ==> s[k] != c
  {
    if s == [] then -1
    else if s[0] == c then 0
    else
      var j := Find(s[1..], c);
      if j < 0 then -1 else j + 1
  }

  /** `PurePath.suffix` of a final segment: the text from its last dot, provided
      that dot is neither the first nor the last character; otherwise empty.
      So `.xlsx` (a hidden file) and `book.` have no suffix. */
  function Suffix(name: string): (r: string)
    ensures r == "" || (2 <= |r| < |name| && r == name[|name| - |r|..] && r[0] == '.')
    ensures forall k :: 1 <= k < |r| ==> r[k] != '.'
  {
    var i := RFind(name, '.');
    if 0 < i < |name| - 1 then name[i..] else ""
  }

  /** Lower-casing of one character: the ASCII letters A-Z map to a-z. */
  function LowerChar(c: char): (d: char)
    ensures d == '.' <==> c == '.'
  {
    if 'A' <= c <= 'Z' then (c as int + 32) as char else c
  }

  /** `s.lower()`, character by character. */
  function Lower(s: string): (r: string)
    ensures |r| == |s|
    ensures forall k :: 0 <= k < |s| ==> r[k] == LowerChar(s[k])
  {
    if s == [] then [] else [LowerChar(s[0])] + Lower(s[1..])
  }

  /** `sep.join(parts)`. */
  function Join(sep: string, parts: seq<string>): string
  {
    if |parts| == 0 then ""
    else if |parts| == 1 then parts[0]
    else parts[0] + sep + Join(sep, parts[1..])
  }

  /** The name a file is copied under: its relative segments joined by `_`. */
  function FlattenedName(p: RelPath): string
  {
    Join("_", p)
  }

  /** `s.split(c)` for a one-character separator. */
  function Split(c: char, s: string): (parts: seq<string>)
    ensures |parts| >= 1
    decreases |s|
  {
    var i := Find(s, c);
    if i < 0 then [s] else [s[..i]] + Split(c, s[i + 1..])
  }

  /** Joining peels off from the right too: the last segment is appended after
      the separator to the join of the others. */
  lemma {:induction false} JoinSnoc(sep: string, parts: seq<string>)
    requires |parts| >= 2
    ensures Join(sep, parts) == Join(sep, parts[..|parts| - 1]) + sep + parts[|parts| - 1]
  {
    if |parts| == 2 {
      assert parts[..1] == [parts[0]];
    } else {
      var rest := parts[1..];
      JoinSnoc(sep, rest);
      assert rest[..|rest| - 1] == parts[..|parts| - 1][1..];
      assert parts[..|parts| - 1][0] == parts[0];
    }
  }

  /** A file directly under the source root keeps its own name; otherwise the
      flattened name is the flattened parent path, `_`, and the file's name.
      Either way the flattened name ends with the file's name. */
  lemma FlattenedNameEndsWithName(p: RelPath)
    requires |p| >= 1
    ensures |p| == 1 ==> FlattenedName(p) == Name(p)
    ensures |p| >= 2 ==> FlattenedName(p) == FlattenedName(p[..|p| - 1]) + "_" + Name(p)
    ensures |Name(p)| <= |FlattenedName(p)|
    ensures FlattenedName(p)[|FlattenedName(p)| - |Name(p)|..] == Name(p)
  {
    if |p| >= 2 {
      JoinSnoc("_", p);
    }
  }

  /** The last dot of `prefix + name` is the last dot of `name` when `name` has one. */
  lemma {:induction false} RFindAppend(prefix: string, name: string, c: char)
    requires RFind(name, c) >= 0
    ensures RFind(prefix + name, c) == |prefix| + RFind(name, c)
  {
    var s := prefix + name;
    if name[|name| - 1] != c {
      var name' := name[..|name| - 1];
      assert s[..|s| - 1] == prefix + name';
      RFindAppend(prefix, name', c);
    }
  }

  /** The last separator of `x + [c] + y`, when `y` holds none, is right after `x`. */
  lemma {:induction false} RFindLastSeparator(x: string, c: char, y: string)
    requires c !in y
    ensures RFind(x + [c] + y, c) == |x|
  {
    if y != [] {
      var y' := y[..|y| - 1];
      assert (x + [c] + y)[..|x + [c] + y| - 1] == x + [c] + y';
      RFindLastSeparator(x, c, y');
    } else {
      assert x + [c] + y == x + [c];
    }
  }

  /** A name made of a non-empty stem, a dot and a dot-free non-empty
      extension has that dot and extension as its suffix. */
  lemma SuffixOfStemAndExtension(stem: string, ext: string)
    requires stem != "" && ext != ""
    requires '.' !in ext
    ensures Suffix(stem + "." + ext) == "." + ext
  {
    RFindLastSeparator(stem, '.', ext);
    assert stem + "." + ext == stem + ['.'] + ext;
  }

  /** Prepending directories never changes a non-empty suffix: the suffix is
      taken from the final segment, which stays at the end of the name. */
  lemma SuffixOfAppend(prefix: string, name: string)
    requires Suffix(name) != ""
    ensures Suffix(prefix + name) == Suffix(name)
  {
    RFindAppend(prefix, name, '.');
    var s := prefix + name;
    assert s[|prefix| + RFind(name, '.')..] == name[RFind(name, '.')..];
  }

  /** The flattened name has the suffix of the file it came from, whenever that
      file has a suffix at all. */
  lemma FlattenedNameSuffix(p: RelPath)
    requires |p| >= 1
    requires Suffix(Name(p)) != ""
    ensures Suffix(FlattenedName(p)) == Suffix(Name(p))
  {
    FlattenedNameEndsWithName(p);
    var f := FlattenedName(p);
    var n := Name(p);
    assert f == f[..|f| - |n|] + n;
    SuffixOfAppend(f[..|f| - |n|], n);
  }

  /** Lower-casing keeps every dot where it was and makes no new ones. */
  lemma {:induction false} RFindLower(s: string)
    ensures RFind(Lower(s), '.') == RFind(s, '.')
  {
    if s != [] {
      var s' := s[..|s| - 1];
      assert Lower(s)[..|s| - 1] == Lower(s');
      RFindLower(s');
    }
  }

  /** The suffix of the lower-cased name is the lower-cased suffix. */
  lemma SuffixLower(name: string)
    ensures Suffix(Lower(name)) == Lower(Suffix(name))
  {
    RFindLower(name);
    var i := RFind(name, '.');
    if 0 < i < |name| - 1 {
      assert Lower(name)[i..] == Lower(name[i..]);
    }
  }

  /** Text without upper-case ASCII letters is its own lower-casing. */
  lemma LowerOfLowercase(s: string)
    requires forall k :: 0 <= k < |s| ==> !('A' <= s[k] <= 'Z')
    ensures Lower(s) == s
  {
  }

  /** Lower-casing twice is lower-casing once. */
  lemma LowerIdempotent(s: string)
    ensures Lower(Lower(s)) == Lower(s)
  {
    assert forall k :: 0 <= k < |s| ==> LowerChar(LowerChar(s[k])) == LowerChar(s[k]);
  }

  /** The first separator of `x + [c] + y`, when `x` holds none, is right after `x`. */
  lemma FindAfterSeparatorFree(x: string, c: char, y: string)
    requires c !in x
    ensures Find(x + [c] + y, c) == |x|
  {
    var s := x + [c] + y;
    var i := Find(s, c);
    assert s[|x|] == c;
    assert forall k :: 0 <= k < |x| ==> s[k] == x[k];
  }

  /** Splitting the flattened name at `_` recovers the relative path, provided
      no segment contains `_` itself: only then does the name keep the full
      provenance of the file. */
  lemma {:induction false} SplitFlattenedName(p: RelPath)
    requires |p| >= 1
    requires forall k :: 0 <= k < |p| ==> '_' !in p[k]
    ensures Split('_', FlattenedName(p)) == p
  {
    if |p| == 1 {
      assert Find(p[0], '_') < 0;
    } else {
      var rest := p[1..];
      var s := FlattenedName(p);
      assert s == p[0] + "_" + FlattenedName(rest);
      FindAfterSeparatorFree(p[0], '_', FlattenedName(rest));
      assert s[..|p[0]|] == p[0];
      assert s[|p[0]| + 1..] == FlattenedName(rest);
      SplitFlattenedName(rest);
      assert p == [p[0]] + rest;
    }
  }

  /** The flattened name for the nested file of the basic scenario. */
  lemma NestedExample()
    ensures FlattenedName(["dir2", "sub", "file2.pptx"]) == "dir2_sub_file2.pptx"
    ensures FlattenedName(["dir1", "file1.xlsx"]) == "dir1_file1.xlsx"
    ensures FlattenedName(["file.xlsx"]) == "file.xlsx"
  {
  }

  /** Two different relative paths may flatten to the same name. */
  lemma FlatteningIsNotInjective()
    ensures FlattenedName(["dir1", "file.xlsx"]) == FlattenedName(["dir1_file.xlsx"]) == "dir1_file.xlsx"
  {
  }
}

// The web console's file browser: the breadcrumb built from the current
// prefix, and the entries built from a listing (display name, folder flag,
// folders before files).
module FileBrowser {
  import opened Common

  /** The parts, each followed by '/': the folder path they spell. */
  function SlashJoin(parts: seq<string>): string
  {
    if |parts| == 0 then "" else SlashJoin(parts[..|parts| - 1]) + parts[|parts| - 1] + "/"
  }

  /** `filter(p => p)`: the non-empty parts, in order. */
  function NonEmpty(parts: seq<string>): (kept: seq<string>)
    ensures forall k :: 0 <= k < |kept| ==> kept[k] != ""
    ensures forall x :: x in kept <==> x in parts && x != ""
  {
    if |parts| == 0 then []
    else
      var kept := NonEmpty(parts[..|parts| - 1]);
      var last := parts[|parts| - 1];
      assert forall x :: x in parts <==> x in parts[..|parts| - 1] || x == last;
      if last == "" then kept else kept + [last]
  }

  /** The filter keeps order: filtering a concatenation concatenates the filtered halves. */
  lemma {:induction false} NonEmptyConcat(a: seq<string>, b: seq<string>)
    ensures NonEmpty(a + b) == NonEmpty(a) + NonEmpty(b)
  {
    if |b| > 0 {
      var n := |b| - 1;
      NonEmptyConcat(a, b[..n]);
      assert (a + b)[..|a + b| - 1] == a + b[..n];
    } else {
      assert a + b == a;
    }
  }

  /** Parts that are all non-empty are kept whole, in order. */
  lemma {:induction false} NonEmptyKeepsAll(parts: seq<string>)
    requires forall k :: 0 <= k < |parts| ==> parts[k] != ""
    ensures NonEmpty(parts) == parts
  {
    if |parts| > 0 {
      NonEmptyKeepsAll(parts[..|parts| - 1]);
      FrontLast(parts);
    }
  }

  /** `s.split('/').filter(p => p)`: the non-empty '/'-separated segments of `s`. */
  function Segments(s: string): seq<string>
  {
    NonEmpty(SplitOn(s, '/'))
  }

  predicate IsSegment(p: string)
  {
    p != "" && '/' !in p
  }

  /** Splitting a folder path followed by a last piece gives the folders and that piece. */
  lemma {:induction false} SplitSlashJoin(parts: seq<string>, last: string)
    requires forall k :: 0 <= k < |parts| ==> '/' !in parts[k]
    requires '/' !in last
    ensures SplitOn(SlashJoin(parts) + last, '/') == parts + [last]
  {
    if |parts| == 0 {
      assert SlashJoin(parts) + last == last;
      assert LastIndexOf(last, '/') == -1;
    } else {
      var init := parts[..|parts| - 1];
      var p := parts[|parts| - 1];
      var head := SlashJoin(init) + p;
      assert SlashJoin(parts) + last == head + ['/'] + last;
      SplitAtLastSlash(head, last);
      assert forall k :: 0 <= k < |init| ==> init[k] == parts[k];
      SplitSlashJoin(init, p);
      FrontLast(parts);
    }
  }

  /** Splitting at a last '/' gives the pieces before it, then what follows it. */
  lemma SplitAtLastSlash(head: string, last: string)
    requires '/' !in last
    ensures SplitOn(head + ['/'] + last, '/') == SplitOn(head, '/') + [last]
  {
    LastIndexOfSplit(head, '/', last);
    assert (head + ['/'] + last)[..|head|] == head;
  }

  lemma {:induction false} NonEmptyOfSegments(parts: seq<string>)
    requires forall k :: 0 <= k < |parts| ==> parts[k] != ""
    ensures NonEmpty(parts) == parts
  {
    if |parts| > 0 {
      NonEmptyOfSegments(parts[..|parts| - 1]);
      assert parts[..|parts| - 1] + [parts[|parts| - 1]] == parts;
    }
  }

  /** The segments of "a/b/.../q" are a, b, ..., q (q left out when empty). */
  lemma SegmentsOfPath(parts: seq<string>, last: string)
    requires forall k :: 0 <= k < |parts| ==> IsSegment(parts[k])
    requires '/' !in last
    ensures Segments(SlashJoin(parts) + last) == parts + (if last == "" then [] else [last])
  {
    SplitSlashJoin(parts, last);
    NonEmptyOfSegments(parts);
    assert (parts + [last])[..|parts|] == parts;
  }

  /** One breadcrumb element: a link to a folder, or the current folder as plain text. */
  datatype Crumb = Link(text: string, target: string) | Current(text: string)

  /** The breadcrumb bar: hidden, or shown with the root link followed by the crumbs. */
  datatype Breadcrumb = Hidden | Shown(crumbs: seq<Crumb>)

  /** Crumb k of the segments: the last is plain text, every other one links to segments 0..k. */
  function CrumbAt(parts: seq<string>, k: nat): Crumb
    requires k < |parts|
  {
    if k == |parts| - 1 then Current(parts[k]) else Link(parts[k], SlashJoin(parts[..k + 1]))
  }

  function BreadcrumbOf(prefix: string): Breadcrumb
  {
    if prefix == "" then Hidden
    else
      var parts := Segments(prefix);
      Shown(seq(|parts|, k requires 0 <= k < |parts| => CrumbAt(parts, k)))
  }

  /**
   * updateBreadcrumb: hidden for an empty prefix; otherwise one crumb per
   * non-empty segment, accumulating the path segment by segment.
   */
  method UpdateBreadcrumb(prefix: string) returns (bar: Breadcrumb)
    ensures bar == BreadcrumbOf(prefix)
  {
    if prefix == "" {
      return Hidden;
    }
    var parts := Segments(prefix);
    var crumbs: seq<Crumb> := [];
    var currentPath := "";
    var index := 0;
    while index < |parts|
      invariant 0 <= index <= |parts|
      invariant currentPath == SlashJoin(parts[..index])
      invariant |crumbs| == index && forall k :: 0 <= k < index ==> crumbs[k] == CrumbAt(parts, k)
    {
      assert parts[..index + 1][..index] == parts[..index];
      currentPath := currentPath + parts[index] + "/";
      if index == |parts| - 1 {
        crumbs := crumbs + [Current(parts[index])];
      } else {
        crumbs := crumbs + [Link(parts[index], currentPath)];
      }
      index := index + 1;
    }
    bar := Shown(crumbs);
  }

  lemma {:induction false} SlashJoinPrefix(parts: seq<string>, k: nat)
    requires k <= |parts|
    ensures StartsWith(SlashJoin(parts), SlashJoin(parts[..k]))
  {
    if k < |parts| {
      var init := parts[..|parts| - 1];
      assert init[..k] == parts[..k];
      SlashJoinPrefix(init, k);
      var whole := SlashJoin(parts);
      assert whole == SlashJoin(init) + (parts[|parts| - 1] + "/");
      assert whole[..|SlashJoin(init)|] == SlashJoin(init);
      assert whole[..|SlashJoin(parts[..k])|] == SlashJoin(init)[..|SlashJoin(parts[..k])|];
    } else {
      assert parts[..k] == parts;
    }
  }

  /**
   * For a folder prefix "a/b/.../z/" there is one crumb per folder; the last
   * is the current folder and crumb k links to the path of the first k + 1
   * folders (a prefix of the current path, by SlashJoinPrefix).
   */
  lemma BreadcrumbOfFolder(parts: seq<string>)
    requires |parts| > 0 && forall k :: 0 <= k < |parts| ==> IsSegment(parts[k])
    ensures var bar := BreadcrumbOf(SlashJoin(parts));
      bar.Shown? && |bar.crumbs| == |parts|
      && bar.crumbs[|parts| - 1] == Current(parts[|parts| - 1])
      && forall k :: 0 <= k < |parts| - 1 ==> bar.crumbs[k] == Link(parts[k], SlashJoin(parts[..k + 1]))
  {
    SegmentsOfPath(parts, "");
    assert SlashJoin(parts) + "" == SlashJoin(parts);
    assert SlashJoin(parts) != "" by {
      assert SlashJoin(parts) == SlashJoin(parts[..|parts| - 1]) + parts[|parts| - 1] + "/";
    }
    assert Segments(SlashJoin(parts)) == parts;
    var bar := BreadcrumbOf(SlashJoin(parts));
    forall k | 0 <= k < |parts| - 1
      ensures bar.crumbs[k] == Link(parts[k], SlashJoin(parts[..k + 1]))
    {
      assert bar.crumbs[k] == CrumbAt(parts, k);
    }
  }

  /** The prefix "/" has no segments: the bar is shown with the root link alone. */
  lemma SlashOnlyPrefix()
    ensures BreadcrumbOf("/") == Shown([])
  {
    SplitSlashJoin([""], "");
    assert SlashJoin([""]) + "" == "/";
    assert NonEmpty(["", ""]) == [] by {
      assert ["", ""][..1] == [""];
      assert [""][..0] == [];
    }
  }

  /** `String.prototype.trim`: leading and trailing whitespace removed. */
  function Trim(s: string): (t: string)
    ensures |t| <= |s|
    ensures t != "" ==> !JsWhitespace(t[0]) && !JsWhitespace(t[|t| - 1])
    decreases |s|
  {
    if |s| > 0 && JsWhitespace(s[0]) then Trim(s[1..])
    else if |s| > 0 && JsWhitespace(s[|s| - 1]) then Trim(s[..|s| - 1])
    else s
  }

  /** The first `i` characters of `s` are all whitespace. */
  predicate WhitespaceBefore(s: string, i: int)
    requires 0 <= i <= |s|
  {
    forall k :: 0 <= k < i ==> JsWhitespace(s[k])
  }

  /** The characters of `s` from `j` on are all whitespace. */
  predicate WhitespaceFrom(s: string, j: int)
    requires 0 <= j <= |s|
  {
    forall k :: j <= k < |s| ==> JsWhitespace(s[k])
  }

  /** Trimming keeps the text between a whitespace-only head and a whitespace-only tail, unchanged. */
  lemma {:induction false} TrimInnerSlice(s: string)
    ensures exists i, j :: 0 <= i <= j <= |s| && Trim(s) == s[i..j]
                           && WhitespaceBefore(s, i) && WhitespaceFrom(s, j)
    decreases |s|
  {
    if |s| > 0 && JsWhitespace(s[0]) {
      var r := s[1..];
      TrimInnerSlice(r);
      var i, j :| 0 <= i <= j <= |r| && Trim(r) == r[i..j] && WhitespaceBefore(r, i) && WhitespaceFrom(r, j);
      ShiftWhitespace(s, i, j);
      assert 0 <= i + 1 <= j + 1 <= |s| && Trim(s) == s[i + 1..j + 1];
    } else if |s| > 0 && JsWhitespace(s[|s| - 1]) {
      var r := s[..|s| - 1];
      TrimInnerSlice(r);
      var i, j :| 0 <= i <= j <= |r| && Trim(r) == r[i..j] && WhitespaceBefore(r, i) && WhitespaceFrom(r, j);
      DropWhitespace(s, i, j);
      assert 0 <= i <= j <= |s| && Trim(s) == s[i..j];
    } else {
      assert Trim(s) == s[0..|s|];
      assert WhitespaceBefore(s, 0) && WhitespaceFrom(s, |s|);
    }
  }

  /** A whitespace head character moves the kept slice one place right. */
  lemma ShiftWhitespace(s: string, i: int, j: int)
    requires |s| > 0 && JsWhitespace(s[0]) && 0 <= i <= j <= |s| - 1
    requires Trim(s[1..]) == s[1..][i..j]
    requires WhitespaceBefore(s[1..], i) && WhitespaceFrom(s[1..], j)
    ensures Trim(s) == s[i + 1..j + 1]
    ensures WhitespaceBefore(s, i + 1) && WhitespaceFrom(s, j + 1)
  {
    assert s[1..][i..j] == s[i + 1..j + 1];
    forall k | 1 <= k < |s|
      ensures s[k] == s[1..][k - 1]
    {
    }
  }

  /** A whitespace last character (after a non-whitespace first one) leaves the kept slice in place. */
  lemma DropWhitespace(s: string, i: int, j: int)
    requires |s| > 0 && !JsWhitespace(s[0]) && JsWhitespace(s[|s| - 1]) && 0 <= i <= j <= |s| - 1
    requires Trim(s[..|s| - 1]) == s[..|s| - 1][i..j]
    requires WhitespaceBefore(s[..|s| - 1], i) && WhitespaceFrom(s[..|s| - 1], j)
    ensures Trim(s) == s[i..j]
    ensures WhitespaceBefore(s, i) && WhitespaceFrom(s, j)
  {
    assert s[..|s| - 1][i..j] == s[i..j];
    forall k | 0 <= k < |s| - 1
      ensures s[k] == s[..|s| - 1][k]
    {
    }
  }

  lemma {:induction false} TrimKeepsLastSlash(s: string)
    requires EndsWith(s, "/")
    ensures EndsWith(Trim(s), "/")
  {
    assert s[|s| - 1] == "/"[0];
    if |s| > 0 && JsWhitespace(s[0]) {
      assert s[1..][|s[1..]| - 1] == s[|s| - 1];
      TrimKeepsLastSlash(s[1..]);
    }
  }

  /** One entry of the file list. */
  datatype Item = Item(name: string, isFolder: bool, fullPath: string)

  /** An entry from one listed path: trimmed path, folder when it ends with '/', last segment as name. */
  function ToItem(file: string): Item
  {
    var path := Trim(file);
    var parts := Segments(path);
    Item(if |parts| == 0 then "" else parts[|parts| - 1], EndsWith(file, "/") || EndsWith(path, "/"), path)
  }

  /** An entry is a folder exactly when its trimmed path ends with '/'. */
  lemma FolderIffTrailingSlash(file: string)
    ensures ToItem(file).isFolder <==> EndsWith(Trim(file), "/")
  {
    if EndsWith(file, "/") {
      TrimKeepsLastSlash(file);
    }
  }

  /**
   * For a listed path "a/.../z/q" the name is q, and for a folder "a/.../z/"
   * it is z; the entry is a folder exactly in the second case.
   */
  lemma ItemOfPath(file: string, parts: seq<string>, last: string)
    requires Trim(file) == SlashJoin(parts) + last
    requires forall k :: 0 <= k < |parts| ==> IsSegment(parts[k])
    requires '/' !in last && (|parts| > 0 || last != "")
    ensures ToItem(file).name == (if last == "" then parts[|parts| - 1] else last)
    ensures ToItem(file).isFolder <==> last == ""
  {
    SegmentsOfPath(parts, last);
    FolderIffTrailingSlash(file);
    var path := Trim(file);
    if last == "" {
      assert path == SlashJoin(parts[..|parts| - 1]) + parts[|parts| - 1] + "/";
    } else {
      assert path[|path| - 1] == last[|last| - 1];
    }
  }

  predicate FoldersFirst(items: seq<Item>)
  {
    forall i, j :: 0 <= i < j < |items| && items[j].isFolder ==> items[i].isFolder
  }

  /** The entries of a listing, in listing order. */
  function Items(files: seq<string>): (items: seq<Item>)
    ensures |items| == |files|
  {
    if |files| == 0 then [] else Items(files[..|files| - 1]) + [ToItem(files[|files| - 1])]
  }

  /** displayFiles: one entry per listed path, the same entries reordered with folders before files. */
  method DisplayFiles(files: seq<string>) returns (items: seq<Item>)
    ensures multiset(items) == multiset(Items(files))
    ensures FoldersFirst(items)
  {
    var mapped: seq<Item> := [];
    var i := 0;
    while i < |files|
      invariant 0 <= i <= |files|
      invariant mapped == Items(files[..i])
    {
      ItemsStep(files, i);
      mapped := mapped + [ToItem(files[i])];
      i := i + 1;
    }
    assert files[..i] == files;
    items := SortFoldersFirst(mapped);
  }

  /** The sort's effect on the folder flag: a permutation with every folder before every file. */
  method SortFoldersFirst(entries: seq<Item>) returns (items: seq<Item>)
    ensures multiset(items) == multiset(entries)
    ensures FoldersFirst(items)
  {
    var folders: seq<Item> := [];
    var others: seq<Item> := [];
    var i := 0;
    while i < |entries|
      invariant 0 <= i <= |entries|
      invariant multiset(folders) + multiset(others) == multiset(entries[..i])
      invariant forall k :: 0 <= k < |folders| ==> folders[k].isFolder
      invariant forall k :: 0 <= k < |others| ==> !others[k].isFolder
    {
      var e := entries[i];
      assert entries[..i + 1] == entries[..i] + [e];
      assert multiset(entries[..i + 1]) == multiset(entries[..i]) + multiset{e};
      if e.isFolder {
        folders := folders + [e];
      } else {
        others := others + [e];
      }
      i := i + 1;
    }
    assert entries[..i] == entries;
    items := folders + others;
    FoldersThenOthers(folders, others);
  }

  /** Folders followed by files are in folders-first order. */
  lemma FoldersThenOthers(folders: seq<Item>, others: seq<Item>)
    requires forall k :: 0 <= k < |folders| ==> folders[k].isFolder
    requires forall k :: 0 <= k < |others| ==> !others[k].isFolder
    ensures FoldersFirst(folders + others)
  {
    var items := folders + others;
    forall i, j | 0 <= i < j < |items| && items[j].isFolder
      ensures items[i].isFolder
    {
      assert j < |folders|;
    }
  }

  lemma ItemsStep(files: seq<string>, i: nat)
    requires i < |files|
    ensures Items(files[..i + 1]) == Items(files[..i]) + [ToItem(files[i])]
  {
    assert files[..i + 1][..i] == files[..i];
  }
}

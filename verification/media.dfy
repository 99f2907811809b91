/**
 Where page files are stored (`media_directory_path` in `books/models.py`) and
 what the delete handler of the same file removes. The media directory is
 modelled as the set of file paths in it, relative to the media root.
 */
module Media {
  import opened Wrappers
  import opened Decimal
  import opened Text
  import opened Models

  /** The index of the last occurrence of `c` in `s`. */
  function LastIndex(s: string, c: char): (i: nat)
    requires c in s
    ensures i < |s| && s[i] == c && c !in s[i + 1..]
    ensures forall j :: i < j < |s| ==> s[j] != c
  {
    if s[|s| - 1] == c then |s| - 1
    else
      assert s[..|s| - 1] + [s[|s| - 1]] == s;
      LastIndex(s[..|s| - 1], c)
  }

  /** An occurrence of `c` with no other after it is the last one. */
  lemma LastIndexAt(s: string, c: char, k: nat)
    requires k < |s| && s[k] == c
    requires forall j :: k < j < |s| ==> s[j] != c
    ensures LastIndex(s, c) == k
  {
  }

  /** `i` is the position of the last '.' of `name`. */
  predicate IsLastDot(name: string, i: int)
  {
    0 <= i < |name| && name[i] == '.' && forall j :: i < j < |name| ==> name[j] != '.'
  }

  /** The last '.' is where `LastIndex` finds it. */
  lemma LastDotIsLastIndex(name: string)
    requires '.' in name
    ensures forall j :: IsLastDot(name, j) ==> j == LastIndex(name, '.')
  {
    forall j | IsLastDot(name, j)
      ensures j == LastIndex(name, '.')
    {
      LastIndexAt(name, '.', j);
    }
  }

  /** The last component of a path: what follows its last '/'. */
  function FinalComponent(path: string): (r: string)
    ensures '/' !in r
    ensures |r| <= |path| && r == path[|path| - |r|..]
  {
    if '/' in path then path[LastIndex(path, '/') + 1..] else path
  }

  /**
   The last component is everything after the last '/': a tail of the path
   with no '/' in it, right after a '/' when the path has one, and the whole
   path when it has none.
   */
  lemma FinalComponentAfterLastSlash(path: string)
    ensures var r := FinalComponent(path);
      '/' !in r && r == path[|path| - |r|..]
      && ('/' in path ==> |r| < |path| && path[|path| - |r| - 1] == '/')
      && ('/' !in path ==> r == path)
  {
  }

  /**
   `Path(filename).suffix`: the last component's final '.' and what follows,
   or nothing when that component has no dot, starts with its only dot, or ends
   with a dot.
   */
  function Suffix(filename: string): (r: string)
    ensures r == [] || (|r| >= 2 && r[0] == '.' && '.' !in r[1..])
    ensures '/' !in r
  {
    var name := FinalComponent(filename);
    if '.' in name then
      var i := LastIndex(name, '.');
      if 0 < i < |name| - 1 then name[i..] else []
    else []
  }

  /** The suffix is what follows the last '.' of the last component, or nothing. */
  lemma SuffixTail(filename: string)
    ensures var name := FinalComponent(filename); var r := Suffix(filename);
      |r| <= |name| && r == name[|name| - |r|..]
  {
    var name := FinalComponent(filename);
    var r := Suffix(filename);
    if r == [] {
      assert name[|name|..] == [];
    } else {
      var i := LastIndex(name, '.');
      assert r == name[i..];
      assert |name| - |r| == i;
    }
  }

  /** The suffix is present exactly when the last '.' of the last component lies strictly inside it. */
  lemma SuffixPresent(filename: string)
    ensures var name := FinalComponent(filename);
      Suffix(filename) != [] <==> exists i :: IsLastDot(name, i) && 0 < i < |name| - 1
  {
    var name := FinalComponent(filename);
    if '.' in name {
      var i := LastIndex(name, '.');
      LastDotIsLastIndex(name);
      assert IsLastDot(name, i);
    }
  }

  /**
   The suffix is a tail of the last component, and it is non-empty exactly
   when that component's last '.' lies strictly inside it.
   */
  lemma SuffixIsLastDotTail(filename: string)
    ensures var name := FinalComponent(filename); var r := Suffix(filename);
      |r| <= |name| && r == name[|name| - |r|..]
      && (r != [] <==> exists i :: IsLastDot(name, i) && 0 < i < |name| - 1)
  {
    SuffixTail(filename);
    SuffixPresent(filename);
  }

  function TypeSlug(t: PageType): string
  {
    match t
    case Typed => "typed"
    case Scanned => "scanned"
  }

  /** The directory holding the files of one page of one volume, both types alike. */
  function PageDirectory(volumeNo: int, pageNo: int): string
  {
    "volume_" + IntToString(volumeNo) + "/" + "page_" + IntToString(pageNo)
  }

  /** The name of a page's file without its suffix. */
  function FileStem(volumeNo: int, pageNo: int, t: PageType): string
  {
    "volume_" + IntToString(volumeNo) + "_page_" + IntToString(pageNo) + "_" + TypeSlug(t)
  }

  /**
   `media_directory_path`: the storage path of an upload,
   `volume_<v>/page_<p>/volume_<v>_page_<p>_<typed|scanned><suffix>`.
   It depends on the upload's name only through its suffix.
   */
  function MediaPath(volumeNo: int, pageNo: int, t: PageType, filename: string): string
  {
    PageDirectory(volumeNo, pageNo) + "/" + FileStem(volumeNo, pageNo, t) + Suffix(filename)
  }

  /** `os.path.split(path)[0]` for paths without repeated slashes: everything before the last '/'. */
  function DirName(path: string): (r: string)
    ensures |r| <= |path|
  {
    if '/' in path then path[..LastIndex(path, '/')] else []
  }

  /**
   A path is its directory, a '/' and its last component; a path without a
   '/' has no directory part.
   */
  lemma DirNameSplitsPath(path: string)
    ensures '/' in path ==> path == DirName(path) + "/" + FinalComponent(path)
    ensures '/' !in path ==> DirName(path) == []
  {
    if '/' in path {
      var i := LastIndex(path, '/');
      assert path == path[..i] + "/" + path[i + 1..];
    }
  }

  lemma NoSlashInNumber(i: int)
    ensures '/' !in IntToString(i)
  {
    var s := IntToString(i);
    forall k | 0 <= k < |s|
      ensures s[k] != '/'
    {
      if k == 0 && i < 0 {
        assert s[0] == '-';
      }
    }
  }

  /** Two strings that each run up to a first separator agree on both sides of it. */
  lemma SplitAtFirst(x1: string, y1: string, x2: string, y2: string, c: char)
    requires c !in x1 && c !in x2
    requires x1 + [c] + y1 == x2 + [c] + y2
    ensures x1 == x2 && y1 == y2
  {
    var s := x1 + [c] + y1;
    assert s[..|x1|] == x1 && s[|x1|] == c;
    assert s[..|x2|] == x2 && s[|x2|] == c;
    assert IndexOf(s, c) == |x1| == |x2|;
    assert x1 == s[..|x1|] && x2 == s[..|x2|];
    assert y1 == s[|x1| + 1..] && y2 == s[|x2| + 1..];
  }

  /** Everything before a last separator is the directory. */
  lemma DirNameOfJoin(dir: string, base: string)
    requires '/' !in base
    ensures DirName(dir + "/" + base) == dir
  {
    var path := dir + "/" + base;
    assert path[|dir|] == '/';
    assert path[|dir| + 1..] == base;
    assert path[..|dir|] == dir;
  }

  lemma NoSlashInStem(volumeNo: int, pageNo: int, t: PageType)
    ensures '/' !in FileStem(volumeNo, pageNo, t)
  {
    NoSlashInNumber(volumeNo);
    NoSlashInNumber(pageNo);
  }

  lemma NoSlashInBase(volumeNo: int, pageNo: int, t: PageType, filename: string)
    ensures '/' !in FileStem(volumeNo, pageNo, t) + Suffix(filename)
  {
    NoSlashInStem(volumeNo, pageNo, t);
  }

  /** The directory part of a page's storage path is its page directory. */
  lemma DirNameOfMediaPath(volumeNo: int, pageNo: int, t: PageType, filename: string)
    ensures DirName(MediaPath(volumeNo, pageNo, t, filename)) == PageDirectory(volumeNo, pageNo)
  {
    var dir := PageDirectory(volumeNo, pageNo);
    var base := FileStem(volumeNo, pageNo, t) + Suffix(filename);
    var path := MediaPath(volumeNo, pageNo, t, filename);
    Associate(dir, "/", FileStem(volumeNo, pageNo, t), Suffix(filename));
    assert path == dir + "/" + base;
    NoSlashInBase(volumeNo, pageNo, t, filename);
    DirNameOfJoin(dir, base);
    assert DirName(path) == dir;
  }

  /** Two strings that share a prefix and then run up to a first separator agree on both sides of it. */
  lemma SplitAfterPrefix(pre: string, x1: string, y1: string, x2: string, y2: string, c: char)
    requires c !in x1 && c !in x2
    requires pre + (x1 + [c] + y1) == pre + (x2 + [c] + y2)
    ensures x1 == x2 && y1 == y2
  {
    var s1 := pre + (x1 + [c] + y1);
    var s2 := pre + (x2 + [c] + y2);
    assert s1[|pre|..] == x1 + [c] + y1;
    assert s2[|pre|..] == x2 + [c] + y2;
    SplitAtFirst(x1, y1, x2, y2, c);
  }

  lemma Associate(a: string, b: string, c: string, d: string)
    ensures a + b + c + d == a + b + (c + d)
  {
  }

  lemma Regroup(w: string, a: string, s: string, g: string, q: string, b: string)
    ensures w + a + s + g + q + s + b == w + (a + s + (g + (q + s + b)))
  {
  }

  /** What follows the volume directory in a storage path. */
  lemma PathAfterVolume(v: int, p: int, t: PageType, f: string)
    ensures MediaPath(v, p, t, f)
         == "volume_" + (IntToString(v) + "/" + ("page_" + (IntToString(p) + "/" + (FileStem(v, p, t) + Suffix(f)))))
  {
    Regroup("volume_", IntToString(v), "/", "page_", IntToString(p), FileStem(v, p, t) + Suffix(f));
  }

  lemma StemAfterPage(v: int, p: int, t: PageType, f: string)
    ensures FileStem(v, p, t) + Suffix(f)
         == ("volume_" + IntToString(v) + "_page_" + IntToString(p) + "_") + (TypeSlug(t) + Suffix(f))
  {
  }

  /** Different pages, types or suffixes are stored at different paths. */
  lemma MediaPathInjective(v1: int, p1: int, t1: PageType, f1: string, v2: int, p2: int, t2: PageType, f2: string)
    requires MediaPath(v1, p1, t1, f1) == MediaPath(v2, p2, t2, f2)
    ensures v1 == v2 && p1 == p2 && t1 == t2 && Suffix(f1) == Suffix(f2)
  {
    var base1 := FileStem(v1, p1, t1) + Suffix(f1);
    var base2 := FileStem(v2, p2, t2) + Suffix(f2);
    var rest1 := "page_" + (IntToString(p1) + "/" + base1);
    var rest2 := "page_" + (IntToString(p2) + "/" + base2);
    PathAfterVolume(v1, p1, t1, f1);
    PathAfterVolume(v2, p2, t2, f2);
    NoSlashInNumber(v1);
    NoSlashInNumber(v2);
    SplitAfterPrefix("volume_", IntToString(v1), rest1, IntToString(v2), rest2, '/');
    IntToStringInjective(v1, v2);
    NoSlashInNumber(p1);
    NoSlashInNumber(p2);
    SplitAfterPrefix("page_", IntToString(p1), base1, IntToString(p2), base2, '/');
    IntToStringInjective(p1, p2);
    var common := "volume_" + IntToString(v1) + "_page_" + IntToString(p1) + "_";
    var tail1 := TypeSlug(t1) + Suffix(f1);
    var tail2 := TypeSlug(t2) + Suffix(f2);
    StemAfterPage(v1, p1, t1, f1);
    StemAfterPage(v2, p2, t2, f2);
    assert common + tail1 == common + tail2;
    assert tail1 == (common + tail1)[|common|..];
    assert tail1 == tail2;
    assert tail1[0] == TypeSlug(t1)[0] && tail2[0] == TypeSlug(t2)[0];
    assert t1 == t2;
    assert Suffix(f1) == tail1[|TypeSlug(t1)|..];
  }

  // ---------------------------------------------------------------------------
  // Where the stored files are, and the delete handler.

  /** The slot a row's own file lives in: the typed slot of a typed row, the scanned slot otherwise. */
  function OwnSlot(p: Page): Option<string>
  {
    if p.pageType == Typed then p.typedText else p.scannedText
  }

  /** The stored name of a row's own file; a blank slot has the empty name. */
  function OwnFileName(p: Page): string
  {
    match OwnSlot(p)
    case Some(name) => name
    case None => ""
  }

  /**
   A row's own file sits where `media_directory_path` puts it: in its page
   directory, under a name that starts with its stem.
   */
  predicate FileInPlace(p: Page)
  {
    OwnSlot(p).Some?
    && DirName(OwnFileName(p)) == PageDirectory(p.volumeNo, p.pageNo)
    && FileStem(p.volumeNo, p.pageNo, p.pageType) <= FinalComponent(OwnFileName(p))
  }

  /** Everything after a last separator is the final component. */
  lemma FinalComponentOfJoin(dir: string, base: string)
    requires '/' !in base
    ensures FinalComponent(dir + "/" + base) == base
  {
    var path := dir + "/" + base;
    assert path[|dir|] == '/';
    assert path[|dir| + 1..] == base;
  }

  /** A file stored by `media_directory_path` is in place for the row it was stored for. */
  lemma MediaPathInPlace(volumeNo: int, pageNo: int, t: PageType, filename: string)
    ensures DirName(MediaPath(volumeNo, pageNo, t, filename)) == PageDirectory(volumeNo, pageNo)
    ensures FinalComponent(MediaPath(volumeNo, pageNo, t, filename)) == FileStem(volumeNo, pageNo, t) + Suffix(filename)
  {
    var dir := PageDirectory(volumeNo, pageNo);
    var base := FileStem(volumeNo, pageNo, t) + Suffix(filename);
    var path := MediaPath(volumeNo, pageNo, t, filename);
    Associate(dir, "/", FileStem(volumeNo, pageNo, t), Suffix(filename));
    assert path == dir + "/" + base;
    NoSlashInBase(volumeNo, pageNo, t, filename);
    DirNameOfMediaPath(volumeNo, pageNo, t, filename);
    FinalComponentOfJoin(dir, base);
    assert FinalComponent(path) == base;
  }

  /** A name starts with the stem of at most one type of a page. */
  lemma StemsExclusive(volumeNo: int, pageNo: int, a: PageType, b: PageType, name: string)
    requires FileStem(volumeNo, pageNo, a) <= name && FileStem(volumeNo, pageNo, b) <= name
    ensures a == b
  {
    var common := "volume_" + IntToString(volumeNo) + "_page_" + IntToString(pageNo) + "_";
    assert FileStem(volumeNo, pageNo, a) == common + TypeSlug(a);
    assert FileStem(volumeNo, pageNo, b) == common + TypeSlug(b);
    assert name[|common|] == TypeSlug(a)[0] == TypeSlug(b)[0];
  }

  /** Different page directories belong to different (volume, page) pairs. */
  lemma PageDirectoryInjective(v1: int, p1: int, v2: int, p2: int)
    requires PageDirectory(v1, p1) == PageDirectory(v2, p2)
    ensures v1 == v2 && p1 == p2
  {
    var d1, d2 := IntToString(v1), IntToString(v2);
    var q1, q2 := IntToString(p1), IntToString(p2);
    Nest("volume_", d1, "/", "page_", q1);
    Nest("volume_", d2, "/", "page_", q2);
    NoSlashInNumber(v1);
    NoSlashInNumber(v2);
    SplitAfterPrefix("volume_", d1, "page_" + q1, d2, "page_" + q2, '/');
    IntToStringInjective(v1, v2);
    DropPrefix("page_", q1);
    DropPrefix("page_", q2);
    IntToStringInjective(p1, p2);
  }

  lemma Nest(a: string, b: string, c: string, d: string, e: string)
    ensures a + b + c + d + e == a + (b + c + (d + e))
  {
  }

  lemma DropPrefix(pre: string, rest: string)
    ensures (pre + rest)[|pre|..] == rest
  {
  }

  /**
   The `pre_delete` handler as written: it lists the directory of the deleted
   row's own file and removes every file in it.
   */
  function DeleteFilesAsWritten(files: set<string>, p: Page): (r: set<string>)
    ensures r <= files
    ensures forall f :: f in files && DirName(f) != DirName(OwnFileName(p)) ==> f in r
    ensures forall f :: f in r ==> DirName(f) != DirName(OwnFileName(p))
  {
    set f | f in files && DirName(f) != DirName(OwnFileName(p))
  }

  /**
   The handler as evidently intended: in the same directory it removes only the
   files named after the deleted row's own type, so the file of the other
   representation of the same page survives.
   */
  function DeleteFiles(files: set<string>, p: Page): (r: set<string>)
    ensures r <= files
    ensures forall f :: f in files && DirName(f) != DirName(OwnFileName(p)) ==> f in r
    ensures forall f :: f in r && DirName(f) == DirName(OwnFileName(p)) ==>
      !(FileStem(p.volumeNo, p.pageNo, p.pageType) <= FinalComponent(f))
  {
    set f | f in files
      && !(DirName(f) == DirName(OwnFileName(p))
           && FileStem(p.volumeNo, p.pageNo, p.pageType) <= FinalComponent(f))
  }

  /** The corrected handler removes the deleted row's own file. */
  lemma DeleteFilesRemovesOwnFile(files: set<string>, p: Page)
    requires FileInPlace(p)
    ensures OwnFileName(p) !in DeleteFiles(files, p)
  {
  }

  /** The corrected handler removes a subset of what the handler as written removes. */
  lemma DeleteFilesRemovesLess(files: set<string>, p: Page)
    ensures DeleteFilesAsWritten(files, p) <= DeleteFiles(files, p)
  {
  }

  /**
   Deleting a typed row with the handler as written also deletes the scanned
   file of the same page, whenever both are stored.
   */
  lemma DeleteAsWrittenRemovesSibling(files: set<string>, p: Page, sibling: Page)
    requires FileInPlace(p) && FileInPlace(sibling)
    requires SameLocation(p, sibling) && sibling.pageType != p.pageType
    requires OwnFileName(sibling) in files
    ensures OwnFileName(sibling) !in DeleteFilesAsWritten(files, p)
  {
  }

  /** The corrected handler keeps the file of every other row whose file is in place. */
  lemma DeleteFilesKeepsOtherRows(files: set<string>, p: Page, q: Page)
    requires FileInPlace(p) && FileInPlace(q)
    requires KeyOf(q) != KeyOf(p)
    requires OwnFileName(q) in files
    ensures OwnFileName(q) in DeleteFiles(files, p)
  {
    var name := FinalComponent(OwnFileName(q));
    if DirName(OwnFileName(q)) == DirName(OwnFileName(p)) {
      PageDirectoryInjective(q.volumeNo, q.pageNo, p.volumeNo, p.pageNo);
      assert !(FileStem(p.volumeNo, p.pageNo, p.pageType) <= name) by {
        if FileStem(p.volumeNo, p.pageNo, p.pageType) <= name {
          StemsExclusive(p.volumeNo, p.pageNo, p.pageType, q.pageType, name);
        }
      }
    }
  }
}

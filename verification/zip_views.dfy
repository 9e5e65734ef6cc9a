/** The views the server computes from an archive's `namelist()`: the set of
    top-level folders, the files directly inside one folder, and the exact
    lookup of one entry. */
module ZipViews {

  import opened Options
  import opened PosixPath

  predicate NoDuplicates<T(==)>(s: seq<T>) {
    forall i, j :: 0 <= i < j < |s| ==> s[i] != s[j]
  }

  /** A zip directory entry: its name ends with `/`. */
  predicate IsDirEntry(n: string) {
    EndsWithSep(n)
  }

  /** `n.split('/')[0]`: everything before the first separator. */
  function FirstSegment(n: string): (r: string)
    ensures |r| <= |n| && r == n[..|r|]
    ensures Sep !in r
    ensures |r| < |n| ==> n[|r|] == Sep
  {
    if n == [] || n[0] == Sep then [] else [n[0]] + FirstSegment(n[1..])
  }

  /** The first segments of the directory entries, in `namelist()` order,
      repeats included. */
  function DirSegments(names: seq<string>): (r: seq<string>)
    ensures forall x :: x in r <==>
              exists i :: 0 <= i < |names| && IsDirEntry(names[i]) && FirstSegment(names[i]) == x
  {
    if names == [] then []
    else
      var rest := DirSegments(names[1..]);
      assert forall i :: 0 < i < |names| ==> names[i] == names[1..][i - 1];
      if IsDirEntry(names[0]) then [FirstSegment(names[0])] + rest else rest
  }

  /** Keeps the first occurrence of each element. */
  function Dedup<T(==, !new)>(s: seq<T>): (r: seq<T>)
    ensures NoDuplicates(r)
    ensures forall x :: x in r <==> x in s
  {
    if s == [] then []
    else
      var t := Dedup(s[..|s| - 1]);
      var last := s[|s| - 1];
      assert s == s[..|s| - 1] + [last];
      if last in t then t else t + [last]
  }

  /** The `Directories` of `list_zip_files`: the distinct first segments of
      the entries whose name ends with `/`. Python builds them as a `set`,
      whose iteration order is arbitrary; the model fixes the order of first
      appearance and promises only the set and the absence of repeats. */
  function TopDirs(names: seq<string>): (r: seq<string>)
    ensures NoDuplicates(r)
    ensures forall x :: x in r <==>
              exists i :: 0 <= i < |names| && IsDirEntry(names[i]) && FirstSegment(names[i]) == x
    ensures r == [] <==> forall i :: 0 <= i < |names| ==> !IsDirEntry(names[i])
  {
    var r := Dedup(DirSegments(names));
    assert (exists i :: 0 <= i < |names| && IsDirEntry(names[i])) ==> r != [] by {
      if exists i :: 0 <= i < |names| && IsDirEntry(names[i]) {
        var i :| 0 <= i < |names| && IsDirEntry(names[i]);
        assert FirstSegment(names[i]) in r;
      }
    }
    assert r != [] ==> r[0] in r;
    r
  }

  /** The entry `n` lies directly in folder `path` of the archive and names a
      file there: the head of `os.path.split(n)` is `path` and its tail is
      not empty. */
  predicate InFolder(n: string, path: string) {
    Split(n).1 != "" && Split(n).0 == path
  }

  /** The folder listing: the basenames of the entries directly in `path`,
      in `namelist()` order. */
  function FolderFiles(names: seq<string>, path: string): (r: seq<string>)
    ensures |r| <= |names|
    ensures forall x :: x in r ==> x != "" && Sep !in x
  {
    if names == [] then []
    else
      var n := names[0];
      var rest := FolderFiles(names[1..], path);
      if InFolder(n, path) then [Split(n).1] + rest else rest
  }

  /** A name is listed exactly when it is the basename of an entry whose
      `split` head is the folder. */
  lemma {:induction false} FolderFilesMembers(names: seq<string>, path: string)
    ensures forall x :: x in FolderFiles(names, path) <==>
              exists n :: n in names && InFolder(n, path) && Split(n).1 == x
  {
    if names != [] {
      FolderFilesMembers(names[1..], path);
      FolderFilesMembersStep(names, path);
    }
  }

  /** One step of `FolderFilesMembers`: the claim for a list follows from the
      claim for its tail. */
  lemma FolderFilesMembersStep(names: seq<string>, path: string)
    requires names != []
    requires forall x :: x in FolderFiles(names[1..], path) <==>
               exists n :: n in names[1..] && InFolder(n, path) && Split(n).1 == x
    ensures forall x :: x in FolderFiles(names, path) <==>
              exists n :: n in names && InFolder(n, path) && Split(n).1 == x
  {
    var rest := names[1..];
    forall x
      ensures x in FolderFiles(names, path) <==>
              exists n :: n in names && InFolder(n, path) && Split(n).1 == x
    {
      if x in FolderFiles(names, path) {
        if x in FolderFiles(rest, path) {
          var n :| n in rest && InFolder(n, path) && Split(n).1 == x;
          assert n in names;
        } else {
          assert names[0] in names;
        }
      }
      if exists n :: n in names && InFolder(n, path) && Split(n).1 == x {
        var n :| n in names && InFolder(n, path) && Split(n).1 == x;
        if n != names[0] {
          assert n in rest;
        }
      }
    }
  }

  /** The listing keeps `namelist()` order: listing the concatenation of two
      name lists is listing each and concatenating. */
  lemma {:induction false} FolderFilesAppend(a: seq<string>, b: seq<string>, path: string)
    ensures FolderFiles(a + b, path) == FolderFiles(a, path) + FolderFiles(b, path)
  {
    if a == [] {
      assert a + b == b;
    } else {
      assert (a + b)[0] == a[0];
      assert (a + b)[1..] == a[1..] + b;
      FolderFilesAppend(a[1..], b, path);
    }
  }

  /** The top-level listing holds exactly the entry names that are one
      non-empty component. */
  lemma TopFolderFiles(names: seq<string>, x: string)
    ensures x in FolderFiles(names, "") <==> x in names && x != "" && Sep !in x
  {
    FolderFilesMembers(names, "");
    if x in names && x != "" && Sep !in x {
      SplitBare(x);
    }
  }

  /** The listing of a folder `folder` (non-empty, no trailing separator)
      holds exactly the names `x` of one non-empty component such that
      `folder/x` is an entry, provided no entry name has a doubled
      separator. */
  lemma InnerFolderFiles(names: seq<string>, folder: string, x: string)
    requires folder != "" && !EndsWithSep(folder)
    requires forall n :: n in names ==> NoDoubleSep(n)
    ensures x in FolderFiles(names, folder) <==> folder + [Sep] + x in names && x != "" && Sep !in x
  {
    FolderFilesMembers(names, folder);
    if x in FolderFiles(names, folder) {
      var n :| n in names && InFolder(n, folder) && Split(n).1 == x;
      assert !AllSep(folder) by {
        assert folder[|folder| - 1] != Sep;
      }
      SplitInverse(n);
    }
    if folder + [Sep] + x in names && x != "" && Sep !in x {
      SplitJoined(folder, x);
    }
  }

  /** The scan in the entry-fetching handlers: the index of the first entry
      whose name equals `key` exactly, or `None`. */
  function FirstMatch(names: seq<string>, key: string): (r: Option<nat>)
    ensures r.None? <==> key !in names
    ensures r.Some? ==> r.value < |names| && names[r.value] == key
    ensures r.Some? ==> forall j :: 0 <= j < r.value ==> names[j] != key
  {
    if names == [] then None
    else if names[0] == key then Some(0)
    else
      match FirstMatch(names[1..], key)
      case None => None
      case Some(i) => Some(i + 1)
  }

}

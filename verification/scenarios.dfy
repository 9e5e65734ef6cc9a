/** Consequences of the handlers for typical request shapes: paths that
    leave the root, archives with and without folder entries, and the
    placement of typical names in a folder listing. */
module Scenarios {

  import opened Options
  import opened PosixPath
  import opened Percent
  import opened Extensions
  import opened FileSystem
  import opened ZipViews
  import opened Server
  import opened Folders

  /** The path parameter is decoded once only: a doubly escaped `%25XY` names
      the file whose name holds the escape `%XY`, not the character `XY`. */
  lemma ClientPathDecodedOnce(base: string, x: char, y: char)
    requires IsHex(x) && IsHex(y)
    ensures GetRealPath(base, ['%', '2', '5', x, y]) == Join(base, ['%', x, y])
  {
    DecodingTwiceDiffers(x, y);
  }

  /** An archive without folder entries lists its top-level files, all of
      them and in order: an entry inside a folder is not listed, and no name
      is filtered by its extension (every entry is taken to decode as an
      image, as the README's "Left out" section records). */
  lemma {:induction false} ArchiveWithoutFolders(fs: Fs, p: string, a: string, b: string, folder: string, c: string)
    requires a != "" && b != "" && c != "" && Sep !in a && Sep !in b && Sep !in c
    requires folder != "" && !EndsWithSep(folder)
    requires OpenZip(fs, p) == Some([a, b, folder + [Sep] + c])
    ensures ListZipFiles(fs, p) == Listing(Comix([], [a, b]))
  {
    var n := folder + [Sep] + c;
    var names := [a, b, n];
    TopLevelOfThree(a, b, folder, c);
    assert n[|n| - 1] == c[|c| - 1];
    assert !IsDirEntry(a) && !IsDirEntry(b) && !IsDirEntry(n);
    assert forall i :: 0 <= i < |names| ==> !IsDirEntry(names[i]);
    assert FilesInZipPath(names, "") == Listing(Comix([], [a, b]));
  }

  lemma {:induction false} TopLevelOfThree(a: string, b: string, folder: string, c: string)
    requires a != "" && b != "" && c != "" && Sep !in a && Sep !in b && Sep !in c
    requires folder != "" && !EndsWithSep(folder)
    ensures FolderFiles([a, b, folder + [Sep] + c], "") == [a, b]
  {
    var n := folder + [Sep] + c;
    assert FolderFiles([a, b], "") == [a, b] by {
      TopEntryListed(a);
      TopEntryListed(b);
      FolderFilesAppend([a], [b], "");
      assert [a] + [b] == [a, b];
    }
    NestedEntryNotListed(folder, c);
    FolderFilesAppend([a, b], [n], "");
    assert [a, b] + [n] == [a, b, n];
    assert [a, b] + [] == [a, b];
  }

  /** A one-component entry is listed at the top level under its own name. */
  lemma TopEntryListed(x: string)
    requires x != "" && Sep !in x
    ensures FolderFiles([x], "") == [x]
  {
    SplitBare(x);
    assert [x][1..] == [];
  }

  /** An entry inside a folder is not listed at the top level. */
  lemma NestedEntryNotListed(folder: string, c: string)
    requires folder != "" && !EndsWithSep(folder) && c != "" && Sep !in c
    ensures FolderFiles([folder + [Sep] + c], "") == []
  {
    SplitJoined(folder, c);
    assert [folder + [Sep] + c][1..] == [];
  }

  /** An archive with folder entries lists only its top-level folders, each
      once, however many entries lie in them. */
  lemma {:induction false} ArchiveWithFolder(fs: Fs, p: string, d: string, f: string)
    requires d != "" && Sep !in d
    requires OpenZip(fs, p) == Some([d + [Sep], d + [Sep] + f, d + [Sep] + f + [Sep]])
    ensures ListZipFiles(fs, p) == Listing(Comix([d], []))
  {
    var names := OpenZip(fs, p).value;
    forall i | 0 <= i < |names|
      ensures FirstSegment(names[i]) == d
    {
      if i == 0 {
        assert names[0] == d + [Sep] + "";
        FirstSegmentOf(d, "");
      } else if i == 1 {
        FirstSegmentOf(d, f);
      } else {
        assert names[2] == d + [Sep] + (f + [Sep]);
        FirstSegmentOf(d, f + [Sep]);
      }
    }
    assert IsDirEntry(names[0]);
    var dirs := ListZipFiles(fs, p).data.directories;
    assert d in dirs;
    assert forall x :: x in dirs ==> x == d;
    SingleValue(dirs, d);
  }

  /** The first segment of `d/rest` is `d`. */
  lemma {:induction false} FirstSegmentOf(d: string, rest: string)
    requires Sep !in d
    ensures FirstSegment(d + [Sep] + rest) == d
  {
    if d != [] {
      assert (d + [Sep] + rest)[1..] == d[1..] + [Sep] + rest;
      FirstSegmentOf(d[1..], rest);
    }
  }

  /** A repeat-free sequence holding one value and nothing else is that
      value alone. */
  lemma SingleValue(s: seq<string>, x: string)
    requires NoDuplicates(s) && x in s
    requires forall z :: z in s ==> z == x
    ensures s == [x]
  {
    assert (set z | z in s) == {x};
    NoDuplicatesCard(s);
  }

  lemma {:induction false} NoDuplicatesCard(s: seq<string>)
    requires NoDuplicates(s)
    ensures |set z | z in s| == |s|
  {
    if s != [] {
      var t := s[..|s| - 1];
      assert NoDuplicates(t);
      NoDuplicatesCard(t);
      assert s == t + [s[|s| - 1]];
      assert (set z | z in s) == (set z | z in t) + {s[|s| - 1]};
      assert s[|s| - 1] !in t;
    }
  }

  /** Any name whose extension is not an archive extension is shown as a
      file, whatever the extension means: `readme.md` as much as
      `cover.png`. */
  lemma {:induction false} NonArchiveNamesAreFiles(fs: Fs, dir: string, stem: string, e: string)
    requires e !in ArchiveExts && ExtSep !in e && Sep !in e
    requires Sep !in stem && (exists k :: 0 <= k < |stem| && stem[k] != ExtSep)
    requires !IsDir(fs, Join(dir, stem + [ExtSep] + e))
    ensures Place(fs, dir, stem + [ExtSep] + e) == ToFiles
  {
    var name := stem + [ExtSep] + e;
    assert "" + stem + [ExtSep] + e == name;
    GetExtOfStemDotExt("", stem, e);
    assert GetExt(name) == e;
    assert GetExt(name) !in ArchiveExts;
  }

  /** Extension matching is case-sensitive: a non-directory `NAME.ZIP` is
      shown as a file rather than as a folder, and a `NAME.CBZ`, `NAME.RAR`
      or `NAME.CBR` is shown rather than dropped. */
  lemma {:induction false} UpperCaseArchiveNamesAreFiles(fs: Fs, dir: string, stem: string, e: string)
    requires e == "ZIP" || e == "CBZ" || e == "RAR" || e == "CBR"
    requires Sep !in stem && (exists k :: 0 <= k < |stem| && stem[k] != ExtSep)
    requires !IsDir(fs, Join(dir, stem + [ExtSep] + e))
    ensures Place(fs, dir, stem + [ExtSep] + e) == ToFiles
  {
    NonArchiveNamesAreFiles(fs, dir, stem, e);
  }

  /** A name made only of a dot and an archive extension has no extension
      at all, so `.zip` is shown as a file. */
  lemma HiddenNameHasNoExtension(fs: Fs, dir: string)
    requires !IsDir(fs, Join(dir, ".zip"))
    ensures Place(fs, dir, ".zip") == ToFiles
  {
    assert GetExt(".zip") == "" by {
      RFindIs(".zip", Sep, -1);
      RFindIs(".zip", ExtSep, 0);
    }
  }

  /** The contents folder, requested by its own name, lists every child as
      a directory, archives of every kind included. */
  lemma ContentsFolderUnfiltered(cfg: Config, fs: Fs)
    requires '%' !in cfg.contents && !StartsWithSep(cfg.contents)
    requires IsDir(fs, Join(cfg.root, cfg.contents))
    ensures LoadFolders(cfg, fs, cfg.contents)
            == Listing(Comix(fs[Join(cfg.root, cfg.contents)].children, []))
  {
  }

}

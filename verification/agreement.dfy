/** Listing and fetching agree: a file the server lists inside an archive
    is served when the handler's route parameters are the segments it was
    listed under, each percent-encoded. The parameters are taken as the
    handler receives them, after the web framework's own routing. */
module Agreement {

  import opened Options
  import opened PosixPath
  import opened Percent
  import opened Extensions
  import opened FileSystem
  import opened ZipViews
  import opened Server

  /** Decoding a route rebuilt from encoded segments gives the route built
      from the plain segments. */
  lemma {:induction false} QuotedSegmentsDecode(stem: string, ext: string)
    requires Octets(stem) && Octets(ext)
    ensures Unquote(Quote(stem) + [ExtSep] + Quote(ext)) == stem + [ExtSep] + ext
  {
    UnquoteQuotePrefix(stem, [ExtSep] + Quote(ext));
    UnquoteQuote(ext);
    DecodeDotted(Quote(stem), Quote(ext), stem, ext);
  }

  /** The sequence step of `QuotedSegmentsDecode`, for any two encoded
      segments that decode as their plain counterparts. */
  lemma DecodeDotted(qs: string, qe: string, stem: string, ext: string)
    requires Unquote(qs + ([ExtSep] + qe)) == stem + Unquote([ExtSep] + qe)
    requires Unquote(qe) == ext
    ensures Unquote(qs + [ExtSep] + qe) == stem + [ExtSep] + ext
  {
    Assoc(qs, [ExtSep], qe);
    UnquotePlain(ExtSep, qe);
    Assoc(stem, [ExtSep], ext);
  }

  /** How the `"%s/%s.%s"` route path associates. */
  lemma RoutePathParts(dir: string, stem: string, ext: string)
    ensures RoutePath(dir, stem, ext) == dir + ([Sep] + (stem + [ExtSep] + ext))
    ensures RoutePath(dir, stem, ext) == dir + [Sep] + (stem + [ExtSep] + ext)
  {
  }

  lemma {:induction false} QuotedRouteDecodes(dir: string, stem: string, ext: string)
    requires Octets(dir) && Octets(stem) && Octets(ext)
    ensures Unquote(RoutePath(Quote(dir), Quote(stem), Quote(ext))) == RoutePath(dir, stem, ext)
  {
    var mid := Quote(stem) + [ExtSep] + Quote(ext);
    RoutePathParts(Quote(dir), Quote(stem), Quote(ext));
    RoutePathParts(dir, stem, ext);
    UnquoteQuotePrefix(dir, [Sep] + mid);
    UnquotePlain(Sep, mid);
    QuotedSegmentsDecode(stem, ext);
  }

  /** `get_real_path` decodes exactly once: an encoded client path resolves
      to the plain path joined under the base, `..` segments and a leading
      separator included. */
  lemma GetRealPathOfQuoted(base: string, p: string)
    requires Octets(p)
    ensures GetRealPath(base, Quote(p)) == Join(base, p)
    ensures StartsWithSep(p) ==> GetRealPath(base, Quote(p)) == p
  {
    UnquoteQuote(p);
  }

  /** Encoding is injective, so an encoded extension is `thm` only when the
      extension itself is. */
  lemma QuoteNotThm(ext: string)
    requires Octets(ext) && ext != "thm"
    ensures Quote(ext) != "thm"
  {
    UnquoteQuote(ext);
    assert Octets("thm");
    UnquoteQuote("thm");
    assert Quote("thm") == "thm" by {
      assert "thm"[1..] == "hm" && "hm"[1..] == "m" && "m"[1..] == "";
    }
  }

  /** A top-level entry of an archive, a single component `stem.ext`, is
      served by `load_file_in_archive2` under its own name when requested by
      its encoded stem and extension. By `ZipViews.TopFolderFiles` these
      entries are exactly the files the top-level listing shows. */
  lemma {:induction false} TopLevelEntryIsFetched(cfg: Config, fs: Fs, reqPath: string,
                                                        archive: string, archiveExt: string,
                                                        names: seq<string>, stem: string, ext: string)
    requires archiveExt in ArchiveExts && ext != "thm"
    requires Octets(stem) && Octets(ext) && Sep !in stem && Sep !in ext
    requires OpenZip(fs, RealRoutePath(cfg, reqPath, archive, archiveExt)) == Some(names)
    requires stem + [ExtSep] + ext in names
    ensures LoadFileInArchive2(cfg, fs, reqPath, archive, archiveExt, Quote(stem), Quote(ext))
              == SendEntry(RealRoutePath(cfg, reqPath, archive, archiveExt),
                           stem + [ExtSep] + ext, stem + [ExtSep] + ext)
  {
    var x := stem + [ExtSep] + ext;
    QuotedSegmentsDecode(stem, ext);
    QuoteNotThm(ext);
    OneComponent(stem, ext);
    SplitBare(x);
  }

  /** An entry `folder/stem.ext` of an archive is served by
      `load_file_in_archive` under the name `stem.ext` when requested by its
      encoded segments. By `ZipViews.InnerFolderFiles` these are exactly the
      files the listing of `folder` shows, for a proper folder and entry
      names without doubled separators (for such an entry `os.path.split`
      hides the extra separator, and the rebuilt name no longer matches, as
      `DoubledSeparatorMismatch` shows). */
  lemma {:induction false} FolderEntryIsFetched(cfg: Config, fs: Fs, reqPath: string,
                                                      archive: string, archiveExt: string,
                                                      names: seq<string>, folder: string,
                                                      stem: string, ext: string)
    requires archiveExt in ArchiveExts && ext != "thm"
    requires Octets(folder) && Octets(stem) && Octets(ext) && Sep !in stem && Sep !in ext
    requires OpenZip(fs, RealRoutePath(cfg, reqPath, archive, archiveExt)) == Some(names)
    requires RoutePath(folder, stem, ext) in names
    ensures LoadFileInArchive(cfg, fs, reqPath, archive, archiveExt, Quote(folder), Quote(stem), Quote(ext))
              == SendEntry(RealRoutePath(cfg, reqPath, archive, archiveExt),
                           RoutePath(folder, stem, ext), stem + [ExtSep] + ext)
  {
    var x := stem + [ExtSep] + ext;
    RoutePathParts(folder, stem, ext);
    QuotedRouteDecodes(folder, stem, ext);
    QuoteNotThm(ext);
    OneComponent(stem, ext);
    BasenameAfterSep(folder, x);
  }

  /** `stem.ext` is one path component when `stem` and `ext` are. */
  lemma OneComponent(stem: string, ext: string)
    requires Sep !in stem && Sep !in ext
    ensures Sep !in stem + [ExtSep] + ext
  {
  }

  /** Encoding a whole `"%s/%s.%s"` route is encoding each of its segments:
      `/` and `.` are left alone, so a client may encode the segments one by
      one, as the fetch lemmas above assume. */
  lemma QuoteRoutePath(dir: string, stem: string, ext: string)
    requires Octets(dir) && Octets(stem) && Octets(ext)
    ensures Octets(RoutePath(dir, stem, ext))
    ensures Quote(RoutePath(dir, stem, ext)) == RoutePath(Quote(dir), Quote(stem), Quote(ext))
  {
    assert Octets([Sep]) && Octets([ExtSep]);
    assert Quote([Sep]) == [Sep] by {
      assert [Sep][1..] == [];
    }
    assert Quote([ExtSep]) == [ExtSep] by {
      assert [ExtSep][1..] == [];
    }
    QuoteAppend(dir, [Sep]);
    QuoteAppend(dir + [Sep], stem);
    QuoteAppend(dir + [Sep] + stem, [ExtSep]);
    QuoteAppend(dir + [Sep] + stem + [ExtSep], ext);
  }

  /** Listing and fetching disagree on an entry `d//b` with a doubled
      separator: the listing of folder `d` shows `b`, but the route rebuilt
      from `d` and `b` is `d/b`, which names no entry, so the fetch gives no
      content. */
  lemma {:induction false} DoubledSeparatorMismatch(fs: Fs, arch: string, archiveExt: string,
                                                    ext: string, d: string, b: string)
    requires d != "" && Sep !in d && b != "" && Sep !in b
    requires archiveExt in ArchiveExts && ext != "thm"
    requires OpenZip(fs, arch) == Some([d + [Sep, Sep] + b])
    ensures FolderFiles([d + [Sep, Sep] + b], d) == [b]
    ensures FetchEntry(fs, arch, archiveExt, ext, d + [Sep] + b) == NoContent
  {
    var n := d + [Sep, Sep] + b;
    var i := |d| + 2;
    forall k | |d| + 1 < k < |n| ensures n[k] != Sep {
      assert n[k] == b[k - i];
    }
    RFindIs(n, Sep, |d| + 1);
    var head := n[..i];
    assert head == d + [Sep, Sep];
    assert head[|d| - 1] == d[|d| - 1];
    assert !AllSep(head);
    assert head[..|head| - 1] == d + [Sep];
    assert (d + [Sep])[..|d|] == d;
    assert RStripSep(head) == d;
    assert n[i..] == b;
    assert Split(n) == (d, b);
    assert [n][1..] == [];
    assert d + [Sep] + b != n by {
      assert |d + [Sep] + b| < |n|;
    }
  }

}

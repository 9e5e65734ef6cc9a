/** The request handlers, each a total function from the server
    configuration, the filesystem and the route parameters to a response.
    Routing, authentication and JSON serialisation stay outside. */
module Server {

  import opened Options
  import opened PosixPath
  import opened Percent
  import opened Extensions
  import opened FileSystem
  import opened ZipViews

  /** The two configuration values the handlers read: the served root
      directory and the name of the contents folder inside it. */
  datatype Config = Config(root: string, contents: string)

  /** The `ComixData` payload of a listing. */
  datatype Comix = Comix(directories: seq<string>, files: seq<string>)

  datatype Response =
    | NoContent                       // the empty body with status 204
    | Listing(data: Comix)            // a JSON `ComixData` body
    | SendFile(path: string)          // the file at `path` sent as it is
    | SendEntry(archive: string, entry: string, attachmentName: string)
                                      // one archive entry sent as an attachment
    | Fault                           // an unhandled exception: status 500

  /** `get_real_path`: the client path, percent-decoded once, joined under
      `base`. No containment check is made. */
  function GetRealPath(base: string, clientPath: string): (r: string)
    ensures StartsWithSep(Unquote(clientPath)) ==> r == Unquote(clientPath)
  {
    Join(base, Unquote(clientPath))
  }

  /** A client path whose decoded form is relative resolves under `base`,
      and one whose decoded form is absolute replaces `base` altogether:
      `..` segments and absolute paths pass through unchecked. */
  lemma GetRealPathUnderBase(base: string, clientPath: string)
    ensures var d := Unquote(clientPath);
            !StartsWithSep(d) ==>
              && |base| + |d| <= |GetRealPath(base, clientPath)|
              && GetRealPath(base, clientPath)[..|base|] == base
              && GetRealPath(base, clientPath)[|GetRealPath(base, clientPath)| - |d|..] == d
    ensures var d := Unquote(clientPath);
            StartsWithSep(d) ==> GetRealPath(base, clientPath) == d
  {
    var d := Unquote(clientPath);
    if !StartsWithSep(d) {
      JoinRelative(base, d);
    }
  }

  /** The `"%s/%s.%s"` path the file routes rebuild from their parameters. */
  function RoutePath(dir: string, name: string, ext: string): (r: string) {
    dir + [Sep] + name + [ExtSep] + ext
  }

  /** The real path of the archive (or file) a file route names. */
  function RealRoutePath(cfg: Config, reqPath: string, name: string, ext: string): (r: string) {
    GetRealPath(cfg.root, RoutePath(reqPath, name, ext))
  }

  /** `get_files_in_zip_path`: the files directly in folder `path` of an
      archive, or no content when there are none. */
  function FilesInZipPath(names: seq<string>, path: string): (r: Response)
    ensures r.NoContent? || r.Listing?
    ensures r.NoContent? <==> forall i :: 0 <= i < |names| ==> !InFolder(names[i], path)
    ensures r.Listing? ==> r.data.directories == [] && r.data.files == FolderFiles(names, path)
  {
    var files := FolderFiles(names, path);
    FolderFilesMembers(names, path);
    assert (exists i :: 0 <= i < |names| && InFolder(names[i], path)) ==> files != [] by {
      if exists i :: 0 <= i < |names| && InFolder(names[i], path) {
        var i :| 0 <= i < |names| && InFolder(names[i], path);
        assert names[i] in names;
        assert Split(names[i]).1 in files;
      }
    }
    assert files != [] ==> files[0] in files;
    if files == [] then NoContent else Listing(Comix([], files))
  }

  /** `list_zip_files`: the top-level folders of the archive at `p`, or,
      when it has no folder entry at all, the files at its top level. */
  function ListZipFiles(fs: Fs, p: string): (r: Response)
    ensures r.Fault? <==> OpenZip(fs, p).None?
    ensures !r.SendFile? && !r.SendEntry?
    ensures OpenZip(fs, p).Some? && (exists i :: 0 <= i < |OpenZip(fs, p).value| && IsDirEntry(OpenZip(fs, p).value[i])) ==>
              && r.Listing? && r.data.files == []
              && NoDuplicates(r.data.directories)
              && (forall x :: x in r.data.directories <==>
                    exists i :: 0 <= i < |OpenZip(fs, p).value| && IsDirEntry(OpenZip(fs, p).value[i])
                                && FirstSegment(OpenZip(fs, p).value[i]) == x)
    ensures OpenZip(fs, p).Some? && (forall i :: 0 <= i < |OpenZip(fs, p).value| ==> !IsDirEntry(OpenZip(fs, p).value[i])) ==>
              r == FilesInZipPath(OpenZip(fs, p).value, "")
  {
    match OpenZip(fs, p)
    case None => Fault
    case Some(names) =>
      var dirs := TopDirs(names);
      if dirs != [] then Listing(Comix(dirs, [])) else FilesInZipPath(names, "")
  }

  /** `load_file`: `/dir/name.ext`. The extension is checked first, then
      existence; an archive is listed, anything else is sent as a file. */
  function LoadFile(cfg: Config, fs: Fs, reqPath: string, name: string, ext: string): (r: Response)
    ensures ext !in Allows ==> r == NoContent
    ensures RealRoutePath(cfg, reqPath, name, ext) !in fs ==> r == NoContent
    ensures r.SendFile? <==>
              ext in ImageExts && ext !in ArchiveExts && RealRoutePath(cfg, reqPath, name, ext) in fs
              && !IsDir(fs, RealRoutePath(cfg, reqPath, name, ext))
    ensures r.SendFile? ==> r.path == RealRoutePath(cfg, reqPath, name, ext)
    ensures ext in ArchiveExts && RealRoutePath(cfg, reqPath, name, ext) in fs ==>
              r == ListZipFiles(fs, RealRoutePath(cfg, reqPath, name, ext))
    ensures ext in ImageExts && IsDir(fs, RealRoutePath(cfg, reqPath, name, ext)) ==> r == Fault
    ensures !r.SendEntry?
  {
    var realPath := RealRoutePath(cfg, reqPath, name, ext);
    if ext !in Allows then NoContent
    else if realPath !in fs then NoContent
    else if ext in ArchiveExts then ListZipFiles(fs, realPath)
    // `send_file` raises on a directory.
    else if IsDir(fs, realPath) then Fault
    else SendFile(realPath)
  }

  /** `load_zip_folder`: `/dir/name.ext/folder`. Existence is checked
      before the extension here; the listing holds the files directly in the
      percent-decoded folder. */
  function LoadZipFolder(cfg: Config, fs: Fs, reqPath: string, name: string, ext: string,
                         zipPath: string): (r: Response)
    ensures RealRoutePath(cfg, reqPath, name, ext) !in fs ==> r == NoContent
    ensures ext !in ArchiveExts ==> r == NoContent
    ensures r.Fault? <==>
              && RealRoutePath(cfg, reqPath, name, ext) in fs && ext in ArchiveExts
              && OpenZip(fs, RealRoutePath(cfg, reqPath, name, ext)).None?
    ensures r.Listing? ==>
              && OpenZip(fs, RealRoutePath(cfg, reqPath, name, ext)).Some?
              && r.data.directories == []
              && r.data.files == FolderFiles(OpenZip(fs, RealRoutePath(cfg, reqPath, name, ext)).value,
                                             Unquote(zipPath))
    ensures RealRoutePath(cfg, reqPath, name, ext) in fs && ext in ArchiveExts
            && OpenZip(fs, RealRoutePath(cfg, reqPath, name, ext)).Some? ==>
              r == FilesInZipPath(OpenZip(fs, RealRoutePath(cfg, reqPath, name, ext)).value, Unquote(zipPath))
    ensures !r.SendFile? && !r.SendEntry?
  {
    var realPath := RealRoutePath(cfg, reqPath, name, ext);
    var folder := Unquote(zipPath);
    if realPath !in fs then NoContent
    else if ext !in ArchiveExts then NoContent
    else
      match OpenZip(fs, realPath)
      case None => Fault
      case Some(names) => FilesInZipPath(names, folder)
  }

  /** The part the two entry-fetching handlers share: the guards, then the
      first entry named exactly `key`, sent under the basename of `key`. */
  function FetchEntry(fs: Fs, archivePath: string, archiveExt: string, ext: string,
                      key: string): (r: Response)
    ensures ext == "thm" || archiveExt !in ArchiveExts ==> r == NoContent
    ensures archivePath !in fs ==> r == NoContent
    ensures r.SendEntry? <==>
              && ext != "thm" && archiveExt in ArchiveExts
              && OpenZip(fs, archivePath).Some? && key in OpenZip(fs, archivePath).value
    ensures r.SendEntry? ==> r == SendEntry(archivePath, key, Basename(key))
    ensures r.Fault? <==>
              ext != "thm" && archiveExt in ArchiveExts && archivePath in fs && OpenZip(fs, archivePath).None?
    ensures !r.SendFile? && !r.Listing?
  {
    if ext == "thm" || archiveExt !in ArchiveExts then NoContent
    else if archivePath !in fs then NoContent
    else
      match OpenZip(fs, archivePath)
      case None => Fault
      case Some(names) =>
        match FirstMatch(names, key)
        case None => NoContent
        case Some(i) => SendEntry(archivePath, names[i], Basename(key))
  }

  /** `load_file_in_archive2`: `/dir/archive.aext/name.ext`, an entry at
      the archive's top level. */
  function LoadFileInArchive2(cfg: Config, fs: Fs, reqPath: string, archive: string,
                              archiveExt: string, name: string, ext: string): (r: Response)
    ensures ext == "thm" || archiveExt !in ArchiveExts ==> r == NoContent
    ensures r.SendEntry? ==>
              && r.archive == RealRoutePath(cfg, reqPath, archive, archiveExt)
              && r.entry == Unquote(name + [ExtSep] + ext)
              && OpenZip(fs, r.archive).Some? && r.entry in OpenZip(fs, r.archive).value
  {
    FetchEntry(fs, RealRoutePath(cfg, reqPath, archive, archiveExt), archiveExt, ext,
               Unquote(name + [ExtSep] + ext))
  }

  /** `load_file_in_archive`: `/dir/archive.aext/folder/name.ext`, an entry
      inside a folder of the archive. */
  function LoadFileInArchive(cfg: Config, fs: Fs, reqPath: string, archive: string,
                             archiveExt: string, zipPath: string, name: string,
                             ext: string): (r: Response)
    ensures ext == "thm" || archiveExt !in ArchiveExts ==> r == NoContent
    ensures r.SendEntry? ==>
              && r.archive == RealRoutePath(cfg, reqPath, archive, archiveExt)
              && r.entry == Unquote(RoutePath(zipPath, name, ext))
              && OpenZip(fs, r.archive).Some? && r.entry in OpenZip(fs, r.archive).value
  {
    FetchEntry(fs, RealRoutePath(cfg, reqPath, archive, archiveExt), archiveExt, ext,
               Unquote(RoutePath(zipPath, name, ext)))
  }

}

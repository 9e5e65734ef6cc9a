# LightComics request core in Dafny

LightComics is a small comic-book server (`lightcomics.py`). It lists the
folders under a configured contents root, lists the entries of zip archives,
and sends image files and archive entries to the client. This project models
the decision and string logic behind each request handler as pure functions:

- `get_ext` and `get_real_path`, with the `os.path` operations they use
  (`join`, `split`, `basename`, `splitext`) under POSIX rules
  (`posixpath`), and `urllib.unquote`;
- the fixed allow-lists of image and archive extensions;
- the three views of a zip archive's `namelist()`:
  - the top-level folders (`list_zip_files`);
  - the files directly inside a folder (`get_files_in_zip_path`, `load_zip_folder`);
  - the exact-match entry lookup (`load_file_in_archive`, `load_file_in_archive2`);
- the guards of `load_file`, `load_zip_folder` and the entry handlers;
- the partition of a directory listing in `load_folders`, with its special
  case for the contents folder.

The disk is a finite map from path strings to nodes (`FileSystem.Fs`). A
directory node carries its children in `os.listdir` order. A file node
carries its zip name list when its bytes form a readable zip.

Every handler returns a `Server.Response`:

- `NoContent`: the `('', 204)` reply;
- `Listing(Comix(directories, files))`: the JSON listing;
- `SendFile(path)`: `send_file` of a real path;
- `SendEntry(archive, entry, attachmentName)`: an archive entry sent as an attachment;
- `Fault`: an exception the handler does not catch. The web framework turns
  that into a server error. Examples are opening a directory or a non-zip
  file as a zip, `send_file` on a directory, and the implicit `None` that
  `load_folders` returns for an existing non-directory.

Modules: `Options`, `PosixPath`, `Percent`, `Extensions`, `FileSystem`,
`ZipViews`, `Server`, `Folders`, `Agreement` (listing and fetching
agree), `Scenarios` (typical request shapes).

## Behaviour of the code worth knowing

- `get_real_path` makes no containment check. A decoded path that starts
  with `/` replaces the root, and `..` is kept.
- `os.path.join(root, "")` is `root + "/"` when the root lacks a trailing
  separator.
- `load_folders` puts `.zip` names with the directories and drops `rar`,
  `cbz` and `cbr`. Every other name is kept as a file, images or not.
- Extension matching is case-sensitive.
- No hidden-file or trash markers are filtered.

## Model

| member | source | states |
|---|---|---|
| PosixPath.GetExt | lightcomics.py:44-46 | the extension holds neither a dot nor a separator, so it never starts with `.` and lies inside the last path component |
| PosixPath.GetExtSuffix | lightcomics.py:44-46 | the extension is a suffix of the path; when it is non-empty, a dot comes just before it |
| PosixPath.GetExtOfStemDotExt | lightcomics.py:44-46 | `stem.e` under any directory prefix has extension exactly `e`, when `stem` is one component not made only of dots and `e` holds no dot and no separator |
| PosixPath.DotsOnlyStemNoExt | lightcomics.py:44-46 | a name whose stem is only dots, such as `..zip`, has the empty extension, under any directory prefix |
| PosixPath.NoDotNoExt | lightcomics.py:44-46 | a name without any dot has the empty extension |
| PosixPath.Join | lightcomics.py:71 | joining an absolute path discards the base and gives the path itself |
| PosixPath.JoinRelative | lightcomics.py:71 | joining a relative path: the result starts with the base and ends with the path; exactly one separator lies between them when the base is non-empty without a trailing separator, and nothing otherwise |
| PosixPath.Split | lightcomics.py:89 | the tail holds no separator, and a path without any separator has the empty head and is its own tail |
| PosixPath.SplitJoined | lightcomics.py:89 | `split("d/b")` gives back `(d, b)` for a non-empty `d` without a trailing separator and a single component `b` |
| PosixPath.SplitInverse | lightcomics.py:187 | when the split head is a proper directory and the name has no doubled separator, the name is exactly head, `/`, tail |
| PosixPath.BasenameAfterSep | lightcomics.py:235 | the basename of `pre/x` is `x` for any single component `x` |
| Percent.Unquote | lightcomics.py:70 | decoding never lengthens a path, and it leaves a path without `%` unchanged |
| Percent.UnquoteQuote | lightcomics.py:70 | decoding a percent-encoded path gives the path back |
| Percent.DecodingTwiceDiffers | lightcomics.py:70 | an escaped `%25XY` decodes to the escape `%XY` and only a second decoding gives the character `XY` |
| ZipViews.FirstSegment | lightcomics.py:105 | `name.split('/')[0]`: a prefix of the name without separator, which is the whole name or is followed by a separator |
| ZipViews.DirSegments | lightcomics.py:104-105 | a name is collected exactly when it is the first segment of some entry ending in `/` |
| ZipViews.Dedup | lightcomics.py:105 | the set conversion: no repeats, and the same members as its input |
| ZipViews.TopDirs | lightcomics.py:104-106 | the top-level folders have no duplicates; a name is one of them exactly when it is the first segment of an entry ending in `/`; there are none exactly when no entry ends in `/` |
| ZipViews.FolderFiles | lightcomics.py:185-190 | every listed name is non-empty and holds no separator, and there are no more names than entries |
| ZipViews.FolderFilesMembers | lightcomics.py:185-190 | a name is listed exactly when it is the basename of an entry whose `split` head equals the folder |
| ZipViews.FolderFilesAppend | lightcomics.py:79-92 | the listing follows `namelist()` order: listing a concatenation is concatenating the listings |
| ZipViews.TopFolderFiles | lightcomics.py:89-92 | the top-level listing holds exactly the entry names that are one non-empty component |
| ZipViews.InnerFolderFiles | lightcomics.py:187-190 | the listing of a folder without trailing separator holds exactly the non-empty components `x` for which `folder/x` is an entry, when no entry name has a doubled separator |
| ZipViews.FirstMatch | lightcomics.py:268-273 | the scan finds nothing exactly when the key is no entry name; otherwise it finds an entry equal to the key, and no earlier entry is equal |
| Server.GetRealPath | lightcomics.py:69-73 | a path that decodes to an absolute path resolves to that decoded path, whatever the base |
| Server.GetRealPathUnderBase | lightcomics.py:69-73 | a relative decoded path resolves under the base (prefix base, suffix decoded path); an absolute one replaces the base, so escaping paths pass through |
| Server.FilesInZipPath | lightcomics.py:75-97 | no content exactly when no entry lies in the folder; otherwise a listing with no directories whose files are the folder's files |
| Server.ListZipFiles | lightcomics.py:99-115 | a fault exactly when the archive cannot be opened; with a folder entry, the top-level folders without repeats and no files; without one, the top-level file listing |
| Server.LoadFile | lightcomics.py:135-158 | an extension outside the allow-lists gives no content whatever exists; a missing path gives no content; a file is sent exactly for an existing non-directory with an image extension; an existing directory with an image extension is a fault; an existing archive is listed |
| Server.LoadZipFolder | lightcomics.py:160-195 | existence is checked before the extension; a non-archive extension gives no content; a fault exactly when an existing archive cannot be opened; an opened archive answers as the folder listing of the decoded folder: its files when the folder has any, no content when it has none |
| Server.FetchEntry | lightcomics.py:214-237 | `thm` or a non-archive extension gives no content; an entry is sent exactly when the key is an entry name, as that entry under the basename of the key; a fault exactly when an existing archive cannot be opened |
| Server.LoadFileInArchive2 | lightcomics.py:198-237 | an entry is sent only from the archive named by the route, keyed by the decoded `name.ext`, which is an entry name |
| Server.LoadFileInArchive | lightcomics.py:239-280 | an entry is sent only from the archive named by the route, keyed by the decoded `folder/name.ext`, which is an entry name |
| Folders.Place | lightcomics.py:305-309 | a child goes to the directories exactly when it is a directory or its extension is `zip`; it is dropped exactly when it is a non-directory with extension `rar`, `cbz` or `cbr`; it goes to the files exactly when it is a non-directory whose extension is no archive extension |
| Folders.SelectMembers | lightcomics.py:305-309 | a child is in the directory list, the file list or the dropped names exactly when `Place` puts it there (the contract of `Select`) |
| Folders.SelectAccounts | lightcomics.py:305-309 | the directories, the files and the dropped names together are the children, counted with multiplicity |
| Folders.SelectAppend | lightcomics.py:305-309 | each list keeps the `os.listdir` order of the children |
| Folders.PartitionAppend | lightcomics.py:305-309 | both lists keep the `os.listdir` order: partitioning a concatenation of children concatenates the partitions |
| Folders.PartitionSingle | lightcomics.py:305-309 | a single child lands in the list `Place` names, or in neither when dropped |
| Folders.Partition | lightcomics.py:302-311 | the directories and the files hold exactly the children placed there, and together no child more often than it occurs |
| Folders.LoadFolders | lightcomics.py:282-311 | the contents folder lists every child as a directory; another missing path gives no content; another directory answers exactly its `Partition`, so both lists keep the `os.listdir` order; a fault exactly when the resolved path is not a directory but exists or is the contents folder |
| Agreement.GetRealPathOfQuoted | lightcomics.py:69-73 | an encoded path resolves to the plain path joined under the base, an absolute one to itself |
| Agreement.QuotedRouteDecodes | lightcomics.py:246-252 | the rebuilt `folder/name.ext` of encoded segments decodes to the plain `folder/name.ext` |
| Agreement.QuoteNotThm | lightcomics.py:256 | an encoded extension is `thm` only when the extension is |
| Agreement.QuoteRoutePath | lightcomics.py:246-247 | encoding a whole `folder/name.ext` route equals encoding its segments and joining them with `/` and `.`, so a client may encode segment by segment |
| Agreement.TopLevelEntryIsFetched | lightcomics.py:198-237 | a top-level entry `stem.ext` is sent, under its own name, when requested by its encoded stem and extension; with `ZipViews.TopFolderFiles`, every file of the form `stem.ext` that the top-level listing shows can be fetched |
| Agreement.FolderEntryIsFetched | lightcomics.py:239-280 | an entry `folder/stem.ext` is sent under the name `stem.ext` when requested by encoded segments; with `ZipViews.InnerFolderFiles`, every file of the form `stem.ext` that a folder listing shows can be fetched |
| Agreement.DoubledSeparatorMismatch | lightcomics.py:185-280 | for an entry `d//b` the listing of folder `d` shows `b`, but fetching `b` from folder `d` rebuilds the key `d/b` and gives no content |
| Scenarios.ClientPathDecodedOnce | lightcomics.py:69-73 | a doubly escaped `%25XY` resolves to the file named with the escape `%XY` |
| Scenarios.ArchiveWithoutFolders | lightcomics.py:99-115 | an archive without folder entries lists exactly its top-level files, in order, skipping an entry inside a folder |
| Scenarios.ArchiveWithFolder | lightcomics.py:104-113 | `d/`, `d/f`, `d/f/` list the single folder `d` and no files |
| Scenarios.NonArchiveNamesAreFiles | lightcomics.py:308-309 | any non-directory `stem.e` whose `e` is no archive extension is shown as a file, `readme.md` as much as `cover.png` |
| Scenarios.UpperCaseArchiveNamesAreFiles | lightcomics.py:305-309 | extension matching is case-sensitive: a non-directory `stem.ZIP`, `stem.CBZ`, `stem.RAR` or `stem.CBR` is shown as a file, neither as a folder nor dropped |
| Scenarios.HiddenNameHasNoExtension | lightcomics.py:306-309 | a non-directory `.zip` has no extension and is shown as a file |
| Scenarios.ContentsFolderUnfiltered | lightcomics.py:290-296 | requesting the contents folder by its plain name lists every child as a directory |

## Left out

- Web framework routing, URL matching and the framework's own decoding of the request URL. The handlers are modelled from the route parameters they receive.
- Authentication (`requires_auth`, `check_auth`, `authenticate`): it only guards the handlers.
- Loading the configuration file and the startup existence check of the contents folder (lines 30-42): I/O at import time. `Config` carries the root and the contents name instead.
- `root()` and `welcome()`: constant replies with no logic.
- Logging and `to_hex`: no effect on replies.
- JSON serialisation and HTTP response objects: replaced by the `Response` datatype.
- Reading and decompressing entry bytes, and `send_file` I/O: entries and files are named, not read.
- Server.FilesInZipPath: does not model the image decoding of every entry (lines 81-85). It is a foreign library call that raises for an entry that is not a decodable image; the model treats every entry as decodable.
- Percent.Unquote: decodes each `%XY` escape to the single character with code `XY`. It does not model the UTF-8 decoding of multi-byte runs or its error handling.
- Percent.Quote: is the client's encoder and encodes only characters below 256. It is a Latin-1 encoder in the style of `urllib.quote`, and it differs from `quote` in two ways. It leaves `~` alone, which Python 2's `quote` escapes. It writes a character from 128 to 255 as one escape, where Python 3's `quote` writes the two escapes of its UTF-8 encoding.
- ZipViews.TopDirs: states membership and no repeats, not order. The folders come from a Python `set`, whose iteration order the program does not fix; the model keeps first-occurrence order.
- Server.LoadFileInArchive2 and Server.LoadFileInArchive: their own contracts state the guards and what a sent entry is; the full case analysis is stated by `Server.FetchEntry`, which both call.
- Windows path rules: `os.path` is modelled as `posixpath`. On Windows, where the build script's console target points, `os.path` is `ntpath`: `\` is a second separator and a drive letter makes a path absolute. Its rules for `join`, `split`, `basename` and `splitext` are not modelled, so an entry `d\f.jpg` is listed at the top level here, while `ntpath.split` would place it in folder `d`.
- Operating-system path normalisation: paths are looked up exactly as built, so `a//b` and `a/./b` are different keys.
- The build script `setup.py`: packaging, no logic.

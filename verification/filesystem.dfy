/** The server's view of the disk: a finite map from path strings to nodes.
    Paths are looked up exactly as the handlers build them. */
module FileSystem {

  import opened Options

  /** A directory lists its children's names in `os.listdir` order; a file
      carries its zip `namelist()` when its bytes form a readable zip archive. */
  datatype Node =
    | Dir(children: seq<string>)
    | File(archive: Option<seq<string>>)

  type Fs = map<string, Node>

  /** `os.path.isdir`. */
  predicate IsDir(fs: Fs, p: string) {
    p in fs && fs[p].Dir?
  }

  /** `zipfile.ZipFile(p).namelist()`, or `None` where opening raises
      (no such path, a directory, or a file that is not a zip archive). */
  function OpenZip(fs: Fs, p: string): (r: Option<seq<string>>) {
    if p in fs && fs[p].File? then fs[p].archive else None
  }

}

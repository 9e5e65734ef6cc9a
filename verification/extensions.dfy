/** The fixed extension allow-lists. Extensions are compared exactly as
    written: matching is case-sensitive and takes no account of the name's
    contents. */
module Extensions {

  const ImageExts: seq<string> := ["jpg", "gif", "png", "tif", "bmp", "jpeg", "tiff"]
  const ArchiveExts: seq<string> := ["zip", "rar", "cbz", "cbr"]

  /** Every extension any file route accepts. */
  const Allows: seq<string> := ImageExts + ArchiveExts

}

/** The data directory. */
module DataDir {
  import opened Events
  import opened SegmentCatalog

  /** The rows a segment file holds. */
  type File = seq<Event>

  class Disk {
    var files: map<Path, File>

    constructor ()
      ensures files == map[]
    {
      files := map[];
    }

    method Write(p: Path, content: File)
      modifies this
      ensures files == old(files)[p := content]
    {
      files := files[p := content];
    }

    /** Removing a missing file is not an error. */
    method Remove(p: Path)
      modifies this
      ensures files == old(files) - {p}
    {
      files := files - {p};
    }

    /** Renaming replaces the target. */
    method Rename(from: Path, to: Path)
      requires from in files && from != to
      modifies this
      ensures files == old(files)[to := old(files)[from]] - {from}
    {
      files := files[to := files[from]] - {from};
    }
  }
}

/** What the resolution algorithm can observe of the filesystem, as an
    immutable value: for each path, whether reading it as a symbolic link
    succeeds and with which target, and whether it opens as a readable file;
    for each directory, whether it opens and what listing it yields. */
module FileSystem {
  import opened Base

  /** The target that marks a symbolic link as a mask. */
  const NullPath: string := "/dev/null"

  /** One path as seen by `read_link` (None when it is not a symbolic link or
      cannot be read as one) and by a read-only `open`. */
  datatype Node = Node(link: Option<string>, opens: bool)

  /** A mask: a symbolic link whose immediate target is exactly `/dev/null`. */
  predicate IsMask(n: Node)
  {
    n.link == Some(NullPath)
  }

  /** One item yielded while listing a directory: an error, or an entry with
      its base name and what `read_link`/`open_file` relative to the
      directory observe of it. */
  datatype Item = Unreadable | Entry(name: string, node: Node)

  /** A directory that opened: its listing failed, or it yielded `items`. */
  datatype Listing = ListFailed | Listed(items: seq<Item>)

  /** A directory absent from `dirs` is one that fails to open. */
  datatype Fs = Fs(paths: map<string, Node>, dirs: map<string, Listing>)

  /** An opened, readable byte source, identified by what was opened. */
  datatype Handle = FileHandle(path: string) | EntryHandle(dir: string, name: string)

  /** What `read_link` and `open` observe at `p`; a path the filesystem does
      not have is neither a link nor openable. */
  function Probe(fs: Fs, p: string): Node
  {
    if p in fs.paths then fs.paths[p] else Node(None, false)
  }

}

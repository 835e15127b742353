/** The directory tree the scanner walks, standing in for the file system
    (java.io.File listings) and for ImageIO's decoding of image headers. */
module FileTree {
  import opened Wrappers

  /** A decoded image always has at least one column and one row. */
  type Positive = n: int | n > 0 witness 1

  datatype Dims = Dims(width: Positive, height: Positive)

  /** One entry of a directory listing. */
  datatype Node =
      /** A regular file; `image` is None when decoding it as an image fails
          (ImageIO.read throws, or returns null for an unknown format). */
    | File(name: string, image: Option<Dims>)
      /** A directory together with its listing, in listing order. */
    | Dir(name: string, children: seq<Node>)
      /** A directory whose listing cannot be read (listFiles() returns null). */
    | Unlistable(name: string)
      /** Anything that is neither a regular file nor a directory. */
    | Special(name: string)
  {
    /** File.isDirectory(): true for readable and unreadable directories alike. */
    predicate IsDirectory() {
      Dir? || Unlistable?
    }

    /** A qualifying file: a regular file whose name ends with ".png" (case-sensitive). */
    predicate IsPng() {
      File? && EndsWithPng(name)
    }
  }

  /** String.endsWith(".png"). */
  predicate EndsWithPng(name: string) {
    |name| >= 4 && name[|name| - 4..] == ".png"
  }

  /** Every qualifying file in the subtree decodes and every directory in it can be listed. */
  predicate Healthy(n: Node) {
    match n
    case File(_, image) => !n.IsPng() || image.Some?
    case Dir(_, children) => forall i | 0 <= i < |children| :: Healthy(children[i])
    case Unlistable(_) => false
    case Special(_) => true
  }

  /** No qualifying file anywhere in the subtree. */
  predicate NoPng(n: Node) {
    match n
    case File(_, _) => !n.IsPng()
    case Dir(_, children) => forall i | 0 <= i < |children| :: NoPng(children[i])
    case _ => true
  }

  /** Entries of one listing have pairwise different names, as in any real directory. */
  predicate DistinctNames(entries: seq<Node>) {
    forall i, j | 0 <= i < j < |entries| :: entries[i].name != entries[j].name
  }
}

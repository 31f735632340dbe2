/** What the two extensions see of a notebook cell. */
module Notebook {
  import opened Optional

  /** A cell: the `tags` entry of its metadata (None when the entry is
      missing) and the class list of its rendered node. */
  datatype Cell = Cell(tags: Option<seq<string>>, classes: set<string>)

  /** The tag list of a cell, a missing entry read as the empty list. */
  function TagsOf(c: Cell): seq<string> {
    match c.tags
    case None => []
    case Some(ts) => ts
  }
}

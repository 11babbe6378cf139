/** Paths into a document tree. */
module Paths {

  datatype Segment = Name(name: string) | Index(index: nat)

  type Path = seq<Segment>

  function Parent(p: Path): Path
    requires p != []
  {
    p[..|p| - 1]
  }

  function Last(p: Path): Segment
    requires p != []
  {
    p[|p| - 1]
  }

  /** One path is a prefix of the other: both lie on one root-to-node line. */
  predicate Comparable(p: Path, q: Path) {
    p <= q || q <= p
  }

  /** A path with one more name: `.` and `..` are resolved away, and a `..` at the root stays there. */
  function PushName(p: Path, name: string): Path {
    if name == "." then p
    else if name == ".." then (if p == [] then [] else Parent(p))
    else p + [Name(name)]
  }
}

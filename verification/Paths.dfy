/** Structured paths into observation and payload trees (crates/rlmesh-adapters/src/path.rs). */
module Paths {

  /** A child of a Dict by its key, or of a Tuple by its position. */
  datatype PathSeg = Key(name: string) | Index(position: nat)

  /** An ordered path; empty is the root. */
  datatype NodePath = NodePath(segs: seq<PathSeg>)

  const ROOT := NodePath([])

  function Push(path: NodePath, seg: PathSeg): NodePath {
    NodePath(path.segs + [seg])
  }

  function PushKey(path: NodePath, key: string): NodePath {
    Push(path, Key(key))
  }

  function PushIndex(path: NodePath, index: nat): NodePath {
    Push(path, Index(index))
  }

  /** Neither path is a prefix of the other (in particular they differ). */
  predicate Apart(p: NodePath, q: NodePath) {
    !(p.segs <= q.segs) && !(q.segs <= p.segs)
  }

  const DIGITS := "0123456789"

  function Decimal(n: nat): string {
    if n < 10 then [DIGITS[n]] else Decimal(n / 10) + [DIGITS[n % 10]]
  }

  function RenderFrom(path: seq<PathSeg>, position: nat): string {
    if path == [] then ""
    else
      (match path[0]
       case Key(name) => (if position > 0 then "." else "") + name
       case Index(i) => "[" + Decimal(i) + "]")
      + RenderFrom(path[1..], position + 1)
  }

  /** The text a path displays as. */
  function Render(path: NodePath): string {
    if path.segs == [] then "<root>" else RenderFrom(path.segs, 0)
  }
}

/**
 * The result accumulator the loop-shape finders are built on (pycc's
 * `visitors.base.NodeFinder`). A node is reported by its position in the
 * finder's root, which is how the rewriters later recognise it.
 */
module NodeFinders {
  import opened Syntax

  class NodeFinder {
    /** the tree the finder was created for */
    const root: Node
    /** positions in `root` of the reported nodes, in report order */
    var results: seq<Path>

    constructor(root: Node)
      ensures this.root == root && results == []
    {
      this.root := root;
      results := [];
    }

    /** Report one node: it goes at the end and nothing else changes. */
    method Add(p: Path)
      modifies this
      ensures results == old(results) + [p]
    {
      results := results + [p];
    }
  }
}

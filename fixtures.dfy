/**
 * Small trees the worked examples of the optimizer and the index-loop
 * finders are built from.
 */
module Fixtures {
  import opened Wrappers
  import opened Syntax

  /** A node without children or location. */
  function Leaf(k: Kind): Node {
    Node(k, [], None)
  }

  /** `for k in d.keys(): pass`: the callee is an attribute, not a Name. */
  function KeysLoop(): Node {
    Node(For, [Leaf(Name("k", Store)),
               Node(Call(0), [Node(Other("Attribute"), [Leaf(Name("d", Load))], None)], None),
               Leaf(Other("Pass"))], None)
  }
}

/** The host document, seen only through the lookups the selector engine
    calls: by tag name, by class key, by id, and the `parentNode` link. */
module Dom {
  import opened Js

  /** An element handle; two handles are the same element exactly when
      they are equal. */
  datatype Elem = Node(id: nat)

  datatype Document = Document(
    byTag: string -> seq<Elem>,     // document.getElementsByTagName
    byClass: string -> seq<Elem>,   // document.getElementsByClassName (space-separated key)
    byId: string -> Option<Elem>,   // document.getElementById
    parent: Elem -> Option<Elem>,   // parentNode, None above the root
    depth: Elem -> nat)             // distance from the root

  /** A document tree: every parent link goes one level closer to the root,
      so following `parentNode` always reaches null. */
  type Doc = d: Document | forall e :: d.parent(e).Some? ==> d.depth(d.parent(e).value) < d.depth(e)
    witness Document(t => [], k => [], i => None, e => None, e => 0)

  /** `p` is `x` itself or one of its ancestors: walking `parentNode` up
      from `x` meets `p`. */
  predicate IsAncestorOrSelf(doc: Doc, p: Elem, x: Elem)
    decreases doc.depth(x)
  {
    x == p || (doc.parent(x).Some? && IsAncestorOrSelf(doc, p, doc.parent(x).value))
  }

  /** Some element of `ps` is `x` or an ancestor of `x`. */
  predicate HasAncestorIn(doc: Doc, ps: seq<Elem>, x: Elem) {
    exists p :: p in ps && IsAncestorOrSelf(doc, p, x)
  }

  lemma HasAncestorInCons(doc: Doc, ps: seq<Elem>, x: Elem)
    requires ps != []
    ensures HasAncestorIn(doc, ps, x) <==> IsAncestorOrSelf(doc, ps[0], x) || HasAncestorIn(doc, ps[1..], x)
  {
    if HasAncestorIn(doc, ps, x) {
      var p :| p in ps && IsAncestorOrSelf(doc, p, x);
      if p != ps[0] {
        assert p in ps[1..];
      }
    }
  }
}

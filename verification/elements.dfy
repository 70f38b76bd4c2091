/**
  The document tree the cleaner works on: an element has a tag, an ordered
  attribute mapping and an ordered sequence of children. A leaf is an element
  without children; only leaves are ever candidates for removal.
 */
module Elements {

  /** An attribute mapping in its iteration (insertion) order: name/value pairs. */
  type Attrs = seq<(string, string)>

  datatype Element = Element(tag: string, attrs: Attrs, children: seq<Element>)

  predicate IsLeaf(e: Element) {
    |e.children| == 0
  }

  /**
    The duplicate-detection key of an element. The tool digests the printed
    attribute mapping, which depends on the names, the values and their order,
    and on nothing else: the tag and the children are not part of it. Digest
    collisions are not modelled, so the key is the ordered mapping itself.
   */
  function Fingerprint(e: Element): Attrs {
    e.attrs
  }

  /** A non-empty sequence of trees is its front followed by its last tree. */
  lemma FrontLast(cs: seq<Element>)
    requires |cs| > 0
    ensures cs[..|cs| - 1] + [cs[|cs| - 1]] == cs
  {
  }

  /** Number of elements in a tree (the element itself included). */
  function Size(e: Element): nat {
    1 + SizeSeq(e.children)
  }

  /** Number of elements in a sequence of trees. */
  function SizeSeq(cs: seq<Element>): nat {
    if |cs| == 0 then 0 else SizeSeq(cs[..|cs| - 1]) + Size(cs[|cs| - 1])
  }

  /** Number of leaf elements in a tree. */
  function Leaves(e: Element): nat {
    if IsLeaf(e) then 1 else LeavesSeq(e.children)
  }

  /** Number of leaf elements in a sequence of trees. */
  function LeavesSeq(cs: seq<Element>): nat {
    if |cs| == 0 then 0 else LeavesSeq(cs[..|cs| - 1]) + Leaves(cs[|cs| - 1])
  }
}

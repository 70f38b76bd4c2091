/**
  Small documents and what cleaning does to them. Tags and attribute
  mappings are left as parameters, so each lemma covers every document of
  the shape it describes.
 */
module Scenarios {
  import opened Elements
  import opened Cleaner
  import opened CleanerProperties

  function Leaf(tag: string, attrs: Attrs): Element {
    Element(tag, attrs, [])
  }

  /** A sequence of leaves is clean tree by tree, so cleaning it changes nothing. */
  lemma LeavesUntouched(cs: seq<Element>)
    requires forall k :: 0 <= k < |cs| ==> IsLeaf(cs[k])
    ensures HandleSeq(cs).trees == cs && HandleSeq(cs).removed == 0
  {
    CleanedSeqFixpoint(cs);
  }

  lemma KeptOfTwo(marks: seq<bool>)
    requires marks == [false, true]
    ensures KeptPositions(marks) == [0] && CountMarked(marks) == 1
  {
    assert marks[..1] == [false] && [false][..0] == [];
  }

  lemma KeptOfThree(marks: seq<bool>)
    requires marks == [false, true, false]
    ensures KeptPositions(marks) == [0, 2] && CountMarked(marks) == 1
  {
    assert marks[..2] == [false, true];
    KeptOfTwo(marks[..2]);
  }

  lemma KeptOfTwoUnmarked(marks: seq<bool>)
    requires marks == [false, false]
    ensures KeptPositions(marks) == [0, 1] && CountMarked(marks) == 0
  {
    assert marks[..1] == [false] && [false][..0] == [];
  }

  /**
    Three leaves, the second an exact repeat of the first and the third
    different: the repeat goes and the count is one.
   */
  lemma RepeatedLeaf(root: string, tag: string, a: Attrs, b: Attrs)
    requires a != b
    ensures var doc := Element(root, [], [Leaf(tag, a), Leaf(tag, a), Leaf(tag, b)]);
            && HandleElement(doc).tree == Element(root, [], [Leaf(tag, a), Leaf(tag, b)])
            && HandleElement(doc).removed == 1
  {
    var cs := [Leaf(tag, a), Leaf(tag, a), Leaf(tag, b)];
    var doc := Element(root, [], cs);
    assert IsDuplicateAt(cs, 1) by {
      assert IsLeaf(cs[0]) && Fingerprint(cs[0]) == Fingerprint(cs[1]);
    }
    assert Duplicates(cs) == [false, true, false];
    KeptOfThree(Duplicates(cs));
    assert Survivors(doc) == [cs[0], cs[2]];
    LeavesUntouched([cs[0], cs[2]]);
  }

  /** A leaf after another leaf with the same attributes is removed whatever the two tags are. */
  lemma TagIsIgnored(root: string, tag1: string, tag2: string, a: Attrs)
    ensures var doc := Element(root, [], [Leaf(tag1, a), Leaf(tag2, a)]);
            && HandleElement(doc).tree == Element(root, [], [Leaf(tag1, a)])
            && HandleElement(doc).removed == 1
  {
    var cs := [Leaf(tag1, a), Leaf(tag2, a)];
    var doc := Element(root, [], cs);
    assert IsDuplicateAt(cs, 1) by {
      assert IsLeaf(cs[0]) && Fingerprint(cs[0]) == Fingerprint(cs[1]);
    }
    assert Duplicates(cs) == [false, true];
    KeptOfTwo(Duplicates(cs));
    assert Survivors(doc) == [cs[0]];
    LeavesUntouched([cs[0]]);
  }

  /**
    The same two attributes written in the two orders are two fingerprints,
    so both leaves stay and nothing is counted.
   */
  lemma AttributeOrderMatters(root: string, tag: string, x: (string, string), y: (string, string))
    requires x.0 != y.0
    ensures var doc := Element(root, [], [Leaf(tag, [x, y]), Leaf(tag, [y, x])]);
            && HandleElement(doc).tree == doc
            && HandleElement(doc).removed == 0
  {
    var cs := [Leaf(tag, [x, y]), Leaf(tag, [y, x])];
    var doc := Element(root, [], cs);
    assert Fingerprint(cs[0]) != Fingerprint(cs[1]) by {
      assert Fingerprint(cs[0])[0] != Fingerprint(cs[1])[0];
    }
    assert Duplicates(cs) == [false, false];
    KeptOfTwoUnmarked(Duplicates(cs));
    assert Survivors(doc) == cs;
    LeavesUntouched(cs);
  }

  /** A group holding the same leaf twice keeps the first one. */
  lemma GroupDropsRepeat(group: string, tag: string, a: Attrs)
    ensures HandleElement(Element(group, [], [Leaf(tag, a), Leaf(tag, a)])).tree == Element(group, [], [Leaf(tag, a)])
    ensures HandleElement(Element(group, [], [Leaf(tag, a), Leaf(tag, a)])).removed == 1
  {
    var cs := [Leaf(tag, a), Leaf(tag, a)];
    var g := Element(group, [], cs);
    assert IsDuplicateAt(cs, 1) by {
      assert IsLeaf(cs[0]) && Fingerprint(cs[0]) == Fingerprint(cs[1]);
    }
    assert Duplicates(cs) == [false, true];
    KeptOfTwo(Duplicates(cs));
    assert Survivors(g) == [cs[0]];
    LeavesUntouched([cs[0]]);
  }

  /** Two copies of one tree, cleaned side by side, are each cleaned as the tree alone. */
  lemma CopiesCleanedAlike(g: Element)
    ensures HandleSeq([g, g]).trees == [HandleElement(g).tree, HandleElement(g).tree]
    ensures HandleSeq([g, g]).removed == 2 * HandleElement(g).removed
  {
    var c := HandleElement(g);
    CleanEachAt([g, g]);
    assert CleanEach([g, g]) == [c, c];
    TwoCleanings(c);
  }

  lemma TwoCleanings(c: Cleaning)
    ensures Trees([c, c]) == [c.tree, c.tree]
    ensures TotalRemoved([c, c]) == 2 * c.removed
  {
    assert [c, c][..1] == [c] && [c][..0] == [];
    assert TotalRemoved([c]) == c.removed;
  }

  /**
    Two such groups side by side: each drops its own repeat, and the leaves
    left in the two groups, identical as they are, both stay because they
    have different parents.
   */
  lemma GroupsCleanedIndependently(root: string, group: string, tag: string, a: Attrs)
    ensures var g := Element(group, [], [Leaf(tag, a), Leaf(tag, a)]);
            var g' := Element(group, [], [Leaf(tag, a)]);
            && HandleElement(Element(root, [], [g, g])).tree == Element(root, [], [g', g'])
            && HandleElement(Element(root, [], [g, g])).removed == 2
  {
    var g := Element(group, [], [Leaf(tag, a), Leaf(tag, a)]);
    var doc := Element(root, [], [g, g]);
    GroupDropsRepeat(group, tag, a);
    ContainerPairKept(doc, g);
    CopiesCleanedAlike(g);
    HandleElementCount(doc);
  }

  /** Two container children are both kept, even when they are equal. */
  lemma ContainerPairKept(doc: Element, g: Element)
    requires doc.children == [g, g] && !IsLeaf(g)
    ensures Survivors(doc) == [g, g]
    ensures CountMarked(Duplicates(doc.children)) == 0
  {
    assert Duplicates(doc.children) == [false, false];
    KeptOfTwoUnmarked(Duplicates(doc.children));
  }

  /** A root without children is returned as it is, and a fresh cleaner reports nothing removed. */
  lemma EmptyRoot(root: string, attrs: Attrs)
    ensures HandleElement(Element(root, attrs, [])).tree == Element(root, attrs, [])
    ensures Clean(Fresh, Element(root, attrs, [])).0.removed == 0
  {
  }
}

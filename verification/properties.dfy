/**
  What the cleaner guarantees: sibling-scoped uniqueness of leaf
  fingerprints, the first occurrence kept and every later one removed,
  containers never removed, survivors kept in order, an exact removal count,
  and idempotence.
 */
module CleanerProperties {
  import opened Elements
  import opened Cleaner

  /** No two leaves of one sibling list share a fingerprint. */
  predicate SiblingsUnique(cs: seq<Element>) {
    forall a, b :: 0 <= a < b < |cs| && IsLeaf(cs[a]) && IsLeaf(cs[b]) ==>
      Fingerprint(cs[a]) != Fingerprint(cs[b])
  }

  /** Every sibling list of the tree is free of duplicate leaves. */
  predicate Cleaned(e: Element) {
    && SiblingsUnique(e.children)
    && forall k :: 0 <= k < |e.children| ==> Cleaned(e.children[k])
  }

  /** Number of leaf children in a sibling list. */
  function LeafChildren(cs: seq<Element>): nat {
    if |cs| == 0 then 0
    else LeafChildren(cs[..|cs| - 1]) + (if IsLeaf(cs[|cs| - 1]) then 1 else 0)
  }

  /** A sibling list has unique leaf fingerprints exactly when no position is a duplicate. */
  lemma UniqueIffNoDuplicate(cs: seq<Element>)
    ensures SiblingsUnique(cs) <==> forall k :: 0 <= k < |cs| ==> !IsDuplicateAt(cs, k)
  {
    if !SiblingsUnique(cs) {
      var a, b :| 0 <= a < b < |cs| && IsLeaf(cs[a]) && IsLeaf(cs[b])
                  && Fingerprint(cs[a]) == Fingerprint(cs[b]);
      assert IsDuplicateAt(cs, b);
    }
  }

  /** Deleting with no marks keeps every child. */
  lemma {:induction false} RemoveNothing(cs: seq<Element>, marks: seq<bool>)
    requires |marks| == |cs|
    requires forall k :: 0 <= k < |marks| ==> !marks[k]
    ensures RemoveMarked(cs, marks) == cs
  {
    if |cs| > 0 {
      var n := |cs| - 1;
      assert forall k :: 0 <= k < n ==> marks[..n][k] == marks[k];
      RemoveNothing(cs[..n], marks[..n]);
      assert !marks[n];
      FrontLast(cs);
    }
  }

  /** No single count in a sequence of cleanings exceeds their sum. */
  lemma {:induction false} TotalRemovedBound(rs: seq<Cleaning>)
    ensures forall k :: 0 <= k < |rs| ==> rs[k].removed <= TotalRemoved(rs)
  {
    if |rs| > 0 {
      var n := |rs| - 1;
      TotalRemovedBound(rs[..n]);
      assert forall k :: 0 <= k < n ==> rs[..n][k] == rs[k];
    }
  }

  /** Cleaning a sequence cleans each tree on its own; no tree's count exceeds the total. */
  lemma {:induction false} HandleSeqElements(cs: seq<Element>)
    ensures forall k :: 0 <= k < |cs| ==> HandleSeq(cs).trees[k] == HandleElement(cs[k]).tree
    ensures forall k :: 0 <= k < |cs| ==> HandleElement(cs[k]).removed <= HandleSeq(cs).removed
  {
    CleanEachAt(cs);
    TotalRemovedBound(CleanEach(cs));
  }

  /**
    The children that survive the scan of one element: exactly those at the
    positions that are not duplicates, in their original order. So every
    container survives, the first leaf of each fingerprint survives, and
    every later leaf with that fingerprint, whatever its tag, is removed.
   */
  lemma SurvivorsExactly(e: Element)
    ensures var p := KeptPositions(Duplicates(e.children));
            && |Survivors(e)| == |p|
            && (forall k :: 0 <= k < |p| ==> p[k] < |e.children| && Survivors(e)[k] == e.children[p[k]])
            && (forall a, b :: 0 <= a < b < |p| ==> p[a] < p[b])
            && (forall i :: 0 <= i < |e.children| ==> (i in p <==> !IsDuplicateAt(e.children, i)))
  {
  }

  /** A container child is never removed, whatever its attributes. */
  lemma ContainerSurvives(e: Element, i: nat)
    requires i < |e.children| && !IsLeaf(e.children[i])
    ensures e.children[i] in Survivors(e)
  {
    var p := KeptPositions(Duplicates(e.children));
    SurvivorsExactly(e);
    assert !IsDuplicateAt(e.children, i);
    assert i in p;
    var k :| 0 <= k < |p| && p[k] == i;
    assert Survivors(e)[k] == e.children[i];
  }

  /** Every leaf has a first occurrence: a leaf at or before it with its fingerprint and no earlier twin. */
  lemma {:induction false} FirstOccurrence(cs: seq<Element>, i: nat)
    decreases i
    requires i < |cs| && IsLeaf(cs[i])
    ensures exists j :: 0 <= j <= i && IsLeaf(cs[j]) && Fingerprint(cs[j]) == Fingerprint(cs[i]) && !EarlierTwin(cs, j)
  {
    if EarlierTwin(cs, i) {
      var j :| 0 <= j < i && IsLeaf(cs[j]) && Fingerprint(cs[j]) == Fingerprint(cs[i]);
      FirstOccurrence(cs, j);
      var j' :| 0 <= j' <= j && IsLeaf(cs[j']) && Fingerprint(cs[j']) == Fingerprint(cs[j]) && !EarlierTwin(cs, j');
      assert 0 <= j' <= i;
    } else {
      assert 0 <= i <= i;
    }
  }

  /**
    No fingerprint is lost: for every leaf child, its first occurrence
    survives, so some surviving leaf still carries its attributes.
   */
  lemma EveryFingerprintKept(e: Element, i: nat)
    requires i < |e.children| && IsLeaf(e.children[i])
    ensures exists k :: 0 <= k < |Survivors(e)| && IsLeaf(Survivors(e)[k])
                        && Fingerprint(Survivors(e)[k]) == Fingerprint(e.children[i])
  {
    var cs := e.children;
    var p := KeptPositions(Duplicates(cs));
    SurvivorsExactly(e);
    FirstOccurrence(cs, i);
    var j :| 0 <= j <= i && IsLeaf(cs[j]) && Fingerprint(cs[j]) == Fingerprint(cs[i]) && !EarlierTwin(cs, j);
    assert !IsDuplicateAt(cs, j);
    assert j in p;
    var k :| 0 <= k < |p| && p[k] == j;
    assert Survivors(e)[k] == cs[j];
  }

  /** After the scan of one element, its surviving leaves have pairwise distinct fingerprints. */
  lemma {:induction false} SurvivorsUnique(e: Element)
    ensures SiblingsUnique(Survivors(e))
  {
    var cs, r := e.children, Survivors(e);
    var p := KeptPositions(Duplicates(cs));
    SurvivorsExactly(e);
    forall a, b | 0 <= a < b < |r| && IsLeaf(r[a]) && IsLeaf(r[b])
      ensures Fingerprint(r[a]) != Fingerprint(r[b])
    {
      assert r[a] == cs[p[a]] && r[b] == cs[p[b]] && p[a] < p[b];
      assert !IsDuplicateAt(cs, p[b]);
    }
  }

  /** An element with fewer than two leaf children loses none of them. */
  lemma FewLeavesKept(e: Element)
    requires LeafChildren(e.children) < 2
    ensures Survivors(e) == e.children
    ensures CountMarked(Duplicates(e.children)) == 0
  {
    var cs := e.children;
    forall k | 0 <= k < |cs| ensures !IsDuplicateAt(cs, k) {
      if IsDuplicateAt(cs, k) {
        var j :| 0 <= j < k && IsLeaf(cs[j]) && Fingerprint(cs[j]) == Fingerprint(cs[k]);
        TwoLeavesCount(cs, j, k);
      }
    }
    RemoveNothing(cs, Duplicates(cs));
    NoMarksCount(Duplicates(cs));
  }

  /** Two distinct leaf positions make at least two leaf children. */
  lemma {:induction false} TwoLeavesCount(cs: seq<Element>, j: nat, k: nat)
    requires j < k < |cs| && IsLeaf(cs[j]) && IsLeaf(cs[k])
    ensures LeafChildren(cs) >= 2
  {
    var n := |cs| - 1;
    if k < n {
      TwoLeavesCount(cs[..n], j, k);
    } else {
      OneLeafCount(cs[..n], j);
    }
  }

  lemma {:induction false} OneLeafCount(cs: seq<Element>, j: nat)
    requires j < |cs| && IsLeaf(cs[j])
    ensures LeafChildren(cs) >= 1
  {
    var n := |cs| - 1;
    if j < n {
      OneLeafCount(cs[..n], j);
    }
  }

  lemma {:induction false} NoMarksCount(marks: seq<bool>)
    requires forall k :: 0 <= k < |marks| ==> !marks[k]
    ensures CountMarked(marks) == 0
  {
    if |marks| > 0 {
      NoMarksCount(marks[..|marks| - 1]);
    }
  }

  /** A zero count means that nothing was marked. */
  lemma {:induction false} ZeroCountNoMarks(marks: seq<bool>)
    requires CountMarked(marks) == 0
    ensures forall k :: 0 <= k < |marks| ==> !marks[k]
  {
    if |marks| > 0 {
      var n := |marks| - 1;
      ZeroCountNoMarks(marks[..n]);
      assert forall k :: 0 <= k < n ==> marks[..n][k] == marks[k];
    }
  }

  /**
    The cleaned element, level by level: its children are the surviving
    children of the original, in their order, each cleaned on its own.
    Nothing is inserted, and no sibling outside a child's own subtree takes
    part in cleaning it.
   */
  lemma {:induction false} CleanedChildren(e: Element)
    ensures var r := HandleElement(e).tree;
            var p := KeptPositions(Duplicates(e.children));
            && |r.children| == |p|
            && (forall k :: 0 <= k < |p| ==> p[k] < |e.children| && r.children[k] == HandleElement(e.children[p[k]]).tree)
            && (forall a, b :: 0 <= a < b < |p| ==> p[a] < p[b])
            && (forall i :: 0 <= i < |e.children| ==> (i in p <==> !IsDuplicateAt(e.children, i)))
  {
    SurvivorsExactly(e);
    HandleSeqElements(Survivors(e));
  }

  /** When no child is a leaf, nothing is removed at this level and each child is cleaned on its own. */
  lemma {:induction false} ContainerChildrenIndependent(e: Element)
    requires forall k :: 0 <= k < |e.children| ==> !IsLeaf(e.children[k])
    ensures |HandleElement(e).tree.children| == |e.children|
    ensures forall k :: 0 <= k < |e.children| ==>
              HandleElement(e).tree.children[k] == HandleElement(e.children[k]).tree
  {
    RemoveNothing(e.children, Duplicates(e.children));
    HandleSeqElements(e.children);
  }

  /** After cleaning, no sibling list anywhere in the tree holds two leaves with one fingerprint. */
  lemma {:induction false} CleanedResult(e: Element)
    decreases e
    ensures Cleaned(HandleElement(e).tree)
  {
    var kept := Survivors(e);
    var r := HandleElement(e).tree;
    var p := KeptPositions(Duplicates(e.children));
    SurvivorsExactly(e);
    SurvivorsUnique(e);
    HandleSeqElements(kept);
    forall k | 0 <= k < |r.children| ensures Cleaned(r.children[k]) {
      assert kept[k] == e.children[p[k]];
      CleanedResult(e.children[p[k]]);
    }
    forall a, b | 0 <= a < b < |r.children| && IsLeaf(r.children[a]) && IsLeaf(r.children[b])
      ensures Fingerprint(r.children[a]) != Fingerprint(r.children[b])
    {
      assert r.children[a] == kept[a] && r.children[b] == kept[b];
    }
  }

  /** A tree that is already clean is returned unchanged with a zero count. */
  lemma {:induction false} CleanedFixpoint(e: Element)
    decreases Size(e), 0
    requires Cleaned(e)
    ensures HandleElement(e).tree == e
    ensures HandleElement(e).removed == 0
  {
    var cs := e.children;
    UniqueIffNoDuplicate(cs);
    RemoveNothing(cs, Duplicates(cs));
    NoMarksCount(Duplicates(cs));
    CleanedSeqFixpoint(cs);
  }

  /** A sequence of clean trees is returned unchanged with a zero count. */
  lemma {:induction false} CleanedSeqFixpoint(cs: seq<Element>)
    decreases SizeSeq(cs), 1
    requires forall k :: 0 <= k < |cs| ==> Cleaned(cs[k])
    ensures HandleSeq(cs).trees == cs
    ensures HandleSeq(cs).removed == 0
  {
    if |cs| > 0 {
      var n := |cs| - 1;
      assert SizeSeq(cs) == SizeSeq(cs[..n]) + Size(cs[n]);
      CleanedSeqFixpoint(cs[..n]);
      CleanedFixpoint(cs[n]);
      HandleSeqSnoc(cs);
      FrontLast(cs);
    }
  }

  /** Cleaning twice is cleaning once: the second run changes nothing and removes nothing. */
  lemma {:induction false} Idempotent(e: Element)
    ensures HandleElement(HandleElement(e).tree).tree == HandleElement(e).tree
    ensures HandleElement(HandleElement(e).tree).removed == 0
  {
    CleanedResult(e);
    CleanedFixpoint(HandleElement(e).tree);
  }

  /** A zero count means no child of the top element was marked. */
  lemma ZeroCountTop(e: Element)
    requires HandleElement(e).removed == 0
    ensures CountMarked(Duplicates(e.children)) == 0
  {
    HandleElementCount(e);
  }

  /** A zero count means nothing was removed below the top element. */
  lemma ZeroCountBelow(e: Element)
    requires HandleElement(e).removed == 0
    ensures HandleSeq(Survivors(e)).removed == 0
  {
    HandleElementCount(e);
  }

  /** A sibling list with nothing marked is unique and survives whole. */
  lemma NoMarksUnique(cs: seq<Element>)
    requires CountMarked(Duplicates(cs)) == 0
    ensures SiblingsUnique(cs)
    ensures RemoveMarked(cs, Duplicates(cs)) == cs
  {
    var marks := Duplicates(cs);
    ZeroCountNoMarks(marks);
    forall k | 0 <= k < |cs| ensures !IsDuplicateAt(cs, k) {
      assert !marks[k];
    }
    UniqueIffNoDuplicate(cs);
    RemoveNothing(cs, marks);
  }

  /** A count of zero means the tree was already clean. */
  lemma {:induction false} ZeroCountCleaned(e: Element)
    decreases e
    requires HandleElement(e).removed == 0
    ensures Cleaned(e)
  {
    var cs := e.children;
    ZeroCountTop(e);
    ZeroCountBelow(e);
    NoMarksUnique(cs);
    assert Survivors(e) == cs;
    HandleSeqElements(cs);
    forall k | 0 <= k < |cs| ensures Cleaned(cs[k]) {
      ZeroCountCleaned(cs[k]);
    }
  }

  /** The count is zero exactly when the tree is already clean. */
  lemma {:induction false} NoRemovalIffCleaned(e: Element)
    ensures HandleElement(e).removed == 0 <==> Cleaned(e)
  {
    if HandleElement(e).removed == 0 {
      ZeroCountCleaned(e);
    }
    if Cleaned(e) {
      CleanedFixpoint(e);
    }
  }

  /** Cleaning leaves the tree as it was exactly when the tree is already clean. */
  lemma {:induction false} UnchangedIffCleaned(e: Element)
    ensures HandleElement(e).tree == e <==> Cleaned(e)
  {
    if HandleElement(e).tree == e {
      RemovalsCounted(e);
      assert Size(HandleElement(e).tree) == Size(e);
      ZeroCountCleaned(e);
    }
    if Cleaned(e) {
      CleanedFixpoint(e);
    }
  }

  /**
    A fresh cleaner reports exactly the leaves the document lost, and reports
    zero exactly when the document had no duplicate leaves.
   */
  lemma FreshCleanerReport(root: Element)
    ensures Clean(Fresh, root).0.removed == Leaves(root) - Leaves(Clean(Fresh, root).1)
    ensures Clean(Fresh, root).0.removed == 0 <==> Cleaned(root)
  {
    NoRemovalIffCleaned(root);
  }
}

/**
  The duplicate-leaf remover. At every element, top-down, the direct children
  are scanned in document order; a leaf child whose fingerprint was already
  seen among its earlier leaf siblings is marked, the marked children are
  dropped, and the remaining children are cleaned in turn. The number of
  dropped elements is accumulated in the cleaner's counter.
 */
module Cleaner {
  import opened Elements

  /** Some leaf sibling before position `k` has the fingerprint of `cs[k]`. */
  predicate EarlierTwin(cs: seq<Element>, k: nat)
    requires k < |cs|
  {
    exists j :: 0 <= j < k && IsLeaf(cs[j]) && Fingerprint(cs[j]) == Fingerprint(cs[k])
  }

  /**
    The reference rule: the child at position `k` is removed exactly when it
    is a leaf and an earlier leaf sibling shares its fingerprint.
   */
  predicate IsDuplicateAt(cs: seq<Element>, k: nat)
    requires k < |cs|
  {
    IsLeaf(cs[k]) && EarlierTwin(cs, k)
  }

  /** Number of marked positions. */
  function CountMarked(marks: seq<bool>): nat {
    if |marks| == 0 then 0
    else CountMarked(marks[..|marks| - 1]) + (if marks[|marks| - 1] then 1 else 0)
  }

  lemma EarlierTwinShift(cs: seq<Element>, k: nat)
    requires 1 <= k < |cs|
    ensures EarlierTwin(cs, k) <==>
              (IsLeaf(cs[0]) && Fingerprint(cs[0]) == Fingerprint(cs[k])) || EarlierTwin(cs[1..], k - 1)
  {
    var tail := cs[1..];
    if EarlierTwin(cs, k) {
      var j :| 0 <= j < k && IsLeaf(cs[j]) && Fingerprint(cs[j]) == Fingerprint(cs[k]);
      if j > 0 {
        assert tail[j - 1] == cs[j];
      }
    }
    if EarlierTwin(tail, k - 1) {
      var j :| 0 <= j < k - 1 && IsLeaf(tail[j]) && Fingerprint(tail[j]) == Fingerprint(tail[k - 1]);
      assert cs[j + 1] == tail[j];
    }
  }

  /**
    One pass over a sibling list, in document order, with the set `seen` of
    fingerprints recorded so far: a leaf whose fingerprint is in `seen` is
    marked; a leaf whose fingerprint is new is kept and its fingerprint
    recorded; a container is kept and records nothing.
   */
  function Scan(cs: seq<Element>, seen: set<Attrs>): (marks: seq<bool>)
    ensures |marks| == |cs|
    ensures forall k {:trigger marks[k]} :: 0 <= k < |cs| ==>
              (marks[k] <==> IsLeaf(cs[k]) && (Fingerprint(cs[k]) in seen || EarlierTwin(cs, k)))
  {
    if |cs| == 0 then []
    else
      var rest :=
        if IsLeaf(cs[0]) && Fingerprint(cs[0]) !in seen then Scan(cs[1..], seen + {Fingerprint(cs[0])})
        else Scan(cs[1..], seen);
      var marks := [IsLeaf(cs[0]) && Fingerprint(cs[0]) in seen] + rest;
      assert forall k :: 1 <= k < |cs| ==> marks[k] == rest[k - 1] && cs[1..][k - 1] == cs[k];
      assert forall k :: 1 <= k < |cs| ==>
               (EarlierTwin(cs, k) <==>
                  (IsLeaf(cs[0]) && Fingerprint(cs[0]) == Fingerprint(cs[k])) || EarlierTwin(cs[1..], k - 1))
        by {
          forall k | 1 <= k < |cs| {
            EarlierTwinShift(cs, k);
          }
        }
      marks
  }

  /** The marks the cleaner puts on the children of one element: its scan starts with nothing seen. */
  function Duplicates(cs: seq<Element>): (marks: seq<bool>)
    ensures |marks| == |cs|
    ensures forall k {:trigger marks[k]} :: 0 <= k < |cs| ==> (marks[k] <==> IsDuplicateAt(cs, k))
  {
    Scan(cs, {})
  }

  /** Positions of the unmarked entries, in ascending order. */
  function KeptPositions(marks: seq<bool>): (p: seq<nat>)
    ensures forall k :: 0 <= k < |p| ==> p[k] < |marks| && !marks[p[k]]
    ensures forall i :: 0 <= i < |marks| && !marks[i] ==> i in p
    ensures forall a, b :: 0 <= a < b < |p| ==> p[a] < p[b]
    ensures |p| + CountMarked(marks) == |marks|
  {
    if |marks| == 0 then []
    else
      var n := |marks| - 1;
      KeptPositions(marks[..n]) + (if marks[n] then [] else [n])
  }

  /**
    Deletes the marked children and keeps the others in their order: the
    survivors are exactly the children at the kept positions.
   */
  function RemoveMarked(cs: seq<Element>, marks: seq<bool>): (r: seq<Element>)
    requires |marks| == |cs|
    ensures |r| == |KeptPositions(marks)|
    ensures forall k {:trigger KeptPositions(marks)[k]} :: 0 <= k < |r| ==> r[k] == cs[KeptPositions(marks)[k]]
  {
    if |cs| == 0 then []
    else
      var n := |cs| - 1;
      RemoveMarked(cs[..n], marks[..n]) + (if marks[n] then [] else [cs[n]])
  }

  /** Appending one tree adds its counts. */
  lemma CountsSnoc(cs: seq<Element>, x: Element)
    ensures SizeSeq(cs + [x]) == SizeSeq(cs) + Size(x)
    ensures LeavesSeq(cs + [x]) == LeavesSeq(cs) + Leaves(x)
  {
    assert (cs + [x])[..|cs|] == cs;
  }

  /**
    Deleting children never adds elements; when only leaves are marked, the
    element and leaf counts drop by exactly the number of marks.
   */
  lemma {:induction false} RemoveMarkedCounts(cs: seq<Element>, marks: seq<bool>)
    requires |marks| == |cs|
    ensures SizeSeq(RemoveMarked(cs, marks)) <= SizeSeq(cs)
    ensures (forall k :: 0 <= k < |cs| && marks[k] ==> IsLeaf(cs[k])) ==>
              SizeSeq(RemoveMarked(cs, marks)) + CountMarked(marks) == SizeSeq(cs)
              && LeavesSeq(RemoveMarked(cs, marks)) + CountMarked(marks) == LeavesSeq(cs)
  {
    if |cs| > 0 {
      var n := |cs| - 1;
      var pre, mpre := cs[..n], marks[..n];
      RemoveMarkedCounts(pre, mpre);
      var front := RemoveMarked(pre, mpre);
      var r := RemoveMarked(cs, marks);
      assert SizeSeq(cs) == SizeSeq(pre) + Size(cs[n]);
      assert LeavesSeq(cs) == LeavesSeq(pre) + Leaves(cs[n]);
      assert CountMarked(marks) == CountMarked(mpre) + (if marks[n] then 1 else 0);
      if (forall k :: 0 <= k < |cs| && marks[k] ==> IsLeaf(cs[k])) {
        assert forall k :: 0 <= k < n && mpre[k] ==> IsLeaf(pre[k]) by {
          forall k | 0 <= k < n && mpre[k] ensures IsLeaf(pre[k]) {
            assert pre[k] == cs[k] && mpre[k] == marks[k];
          }
        }
      }
      if marks[n] {
        assert r == front + [];
        assert front + [] == front;
      } else {
        assert r == front + [cs[n]];
        CountsSnoc(front, cs[n]);
      }
    }
  }

  /** The children of `e` that survive the scan of `e`, in document order. */
  function Survivors(e: Element): (r: seq<Element>)
    ensures SizeSeq(r) < Size(e)
    ensures SizeSeq(r) + CountMarked(Duplicates(e.children)) == SizeSeq(e.children)
    ensures LeavesSeq(r) + CountMarked(Duplicates(e.children)) == LeavesSeq(e.children)
    ensures |e.children| > 0 ==> |r| > 0
  {
    var marks := Duplicates(e.children);
    var r := RemoveMarked(e.children, marks);
    RemoveMarkedCounts(e.children, marks);
    assert |e.children| > 0 ==> 0 in KeptPositions(marks);
    r
  }

  /** A cleaned tree and the number of elements removed from it. */
  datatype Cleaning = Cleaning(tree: Element, removed: nat)

  /** A cleaned sequence of trees and the number of elements removed from them. */
  datatype SeqCleaning = SeqCleaning(trees: seq<Element>, removed: nat)

  /**
    Cleans the tree rooted at `e` and returns it with the number of elements
    removed. The root keeps its tag and attributes and a leaf is returned as
    it is.
   */
  function HandleElement(e: Element): (r: Cleaning)
    decreases Size(e), 0
    ensures r.tree.tag == e.tag && r.tree.attrs == e.attrs
    ensures IsLeaf(e) ==> r.tree == e && r.removed == 0
  {
    var cleaned := HandleSeq(Survivors(e));
    Cleaning(Element(e.tag, e.attrs, cleaned.trees), CountMarked(Duplicates(e.children)) + cleaned.removed)
  }

  /** A tree of a sequence is no larger than the whole sequence. */
  lemma {:induction false} MemberSize(cs: seq<Element>, k: nat)
    requires k < |cs|
    ensures Size(cs[k]) <= SizeSeq(cs)
  {
    var n := |cs| - 1;
    if k < n {
      MemberSize(cs[..n], k);
      assert cs[..n][k] == cs[k];
    }
  }

  /** The sum of the counts of a sequence of cleanings. */
  function TotalRemoved(rs: seq<Cleaning>): nat {
    if |rs| == 0 then 0 else TotalRemoved(rs[..|rs| - 1]) + rs[|rs| - 1].removed
  }

  /** The count of an element: its own duplicate children plus the counts of the survivors' subtrees. */
  lemma HandleElementCount(e: Element)
    ensures HandleElement(e).removed == CountMarked(Duplicates(e.children)) + HandleSeq(Survivors(e)).removed
  {
  }

  /** Cleans every tree of a sequence on its own: the scope of one tree never reaches another. */
  function CleanEach(cs: seq<Element>): (rs: seq<Cleaning>)
    decreases SizeSeq(cs), 1
    ensures |rs| == |cs|
  {
    seq(|cs|, k requires 0 <= k < |cs| => (MemberSize(cs, k); HandleElement(cs[k])))
  }

  /** The trees of a sequence of cleanings. */
  function Trees(rs: seq<Cleaning>): (ts: seq<Element>)
    ensures |ts| == |rs| && forall k :: 0 <= k < |rs| ==> ts[k] == rs[k].tree
  {
    seq(|rs|, k requires 0 <= k < |rs| => rs[k].tree)
  }

  lemma TreesSnoc(rs: seq<Cleaning>)
    requires |rs| > 0
    ensures Trees(rs) == Trees(rs[..|rs| - 1]) + [rs[|rs| - 1].tree]
  {
    var n := |rs| - 1;
    assert forall k :: 0 <= k < n ==> rs[..n][k] == rs[k];
  }

  /** Cleans each tree of a sequence and sums the counts. */
  function HandleSeq(cs: seq<Element>): (r: SeqCleaning)
    decreases SizeSeq(cs), 2
    ensures |r.trees| == |cs|
  {
    var rs := CleanEach(cs);
    SeqCleaning(Trees(rs), TotalRemoved(rs))
  }

  /** Each tree of a sequence is cleaned exactly as it would be on its own. */
  lemma CleanEachAt(cs: seq<Element>)
    ensures forall k :: 0 <= k < |cs| ==> HandleSeq(cs).trees[k] == HandleElement(cs[k]).tree
    ensures forall k :: 0 <= k < |cs| ==> CleanEach(cs)[k] == HandleElement(cs[k])
  {
  }

  /** Cleaning the front of a sequence gives the front of the cleaning of the whole. */
  lemma CleanEachFront(cs: seq<Element>, n: nat)
    requires n <= |cs|
    ensures CleanEach(cs)[..n] == CleanEach(cs[..n])
  {
    CleanEachAt(cs);
    CleanEachAt(cs[..n]);
    assert forall k :: 0 <= k < n ==> cs[..n][k] == cs[k];
  }

  /** Cleaning a sequence is cleaning its front and then its last tree. */
  lemma {:induction false} HandleSeqSnoc(cs: seq<Element>)
    requires |cs| > 0
    ensures HandleSeq(cs).trees == HandleSeq(cs[..|cs| - 1]).trees + [HandleElement(cs[|cs| - 1]).tree]
    ensures HandleSeq(cs).removed == HandleSeq(cs[..|cs| - 1]).removed + HandleElement(cs[|cs| - 1]).removed
  {
    var rs := CleanEach(cs);
    CleanEachFront(cs, |cs| - 1);
    CleanEachAt(cs);
    TreesSnoc(rs);
  }

  /**
    The count of a cleaning is exactly the number of elements the tree lost,
    and also exactly the number of leaves it lost: only leaves are removed,
    and a container is never turned into a leaf.
   */
  lemma {:induction false} RemovalsCounted(e: Element)
    decreases Size(e), 0
    ensures IsLeaf(HandleElement(e).tree) <==> IsLeaf(e)
    ensures Size(HandleElement(e).tree) + HandleElement(e).removed == Size(e)
    ensures Leaves(HandleElement(e).tree) + HandleElement(e).removed == Leaves(e)
  {
    var kept := Survivors(e);
    RemovalsCountedSeq(kept);
    var cleaned := HandleSeq(kept);
    assert HandleElement(e).tree.children == cleaned.trees;
    assert |cleaned.trees| == |kept|;
    assert HandleElement(e).removed == CountMarked(Duplicates(e.children)) + cleaned.removed;
  }

  /** The count of cleaning a sequence is what its trees lost, in elements and in leaves. */
  lemma {:induction false} RemovalsCountedSeq(cs: seq<Element>)
    decreases SizeSeq(cs), 1
    ensures SizeSeq(HandleSeq(cs).trees) + HandleSeq(cs).removed == SizeSeq(cs)
    ensures LeavesSeq(HandleSeq(cs).trees) + HandleSeq(cs).removed == LeavesSeq(cs)
  {
    if |cs| > 0 {
      var n := |cs| - 1;
      assert SizeSeq(cs) == SizeSeq(cs[..n]) + Size(cs[n]);
      assert LeavesSeq(cs) == LeavesSeq(cs[..n]) + Leaves(cs[n]);
      RemovalsCountedSeq(cs[..n]);
      RemovalsCounted(cs[n]);
      HandleSeqSnoc(cs);
      CountsSnoc(HandleSeq(cs[..n]).trees, HandleElement(cs[n]).tree);
    } else {
      assert HandleSeq(cs).trees == [];
    }
  }

  /** The tool's cleaner object: a counter of removed elements. */
  datatype Cleaner = Cleaner(removed: nat)

  /** A fresh cleaner has removed nothing. */
  const Fresh: Cleaner := Cleaner(0)

  /**
    Cleans a document: returns the cleaner with its counter advanced and the
    cleaned tree. The counter advances by exactly the number of elements the
    tree lost, which is also the number of leaves it lost.
   */
  function Clean(c: Cleaner, root: Element): (r: (Cleaner, Element))
    ensures r.0.removed == c.removed + (Size(root) - Size(r.1))
    ensures r.0.removed == c.removed + (Leaves(root) - Leaves(r.1))
    ensures Size(r.1) <= Size(root) && Leaves(r.1) <= Leaves(root)
  {
    RemovalsCounted(root);
    var cleaned := HandleElement(root);
    (Cleaner(c.removed + cleaned.removed), cleaned.tree)
  }

  /** The fingerprints of the leaves among the first `i` children. */
  function SeenBefore(cs: seq<Element>, i: nat): (s: set<Attrs>)
    requires i <= |cs|
    ensures forall h :: h in s <==> exists j :: 0 <= j < i && IsLeaf(cs[j]) && Fingerprint(cs[j]) == h
  {
    if i == 0 then {}
    else SeenBefore(cs, i - 1) + (if IsLeaf(cs[i - 1]) then {Fingerprint(cs[i - 1])} else {})
  }

  /**
    The scan loop of one element as the tool writes it: a `seen` set, one
    mark per child and the counter bumped once per marked child. It marks
    exactly the positions of the reference rule.
   */
  method FindDuplicates(cs: seq<Element>) returns (marks: seq<bool>, removed: nat)
    ensures |marks| == |cs|
    ensures forall k :: 0 <= k < |cs| ==> (marks[k] <==> IsDuplicateAt(cs, k))
    ensures removed == CountMarked(marks)
  {
    var seen: set<Attrs> := {};
    marks := [];
    removed := 0;
    var i := 0;
    while i < |cs|
      invariant 0 <= i <= |cs|
      invariant |marks| == i
      invariant seen == SeenBefore(cs, i)
      invariant forall k :: 0 <= k < i ==> (marks[k] <==> IsDuplicateAt(cs, k))
      invariant removed == CountMarked(marks)
    {
      var child := cs[i];
      var duplicate := false;
      if IsLeaf(child) {
        var h := Fingerprint(child);
        if h !in seen {
          seen := seen + {h};
        } else {
          duplicate := true;
          removed := removed + 1;
        }
      }
      assert (marks + [duplicate])[..i] == marks;
      marks := marks + [duplicate];
      i := i + 1;
    }
  }
}

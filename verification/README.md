# svg-diet duplicate-leaf remover, modelled in Dafny

svg-diet shrinks an SVG document by deleting repeated leaf elements. Its
`Cleaner` object holds one counter, `removed`, which starts at zero.
`Cleaner.clean(root)` hands the root to `handle_element`, and that function
works top-down. At each element it:

- scans the direct children in document order;
- fingerprints every leaf child (a child with no children of its own) by its
  attribute mapping alone, ignoring the tag and the subtree;
- keeps the first leaf of each fingerprint and marks every later leaf with
  that fingerprint, adding one to the counter per mark;
- deletes the marked children;
- recurses into the children that remain.

The `seen` set is local to one element, so the uniqueness it enforces is
per sibling list.

The model is functional and split into four modules:

- `Elements` (`elements.dfy`): the document tree. An `Element` has a tag, an
  ordered attribute sequence and a sequence of children. The file also holds
  the fingerprint and the element and leaf counts.
- `Cleaner` (`cleaner.dfy`): the operations.
  - `Scan` is the one-pass scan with a `seen` set, and `Duplicates` is that
    scan started with nothing seen.
  - `FindDuplicates` is the same scan written as the source's loop.
  - `RemoveMarked` and `KeptPositions` delete the marked children.
  - `Survivors` is the child list after deletion.
  - `HandleElement`, `HandleSeq` and `CleanEach` are the recursion.
  - `Clean` threads the `Cleaner` counter.
  - The reference rule `IsDuplicateAt` states which child positions are
    duplicates without any `seen` state.
- `CleanerProperties` (`properties.dfy`): the guarantees. It covers:
  - uniqueness within each sibling list and the first occurrence kept;
  - containers immune and survivors in order;
  - independence across parents and an exact count;
  - idempotence, and the count being zero exactly when the tree is already
    clean.
- `Scenarios` (`scenarios.dfy`): small documents with tags and attributes
  left as parameters. They show:
  - a repeated leaf;
  - two tags with the same attributes;
  - one attribute mapping written in two orders;
  - two identical groups under one root.

The tool changes the tree in place. The model returns the cleaned tree
together with the number of elements removed (`Cleaning(tree, removed)`).
`Clean` returns the advanced `Cleaner` beside the tree.

The fingerprint is the ordered attribute sequence. A fingerprint that
ignores attribute order might be expected; the code's does not ignore it,
because it digests `str(child.attrib)`, and the printed form of a dictionary
follows insertion order. The model follows the code:
`Scenarios.AttributeOrderMatters` shows two leaves that hold the same mapping
in two orders, and both stay.

## Model

| member | source | states |
|---|---|---|
| Elements.IsLeaf | svgdiet.py:20 | A leaf is an element without subelements |
| Elements.Fingerprint | svgdiet.py:21 | The duplicate key is the ordered attribute sequence alone; neither the tag nor the children are part of it |
| Cleaner.Scan | svgdiet.py:16-26 | With a set `seen` of fingerprints already recorded, a child is marked exactly when it is a leaf and its fingerprint is either in `seen` or carried by an earlier leaf sibling; there is one mark per child |
| Cleaner.Duplicates | svgdiet.py:16-26 | The scan started with an empty `seen` marks exactly the positions of the reference rule: a leaf with an earlier leaf sibling of equal fingerprint |
| Cleaner.SeenBefore | svgdiet.py:16-23 | The `seen` set after the first `i` children holds exactly the fingerprints of the leaves among them |
| Cleaner.FindDuplicates | svgdiet.py:16-26 | The imperative scan loop marks exactly the reference-rule duplicates, and its counter equals the number of marks |
| Cleaner.KeptPositions | svgdiet.py:28-29 | The kept positions are exactly the unmarked positions, strictly ascending, and their number plus the number of marks is the number of children |
| Cleaner.RemoveMarked | svgdiet.py:28-29 | Deleting the marked children leaves exactly the children at the kept positions, in their order |
| Cleaner.RemoveMarkedCounts | svgdiet.py:28-29 | Deletion never adds elements; when only leaves are marked, the element count and the leaf count each fall by the number of marks |
| Cleaner.Survivors | svgdiet.py:16-29 | After the scan and deletion at one element, its children lose exactly as many elements, and as many leaves, as were marked; a non-empty child list stays non-empty |
| Cleaner.HandleElement | svgdiet.py:15-32 | Cleaning keeps the element's tag and attributes, and a leaf comes back unchanged with nothing removed |
| Cleaner.HandleSeq | svgdiet.py:31-32 | Cleaning a list of trees keeps one tree per input tree |
| Cleaner.CleanEach | svgdiet.py:31-32 | There is one cleaning per tree of the list |
| Cleaner.HandleSeqSnoc | svgdiet.py:31-32 | Cleaning a list of trees is cleaning its front and then its last tree, with the counts added |
| Cleaner.RemovalsCounted | svgdiet.py:15-32 | The count for a tree equals the number of elements it lost and also the number of leaves it lost; a container never becomes a leaf |
| Cleaner.RemovalsCountedSeq | svgdiet.py:31-32 | For a list of trees, the summed count equals the elements lost and the leaves lost |
| Cleaner.Fresh | svgdiet.py:9-10 | A new cleaner's counter is zero |
| Cleaner.Clean | svgdiet.py:12-13 | The cleaner's counter advances by exactly the number of elements, and of leaves, that the document lost; the document never grows |
| CleanerProperties.UniqueIffNoDuplicate | svgdiet.py:16-26 | A sibling list has pairwise distinct leaf fingerprints exactly when no position is a duplicate under the reference rule |
| CleanerProperties.RemoveNothing | svgdiet.py:28-29 | With no marks, deletion keeps every child |
| CleanerProperties.TotalRemovedBound | svgdiet.py:26 | No single subtree's count exceeds the total count of the list |
| CleanerProperties.HandleSeqElements | svgdiet.py:31-32 | Each tree of a cleaned list is that tree cleaned alone, and its count is at most the list's count |
| CleanerProperties.SurvivorsExactly | svgdiet.py:18-29 | The survivors are the children at an ascending list of positions, and a position is on that list exactly when it is not a duplicate: containers and first occurrences stay, every later leaf of a fingerprint goes |
| CleanerProperties.ContainerSurvives | svgdiet.py:20 | A child that has children of its own survives, whatever its attributes |
| CleanerProperties.FirstOccurrence | svgdiet.py:18-25 | Every leaf has a first occurrence of its fingerprint at or before it, with no earlier twin |
| CleanerProperties.EveryFingerprintKept | svgdiet.py:18-29 | No fingerprint is lost: for every leaf child, some surviving leaf carries its attributes |
| CleanerProperties.SurvivorsUnique | svgdiet.py:16-29 | After the scan and deletion at one element, its surviving leaves have pairwise distinct fingerprints |
| CleanerProperties.FewLeavesKept | svgdiet.py:16-29 | An element with fewer than two leaf children keeps all of its children, and none is counted at that level |
| CleanerProperties.CleanedChildren | svgdiet.py:15-32 | The children of the cleaned element are the non-duplicate children of the original, in their order, each cleaned exactly as it would be on its own: no sibling takes part in cleaning another's subtree |
| CleanerProperties.ContainerChildrenIndependent | svgdiet.py:16-32 | When no child is a leaf, every child is kept and each is cleaned independently of its siblings |
| CleanerProperties.CleanedResult | svgdiet.py:15-32 | After cleaning, no sibling list anywhere in the tree has two leaves with one fingerprint |
| CleanerProperties.CleanedFixpoint | svgdiet.py:15-32 | A tree with no duplicate leaves in any sibling list comes back unchanged with a zero count |
| CleanerProperties.CleanedSeqFixpoint | svgdiet.py:31-32 | A list of such trees comes back unchanged with a zero count |
| CleanerProperties.Idempotent | svgdiet.py:15-32 | Cleaning a cleaned tree changes nothing and removes nothing |
| CleanerProperties.ZeroCountCleaned | svgdiet.py:15-32 | A zero count means the tree already had no duplicate leaves anywhere |
| CleanerProperties.NoRemovalIffCleaned | svgdiet.py:15-32 | The count is zero if and only if the tree already had no duplicate leaves |
| CleanerProperties.UnchangedIffCleaned | svgdiet.py:15-32 | Cleaning leaves the tree as it was if and only if it had no duplicate leaves |
| CleanerProperties.FreshCleanerReport | svgdiet.py:8-13 | A fresh cleaner reports the number of leaves the document lost, and reports zero if and only if the document had no duplicate leaves |
| Scenarios.LeavesUntouched | svgdiet.py:15-32 | A list of leaves, each cleaned on its own, is unchanged with a zero count |
| Scenarios.RepeatedLeaf | svgdiet.py:18-29 | Of leaves `a, a, b` the second goes, the others stay in order, and the count is one |
| Scenarios.TagIsIgnored | svgdiet.py:21 | A leaf repeating an earlier sibling's attributes under a different tag is still removed |
| Scenarios.AttributeOrderMatters | svgdiet.py:21 | The same two attributes in two orders are different fingerprints: both leaves stay and nothing is counted |
| Scenarios.GroupDropsRepeat | svgdiet.py:18-29 | A group of two identical leaves keeps one of them, with a count of one |
| Scenarios.ContainerPairKept | svgdiet.py:20 | Two equal container children are both kept and neither is counted |
| Scenarios.CopiesCleanedAlike | svgdiet.py:31-32 | Two copies of a tree side by side are each cleaned as the tree alone, and the counts add |
| Scenarios.GroupsCleanedIndependently | svgdiet.py:15-32 | Two identical groups under one root each drop their own repeat; the leaves left in the two groups are equal but both stay, since they have different parents; the count is two |
| Scenarios.EmptyRoot | svgdiet.py:8-32 | A root without children comes back unchanged, and a fresh cleaner then reports zero |

## Left out

- `sizeof_fmt` and `get_file_size` (svgdiet.py:35-46) are left out: they are floating-point size formatting and a file-system size query.
- `main` (svgdiet.py:49-81) is left out. It is the command line, namespace registration, XML parsing and writing, file-existence checks and `exit`, all of it I/O. In it, the check that the input exists (line 65) runs only after the input has been parsed (line 62), so a missing input fails in the parser instead.
- The fingerprint is the MD5 digest of the printed attribute dictionary (svgdiet.py:21). It is modelled as the ordered attribute sequence itself, which assumes that digest and printing are injective. MD5 collisions are not modelled.
- Distinct attribute names within one element, which a Python dictionary guarantees, are not required of `Attrs`. No property depends on them.
- `element.remove` deletes by object identity (svgdiet.py:29). It is modelled as deleting the marked positions, which is the same thing for a list of distinct child objects.
- The counter is bumped during the scan (svgdiet.py:26) in document order. The model sums the per-subtree counts instead. The order of the additions cannot be observed.
- `handle_element` mutates the tree and returns nothing. The model returns the cleaned tree and the count, and `Clean` returns the advanced cleaner beside the tree.
- Cleaner.HandleSeq: its own contract states only the length of the result; what each tree becomes is stated by `CleanerProperties.HandleSeqElements` and `CleanerProperties.CleanedChildren`.
- Cleaner.CleanEach: its own contract states only the length of the result, for the same reason; `CleanerProperties.HandleSeqElements` states what each cleaning is.
- Text content and tails are not modelled: an `Element` has no `text` or `tail`. The leaf test (svgdiet.py:20) counts only subelements and the fingerprint (svgdiet.py:21) reads only the attributes, so the tool removes a later leaf such as `<text x="0">B</text>` after `<text x="0">A</text>`, and its text and tail go with it. In the model those two leaves are simply equal-fingerprint leaves.
- Recursion depth is not modelled. `handle_element` recurses once per nesting level (svgdiet.py:31-32), so a document nested deeper than the interpreter's recursion limit (about 1000 frames by default) raises `RecursionError` part-way, after some children have already been deleted and the counter raised. The model is total and always finishes the whole tree.

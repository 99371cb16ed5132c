/** The tree builder: the selection sort of the node list by frequency (sort)
    and the tree-building part of createHuffmanTree, which makes one leaf per
    distinct character and then repeatedly joins the two front nodes of the
    sorted list under a new node until one node is left. */
module Builder {
  import opened Seqs
  import opened Wrappers
  import opened Tree
  import opened Frequency

  /** Frequencies never decrease from front to back. */
  ghost predicate SortedByFreq(s: seq<Node>) {
    forall i, j :: 0 <= i < j < |s| ==> s[i].freq <= s[j].freq
  }

  /** The position the inner loop of the selection sort settles on: a later node
      replaces the current choice only when its frequency is strictly smaller. */
  function FirstMin(s: seq<Node>): (m: nat)
    requires |s| > 0
    ensures m < |s|
  {
    if |s| == 1 then 0
    else
      var m := FirstMin(s[..|s| - 1]);
      if s[|s| - 1].freq < s[m].freq then |s| - 1 else m
  }

  /** FirstMin is the FIRST node of least frequency: no node is lighter, and
      every node before it is strictly heavier. */
  lemma {:induction false} FirstMinIsFirstLeast(s: seq<Node>)
    requires |s| > 0
    ensures forall k :: 0 <= k < |s| ==> s[FirstMin(s)].freq <= s[k].freq
    ensures forall k :: 0 <= k < FirstMin(s) ==> s[k].freq > s[FirstMin(s)].freq
    decreases |s|
  {
    if |s| > 1 {
      FirstMinIsFirstLeast(s[..|s| - 1]);
    }
  }

  /** Reference definition of the selection sort's outcome: the first node of
      least frequency is swapped with the front node, and the remainder is sorted
      the same way. The swap moves the old front node behind nodes of equal
      frequency, so the order is not stable (see SortIsNotStable). */
  function SelectionSorted(s: seq<Node>): seq<Node>
    decreases |s|
  {
    if s == [] then [] else [s[FirstMin(s)]] + SelectionSorted(s[FirstMin(s) := s[0]][1..])
  }

  /** Swapping the front node with the one at m and dropping the front leaves
      the nodes other than s[m]. */
  lemma SwapRest(s: seq<Node>, m: nat)
    requires m < |s|
    ensures multiset(s[m := s[0]][1..]) + multiset{s[m]} == multiset(s)
  {
    if m == 0 {
      assert s == [s[0]] + s[m := s[0]][1..];
    } else {
      assert s == [s[0]] + s[1..m] + [s[m]] + s[m + 1..];
      assert s[m := s[0]][1..] == s[1..m] + [s[0]] + s[m + 1..];
    }
  }

  /** The selection sort returns a permutation of its input. */
  lemma {:induction false} SelectionSortedPermutes(s: seq<Node>)
    ensures multiset(SelectionSorted(s)) == multiset(s)
    decreases |s|
  {
    if s != [] {
      var m := FirstMin(s);
      var rest := s[m := s[0]][1..];
      SelectionSortedPermutes(rest);
      SwapRest(s, m);
      assert SelectionSorted(s) == [s[m]] + SelectionSorted(rest);
    }
  }

  /** The selection sort orders its input by non-decreasing frequency. */
  lemma {:induction false} SelectionSortedOrders(s: seq<Node>)
    ensures SortedByFreq(SelectionSorted(s))
    decreases |s|
  {
    if s != [] {
      var m := FirstMin(s);
      var rest := s[m := s[0]][1..];
      var sortedRest := SelectionSorted(rest);
      SelectionSortedOrders(rest);
      SelectionSortedPermutes(rest);
      FirstMinIsFirstLeast(s);
      SwapRest(s, m);
      forall k | 0 <= k < |sortedRest|
        ensures s[m].freq <= sortedRest[k].freq
      {
        assert sortedRest[k] in multiset(rest);
        assert sortedRest[k] in s;
      }
      var r := [s[m]] + sortedRest;
      assert SelectionSorted(s) == r;
      forall i, j | 0 <= i < j < |r|
        ensures r[i].freq <= r[j].freq
      {
        assert r[j] == sortedRest[j - 1];
        if i > 0 {
          assert r[i] == sortedRest[i - 1];
        }
      }
    }
  }

  lemma SelectionSortedIsSortedPermutation(s: seq<Node>)
    ensures SortedByFreq(SelectionSorted(s)) && multiset(SelectionSorted(s)) == multiset(s)
  {
    SelectionSortedPermutes(s);
    SelectionSortedOrders(s);
  }

  /** Two leaves of equal frequency come out in the opposite order. */
  lemma SortIsNotStable()
    ensures SelectionSorted([Leaf('a', 1), Leaf('b', 1), Leaf('c', 0)])
         == [Leaf('c', 0), Leaf('b', 1), Leaf('a', 1)]
  {
    var s := [Leaf('a', 1), Leaf('b', 1), Leaf('c', 0)];
    assert FirstMin(s[..2]) == 0;
    assert FirstMin(s) == 2;
    var rest := s[2 := s[0]][1..];
    assert rest == [Leaf('b', 1), Leaf('a', 1)];
    assert FirstMin(rest) == 0;
    assert rest[0 := rest[0]][1..] == [Leaf('a', 1)];
    assert SelectionSorted([Leaf('a', 1)]) == [Leaf('a', 1)];
  }

  /** Extending the scanned range by one node keeps the earlier choice unless
      the new node is strictly lighter. */
  lemma FirstMinExtend(a: seq<Node>, i: nat, j: nat)
    requires i < j < |a|
    ensures FirstMin(a[i..j + 1])
         == if a[j].freq < a[i + FirstMin(a[i..j])].freq then j - i else FirstMin(a[i..j])
  {
    assert a[i..j + 1][..j - i] == a[i..j];
  }

  /** One round of the selection sort: swapping the first least node of
      before[i..] into position i fixes one more position of the outcome. */
  lemma SortStep(before: seq<Node>, i: nat, p: nat, after: seq<Node>)
    requires i <= p < |before| && p - i == FirstMin(before[i..])
    requires after == before[p := before[i]][i := before[p]]
    ensures after[..i + 1] + SelectionSorted(after[i + 1..])
         == before[..i] + SelectionSorted(before[i..])
  {
    var s := before[i..];
    assert after[..i + 1] == before[..i] + [s[p - i]];
    assert after[i + 1..] == s[p - i := s[0]][1..];
  }

  /** sort: selection sort of the node list in place. Position i receives the
      first least node of list[i..], swapped with the node that was there. */
  method Sort(list: array<Node>)
    modifies list
    ensures list[..] == SelectionSorted(old(list[..]))
    ensures SortedByFreq(list[..]) && multiset(list[..]) == multiset(old(list[..]))
  {
    ghost var target := SelectionSorted(list[..]);
    assert list[..0] + SelectionSorted(list[0..]) == target by {
      assert list[0..] == list[..];
    }
    for i := 0 to list.Length
      invariant list[..i] + SelectionSorted(list[i..]) == target
    {
      ghost var before := list[..];
      var newPosition := i;
      for j := i to list.Length
        invariant list[..] == before
        invariant i <= newPosition < list.Length
        invariant j == i ==> newPosition == i
        invariant j > i ==> newPosition == i + FirstMin(list[i..j])
      {
        if j > i {
          FirstMinExtend(list[..], i, j);
        }
        if list[j].freq < list[newPosition].freq {
          newPosition := j;
        }
      }
      assert list[i..list.Length] == list[i..];
      assert before[..i] == list[..i] && before[i..] == list[i..];
      assert before[..i] + SelectionSorted(before[i..]) == target;
      var min := list[newPosition];
      list[newPosition] := list[i];
      list[i] := min;
      ghost var after := list[..];
      SortStep(before, i, newPosition, after);
      assert after[..i + 1] == list[..i + 1] && after[i + 1..] == list[i + 1..];
      assert after[..i + 1] + SelectionSorted(after[i + 1..]) == target;
    }
    assert list[..list.Length] == list[..];
    SelectionSortedIsSortedPermutation(old(list[..]));
  }

  /** list = sort(list) on the forest: the list is sorted in place as an array. */
  method SortForest(forest: seq<Node>) returns (sorted: seq<Node>)
    ensures sorted == SelectionSorted(forest)
    ensures SortedByFreq(sorted) && multiset(sorted) == multiset(forest)
    ensures |sorted| == |forest|
  {
    var list := new Node[|forest|](i requires 0 <= i < |forest| => forest[i]);
    assert list[..] == forest;
    Sort(list);
    sorted := list[..];
  }

  lemma {:induction false} LeavesOfLeaves(leaves: seq<Node>)
    requires forall i :: 0 <= i < |leaves| ==> leaves[i].Leaf?
    ensures FlatMap(leaves, Leaves) == leaves
    decreases |leaves|
  {
    if leaves != [] {
      LeavesOfLeaves(leaves[1..]);
      assert leaves == [leaves[0]] + leaves[1..];
    }
  }

  /** What the merge loop keeps: every tree of the forest is well formed, the
      forest's leaves are the initial leaves, and its frequencies add up to
      theirs. */
  ghost predicate ForestKeeps(forest: seq<Node>, leaves: seq<Node>) {
    && (forall i :: 0 <= i < |forest| ==> WellFormed(forest[i]))
    && multiset(FlatMap(forest, Leaves)) == multiset(leaves)
    && SumOf(forest, Freq) == SumOf(leaves, Freq)
  }

  lemma ForestKeepsInitially(leaves: seq<Node>, forest: seq<Node>)
    requires forall i :: 0 <= i < |leaves| ==> leaves[i].Leaf?
    requires multiset(forest) == multiset(leaves)
    ensures ForestKeeps(forest, leaves)
  {
    LeavesOfLeaves(leaves);
    PermFlatMap(leaves, forest, Leaves);
    PermSumOf(leaves, forest, Freq);
    forall i | 0 <= i < |forest|
      ensures WellFormed(forest[i])
    {
      assert forest[i] in multiset(leaves);
    }
  }

  /** Joining the two front trees and re-sorting keeps the merge invariant. */
  lemma ForestKeepsAfterJoin(prev: seq<Node>, next: seq<Node>, leaves: seq<Node>)
    requires |prev| >= 2 && ForestKeeps(prev, leaves)
    requires multiset(next)
          == multiset(prev[2..] + [Internal(prev[0].freq + prev[1].freq, prev[0], prev[1])])
    ensures ForestKeeps(next, leaves)
  {
    var joined := Internal(prev[0].freq + prev[1].freq, prev[0], prev[1]);
    var unsorted := prev[2..] + [joined];
    JoinKeepsLeaves(prev, joined);
    PermFlatMap(unsorted, next, Leaves);
    JoinKeepsSum(prev, joined);
    PermSumOf(unsorted, next, Freq);
    JoinKeepsWellFormed(prev, next);
  }

  lemma JoinKeepsWellFormed(prev: seq<Node>, next: seq<Node>)
    requires |prev| >= 2 && forall i :: 0 <= i < |prev| ==> WellFormed(prev[i])
    requires multiset(next)
          == multiset(prev[2..] + [Internal(prev[0].freq + prev[1].freq, prev[0], prev[1])])
    ensures forall i :: 0 <= i < |next| ==> WellFormed(next[i])
  {
    var joined := Internal(prev[0].freq + prev[1].freq, prev[0], prev[1]);
    assert WellFormed(prev[0]) && WellFormed(prev[1]);
    forall i | 0 <= i < |next|
      ensures WellFormed(next[i])
    {
      assert next[i] in multiset(prev[2..] + [joined]);
      if next[i] != joined {
        var k :| 0 <= k < |prev[2..]| && prev[2..][k] == next[i];
        assert prev[k + 2] == next[i];
      }
    }
  }

  lemma JoinKeepsLeaves(prev: seq<Node>, joined: Node)
    requires |prev| >= 2 && joined == Internal(prev[0].freq + prev[1].freq, prev[0], prev[1])
    ensures multiset(FlatMap(prev[2..] + [joined], Leaves)) == multiset(FlatMap(prev, Leaves))
  {
    var rest := prev[2..];
    FlatMapAppend(rest, [joined], Leaves);
    assert [joined][1..] == [];
    assert FlatMap([joined], Leaves) == Leaves(joined) + [];
    assert prev[1..][1..] == rest;
    assert FlatMap(prev[1..], Leaves) == Leaves(prev[1]) + FlatMap(rest, Leaves);
    assert FlatMap(prev, Leaves) == Leaves(prev[0]) + FlatMap(prev[1..], Leaves);
  }

  lemma JoinKeepsSum(prev: seq<Node>, joined: Node)
    requires |prev| >= 2 && joined == Internal(prev[0].freq + prev[1].freq, prev[0], prev[1])
    ensures SumOf(prev[2..] + [joined], Freq) == SumOf(prev, Freq)
  {
    var rest := prev[2..];
    SumOfAppend(rest, [joined], Freq);
    assert [joined][1..] == [];
    assert SumOf([joined], Freq) == joined.freq + 0;
    assert prev[1..][1..] == rest;
    assert SumOf(prev[1..], Freq) == prev[1].freq + SumOf(rest, Freq);
    assert SumOf(prev, Freq) == prev[0].freq + SumOf(prev[1..], Freq);
  }

  lemma ForestKeepsAtEnd(root: Node, leaves: seq<Node>)
    requires ForestKeeps([root], leaves)
    ensures WellFormed(root)
    ensures multiset(Leaves(root)) == multiset(leaves)
    ensures root.freq == SumOf(leaves, Freq)
  {
    var f := [root];
    assert f[0] == root;
    assert WellFormed(root);
    assert f[1..] == [];
    assert FlatMap(f[1..], Leaves) == [];
    assert FlatMap(f, Leaves) == Leaves(root) + [];
    assert Leaves(root) + [] == Leaves(root);
    assert SumOf(f, Freq) == root.freq + 0;
  }

  /** The node a merge round puts above the two front nodes: frequency the sum
      of theirs, the first as left child and the second as right child. */
  function Join(first: Node, second: Node): Node {
    Internal(first.freq + second.freq, first, second)
  }

  lemma {:induction false} SelectionSortedLength(s: seq<Node>)
    ensures |SelectionSorted(s)| == |s|
  {
    SelectionSortedPermutes(s);
    assert |multiset(SelectionSorted(s))| == |multiset(s)|;
  }

  /** One round of the merge loop: take the two front nodes, join them, append
      the joined node and sort again. The forest shrinks by exactly one. */
  function MergeRound(f: seq<Node>): (r: seq<Node>)
    requires |f| >= 2
    ensures |r| == |f| - 1
  {
    SelectionSortedLength(f[2..] + [Join(f[0], f[1])]);
    SelectionSorted(f[2..] + [Join(f[0], f[1])])
  }

  /** Reference definition of the merge loop: rounds until fewer than two
      nodes are left. A non-empty forest ends as a single tree. */
  function HuffmanMerge(f: seq<Node>): (r: seq<Node>)
    ensures |r| == if f == [] then 0 else 1
    decreases |f|
  {
    if |f| < 2 then f else HuffmanMerge(MergeRound(f))
  }

  /** The root the tree builder ends with for a list of leaves: none for fewer
      than two leaves, otherwise the single tree left after merging the sorted
      leaves. */
  function MergedRoot(leaves: seq<Node>): Option<Node> {
    if |leaves| < 2 then None
    else
      SelectionSortedLength(leaves);
      Some(HuffmanMerge(SelectionSorted(leaves))[0])
  }

  /** In a forest sorted by frequency, a merge round joins two nodes of least
      frequency (the first no heavier than the second, both no heavier than any
      other node), and leaves the remaining nodes plus the joined one, sorted. */
  lemma MergeRoundJoinsTwoLeast(f: seq<Node>)
    requires |f| >= 2 && SortedByFreq(f)
    ensures f[0].freq <= f[1].freq
    ensures forall i :: 2 <= i < |f| ==> f[1].freq <= f[i].freq
    ensures multiset(MergeRound(f)) == multiset(f[2..] + [Join(f[0], f[1])])
    ensures SortedByFreq(MergeRound(f))
  {
    SelectionSortedIsSortedPermutation(f[2..] + [Join(f[0], f[1])]);
  }

  /** Every merge round keeps the merge invariant, so the merged forest still
      has the initial leaves and their total frequency. */
  lemma {:induction false} HuffmanMergeKeeps(f: seq<Node>, leaves: seq<Node>)
    requires ForestKeeps(f, leaves)
    ensures ForestKeeps(HuffmanMerge(f), leaves)
    decreases |f|
  {
    if |f| >= 2 {
      SelectionSortedPermutes(f[2..] + [Join(f[0], f[1])]);
      ForestKeepsAfterJoin(f, MergeRound(f), leaves);
      HuffmanMergeKeeps(MergeRound(f), leaves);
    }
  }

  /** Merging at least two nodes ends in a joined node. */
  lemma {:induction false} HuffmanMergeJoined(f: seq<Node>)
    requires |f| >= 2
    ensures HuffmanMerge(f)[0].Internal?
    decreases |f|
  {
    var g := MergeRound(f);
    if |g| >= 2 {
      HuffmanMergeJoined(g);
    } else {
      var joined := Join(f[0], f[1]);
      SelectionSortedPermutes(f[2..] + [joined]);
      assert f[2..] == [];
      assert g[0] in multiset(g);
      assert multiset(g) == multiset{joined};
    }
  }

  /** The tree merged from a list of leaves is a well-formed joined tree whose
      leaves are the given leaves and whose frequency is the sum of theirs. */
  lemma MergedRootKeeps(leaves: seq<Node>)
    requires forall i :: 0 <= i < |leaves| ==> leaves[i].Leaf?
    ensures MergedRoot(leaves).Some? ==> MergedRoot(leaves).value.Internal?
    ensures MergedRoot(leaves).Some? ==> WellFormed(MergedRoot(leaves).value)
    ensures MergedRoot(leaves).Some? ==> multiset(Leaves(MergedRoot(leaves).value)) == multiset(leaves)
    ensures MergedRoot(leaves).Some? ==> MergedRoot(leaves).value.freq == SumOf(leaves, Freq)
  {
    if |leaves| >= 2 {
      var sorted := SelectionSorted(leaves);
      SelectionSortedPermutes(leaves);
      SelectionSortedLength(leaves);
      ForestKeepsInitially(leaves, sorted);
      HuffmanMergeKeeps(sorted, leaves);
      HuffmanMergeJoined(sorted);
      var merged := HuffmanMerge(sorted);
      assert merged == [merged[0]];
      ForestKeepsAtEnd(merged[0], leaves);
    }
  }

  /** The merge loop of createHuffmanTree over the initial leaves: sort, then
      while more than one node is left, take the two front nodes, join them under
      a new node whose frequency is the sum of theirs, append it and sort again.
      The result is the reference MergedRoot: unset (None, the error path)
      exactly when there are fewer than two leaves, and otherwise a well-formed
      joined tree whose leaves are the initial leaves (as a multiset) and whose
      frequency is the sum of theirs. */
  method MergeForest(leaves: seq<Node>) returns (root: Option<Node>)
    requires forall i :: 0 <= i < |leaves| ==> leaves[i].Leaf?
    ensures root == MergedRoot(leaves)
    ensures root.None? <==> |leaves| < 2
    ensures root.Some? ==> root.value.Internal? && WellFormed(root.value)
    ensures root.Some? ==> multiset(Leaves(root.value)) == multiset(leaves)
    ensures root.Some? ==> root.value.freq == SumOf(leaves, Freq)
  {
    var forest := SortForest(leaves);
    root := None;
    ghost var merges := 0;
    while |forest| > 1
      invariant HuffmanMerge(forest) == HuffmanMerge(SelectionSorted(leaves))
      invariant SortedByFreq(forest)
      invariant |forest| + merges == |leaves|
      invariant |leaves| > 0 ==> |forest| > 0
      invariant root.None? <==> merges == 0
      invariant root.Some? ==> root.value in forest
      decreases |forest|
    {
      ghost var prev := forest;
      var firstMinimum := forest[0];
      forest := forest[1..];
      var secondMinimum := forest[0];
      forest := forest[1..];
      var joined := Internal(firstMinimum.freq + secondMinimum.freq, firstMinimum, secondMinimum);
      root := Some(joined);
      forest := forest + [joined];
      ghost var unsorted := forest;
      forest := SortForest(forest);
      merges := merges + 1;
      assert unsorted == prev[2..] + [Join(prev[0], prev[1])];
      assert forest == MergeRound(prev);
      assert joined in multiset(unsorted);
    }
    if root.Some? {
      assert forest == [root.value];
      assert HuffmanMerge(forest) == forest;
    }
    MergedRootKeeps(leaves);
  }

  datatype BuildError = FewerThanTwoCharacters

  /** What a tree built from text satisfies: its root is a joined node, every
      joined node carries the sum of its children's frequencies, its leaves hold
      each character of the text exactly once and no other, each leaf's frequency
      is its character's count, and the root's frequency is the text's length. */
  ghost predicate FitsText(t: Node, text: seq<char>) {
    && t.Internal?
    && WellFormed(t)
    && NoDuplicates(Symbols(t))
    && (forall c :: c in Symbols(t) <==> c in text)
    && (forall i :: 0 <= i < |Leaves(t)| ==> Leaves(t)[i].freq == multiset(text)[Leaves(t)[i].ch])
    && t.freq == |text|
  }

  lemma {:induction false} LeafFrequenciesTotal(chars: seq<char>, freqs: seq<nat>, leaves: seq<Node>)
    requires |chars| == |freqs| == |leaves|
    requires forall k :: 0 <= k < |leaves| ==> leaves[k] == Leaf(chars[k], freqs[k])
    ensures SumOf(leaves, Freq) == Total(freqs)
    ensures Map(leaves, Symbol) == chars
    decreases |leaves|
  {
    if leaves != [] {
      LeafFrequenciesTotal(chars[1..], freqs[1..], leaves[1..]);
    }
  }

  /** The merged tree of the leaves built from a text's distinct characters and
      their counts is a Huffman tree for that text. */
  lemma MergedTreeFits(text: seq<char>, chars: seq<char>, freqs: seq<nat>, list: seq<Node>, t: Node)
    requires NoDuplicates(chars) && (forall c :: c in chars <==> c in text)
    requires |freqs| == |chars| && forall i :: 0 <= i < |chars| ==> freqs[i] == multiset(text)[chars[i]]
    requires Total(freqs) == |text|
    requires |list| == |chars| && forall k :: 0 <= k < |list| ==> list[k] == Leaf(chars[k], freqs[k])
    requires t.Internal? && WellFormed(t)
    requires multiset(Leaves(t)) == multiset(list) && t.freq == SumOf(list, Freq)
    ensures FitsText(t, text)
  {
    LeafFrequenciesTotal(chars, freqs, list);
    LeafSymbols(t, list, chars, text);
    LeafCounts(t, list, chars, freqs, text);
  }

  lemma LeafSymbols(t: Node, list: seq<Node>, chars: seq<char>, text: seq<char>)
    requires NoDuplicates(chars) && (forall c :: c in chars <==> c in text)
    requires multiset(Leaves(t)) == multiset(list) && Map(list, Symbol) == chars
    ensures NoDuplicates(Symbols(t))
    ensures forall c :: c in Symbols(t) <==> c in text
  {
    PermMap(Leaves(t), list, Symbol);
    PermNoDuplicates(Symbols(t), chars);
    forall c
      ensures c in Symbols(t) <==> c in text
    {
      assert c in Symbols(t) <==> c in multiset(Symbols(t));
      assert c in chars <==> c in multiset(chars);
    }
  }

  lemma LeafCounts(t: Node, list: seq<Node>, chars: seq<char>, freqs: seq<nat>, text: seq<char>)
    requires |freqs| == |chars| && forall i :: 0 <= i < |chars| ==> freqs[i] == multiset(text)[chars[i]]
    requires |list| == |chars| && forall k :: 0 <= k < |list| ==> list[k] == Leaf(chars[k], freqs[k])
    requires multiset(Leaves(t)) == multiset(list)
    ensures forall i :: 0 <= i < |Leaves(t)| ==> Leaves(t)[i].freq == multiset(text)[Leaves(t)[i].ch]
  {
    forall i | 0 <= i < |Leaves(t)|
      ensures Leaves(t)[i].freq == multiset(text)[Leaves(t)[i].ch]
    {
      assert Leaves(t)[i] in multiset(list);
      var k :| 0 <= k < |list| && list[k] == Leaves(t)[i];
    }
  }

  /** The leaves the tree builder starts from: one per distinct character of
      the text, in order of first occurrence, carrying its count. */
  function InitialLeaves(text: seq<char>): (leaves: seq<Node>)
    ensures |leaves| == |Distinct(text)|
    ensures forall i :: 0 <= i < |leaves| ==> leaves[i].Leaf?
  {
    seq(|Distinct(text)|, i requires 0 <= i < |Distinct(text)| =>
      Leaf(Distinct(text)[i], multiset(text)[Distinct(text)[i]]))
  }

  /** Reference definition of the tree built from a text: the merge of its
      initial leaves, none when fewer than two distinct characters occur. */
  function BuildTree(text: seq<char>): Option<Node> {
    MergedRoot(InitialLeaves(text))
  }

  /** The tree-building part of createHuffmanTree: characters and frequencies,
      one leaf per character, the merge loop, and the failure (the Java code
      prints a message and exits) when fewer than two distinct characters occur. */
  method CreateHuffmanTree(lines: seq<seq<char>>) returns (r: Result<Node, BuildError>)
    ensures r.Failure? <==> |Distinct(Flatten(lines))| < 2
    ensures r.Success? ==> Some(r.value) == BuildTree(Flatten(lines))
    ensures r.Success? ==> FitsText(r.value, Flatten(lines))
  {
    var charArray := CharactersOf(lines);
    var charFreqArray := FrequenciesOf(lines, charArray);
    var n := |charArray|;
    var list: seq<Node> := [];
    for i := 0 to n
      invariant |list| == i
      invariant forall k :: 0 <= k < i ==> list[k] == Leaf(charArray[k], charFreqArray[k])
    {
      list := list + [Leaf(charArray[i], charFreqArray[i])];
    }
    assert list == InitialLeaves(Flatten(lines));
    var root := MergeForest(list);
    if root.None? {
      return Failure(FewerThanTwoCharacters);
    }
    var t := root.value;
    MergedTreeFits(Flatten(lines), charArray, charFreqArray, list, t);
    return Success(t);
  }
}

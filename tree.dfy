/** The Huffman tree node (HuffmanTreeNode) and the structural facts about it
    that the builder, the code table and the decoder share. */
module Tree {
  import opened Seqs
  import opened Wrappers

  /** A node of the tree. In the Java class a node whose two children are null is
      a leaf carrying a character and its frequency; a joined node always gets
      both children, so it is an Internal node with exactly two subtrees. Its
      character field is the placeholder '-' (see Symbol). */
  datatype Node =
    | Leaf(ch: char, freq: nat)
    | Internal(freq: nat, left: Node, right: Node)

  /** The node's character field: the leaf's character, or the '-' that the
      merge step writes into every joined node. */
  function Symbol(n: Node): char {
    match n
    case Leaf(c, _) => c
    case Internal(_, _, _) => '-'
  }

  function Freq(n: Node): int {
    n.freq
  }

  /** Every joined node's frequency is the sum of its two children's. */
  ghost predicate WellFormed(t: Node) {
    match t
    case Leaf(_, _) => true
    case Internal(f, l, r) => f == l.freq + r.freq && WellFormed(l) && WellFormed(r)
  }

  /** The leaves of t from left to right. */
  function Leaves(t: Node): (ls: seq<Node>)
    ensures |ls| >= 1
    ensures forall i :: 0 <= i < |ls| ==> ls[i].Leaf?
    ensures t.Leaf? ==> ls == [t]
  {
    match t
    case Leaf(_, _) => [t]
    case Internal(_, l, r) => Leaves(l) + Leaves(r)
  }

  /** The characters of t's leaves, from left to right. */
  function Symbols(t: Node): seq<char> {
    Map(Leaves(t), Symbol)
  }

  /** The node reached from t by following path, where '0' moves to the left
      child and '1' to the right one; None when the path leaves the tree or
      holds another character. */
  function Descend(t: Node, path: seq<char>): Option<Node>
    decreases |path|
  {
    if path == [] then Some(t)
    else
      match t
      case Leaf(_, _) => None
      case Internal(_, l, r) =>
        if path[0] == '0' then Descend(l, path[1..])
        else if path[0] == '1' then Descend(r, path[1..])
        else None
  }

  /** The leaf reached by going left all the way down. */
  function Leftmost(t: Node): (leaf: Node)
    ensures leaf.Leaf?
  {
    match t
    case Leaf(_, _) => t
    case Internal(_, l, _) => Leftmost(l)
  }

  /** A well-formed node's frequency is the sum of its leaves' frequencies. */
  lemma {:induction false} FreqIsLeafSum(t: Node)
    requires WellFormed(t)
    ensures t.freq == SumOf(Leaves(t), Freq)
  {
    match t
    case Leaf(_, _) =>
    case Internal(_, l, r) =>
      FreqIsLeafSum(l);
      FreqIsLeafSum(r);
      SumOfAppend(Leaves(l), Leaves(r), Freq);
  }

  /** The leftmost leaf is the first leaf, and going left from the root reaches it. */
  lemma {:induction false} LeftmostIsFirstLeaf(t: Node)
    ensures Leftmost(t) == Leaves(t)[0]
    ensures exists k: nat :: Descend(t, Zeros(k)) == Some(Leftmost(t))
  {
    match t
    case Leaf(_, _) =>
      assert Descend(t, Zeros(0)) == Some(t);
    case Internal(_, l, _) =>
      LeftmostIsFirstLeaf(l);
      var k: nat :| Descend(l, Zeros(k)) == Some(Leftmost(l));
      assert Zeros(k + 1)[1..] == Zeros(k);
      assert Descend(t, Zeros(k + 1)) == Some(Leftmost(t));
  }
}

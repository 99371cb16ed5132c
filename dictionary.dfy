/** The code table (createDictionary): a walk over the tree that gives every
    leaf its path from the root as its code, '0' for a step to the left child and
    '1' for a step to the right one. The Java code keeps the table as strings
    made of the character followed by its code; here an entry is a pair. */
module Dictionary {
  import opened Seqs
  import opened Wrappers
  import opened Tree

  /** One row of the code table: a character and its code. */
  datatype Entry = Entry(ch: char, code: seq<char>)

  /** createDictionary(t, code): one entry per leaf of t, from left to right,
      carrying the leaf's character. Every code extends the path prefix the walk
      started with, and strictly so below a joined node. */
  function CreateDictionary(t: Node, code: seq<char>): (table: seq<Entry>)
    ensures |table| == |Leaves(t)|
    ensures forall k :: 0 <= k < |table| ==> table[k].ch == Leaves(t)[k].ch
    ensures forall k :: 0 <= k < |table| ==> code <= table[k].code
    ensures t.Internal? ==> forall k :: 0 <= k < |table| ==> |code| < |table[k].code|
  {
    match t
    case Leaf(c, _) => [Entry(c, code)]
    case Internal(_, l, r) => CreateDictionary(l, code + ['0']) + CreateDictionary(r, code + ['1'])
  }

  /** No two entries share a character. */
  ghost predicate UniqueKeys(table: seq<Entry>) {
    forall i, j :: 0 <= i < j < |table| ==> table[i].ch != table[j].ch
  }

  /** The part of entry k's code below the starting prefix is a bit string, and
      following it from t reaches exactly the k-th leaf. */
  lemma {:induction false} CodeIsPath(t: Node, code: seq<char>, k: nat)
    requires k < |Leaves(t)|
    ensures IsBits(CreateDictionary(t, code)[k].code[|code|..])
    ensures Descend(t, CreateDictionary(t, code)[k].code[|code|..]) == Some(Leaves(t)[k])
  {
    match t
    case Leaf(_, _) =>
      assert CreateDictionary(t, code)[k].code[|code|..] == [];
    case Internal(_, l, r) =>
      var left := CreateDictionary(l, code + ['0']);
      var e := CreateDictionary(t, code)[k];
      var bit := if k < |left| then '0' else '1';
      var sub := if k < |left| then l else r;
      var i := if k < |left| then k else k - |left|;
      var subCode := CreateDictionary(sub, code + [bit]);
      assert e == subCode[i];
      assert Leaves(t)[k] == Leaves(sub)[i];
      CodeIsPath(sub, code + [bit], i);
      assert (code + [bit]) <= e.code;
      var tail := e.code[|code|..];
      assert tail[0] == bit;
      assert tail[1..] == e.code[|code| + 1..];
  }

  /** Every code of the table is its leaf's path from the root. */
  lemma CodesArePaths(t: Node)
    ensures forall k :: 0 <= k < |Leaves(t)| ==>
              IsBits(CreateDictionary(t, [])[k].code) &&
              Descend(t, CreateDictionary(t, [])[k].code) == Some(Leaves(t)[k])
  {
    forall k | 0 <= k < |Leaves(t)|
      ensures IsBits(CreateDictionary(t, [])[k].code)
      ensures Descend(t, CreateDictionary(t, [])[k].code) == Some(Leaves(t)[k])
    {
      CodeIsPath(t, [], k);
      assert CreateDictionary(t, [])[k].code[0..] == CreateDictionary(t, [])[k].code;
    }
  }

  /** No code of the table is a prefix of another entry's code. */
  lemma {:induction false} PrefixFree(t: Node, code: seq<char>)
    ensures forall i, j :: 0 <= i < |CreateDictionary(t, code)| && 0 <= j < |CreateDictionary(t, code)| && i != j ==>
              !(CreateDictionary(t, code)[i].code <= CreateDictionary(t, code)[j].code)
  {
    match t
    case Leaf(_, _) =>
    case Internal(_, l, r) =>
      var left, right := CreateDictionary(l, code + ['0']), CreateDictionary(r, code + ['1']);
      var table := left + right;
      PrefixFree(l, code + ['0']);
      PrefixFree(r, code + ['1']);
      forall i, j | 0 <= i < |table| && 0 <= j < |table| && i != j
        ensures !(table[i].code <= table[j].code)
      {
        if i < |left| && j >= |left| {
          assert (code + ['0']) <= table[i].code && (code + ['1']) <= table[j].code;
          assert table[i].code[|code|] != table[j].code[|code|];
        } else if i >= |left| && j < |left| {
          assert (code + ['1']) <= table[i].code && (code + ['0']) <= table[j].code;
          assert table[i].code[|code|] != table[j].code[|code|];
        } else if i < |left| {
          assert table[i] == left[i] && table[j] == left[j];
        } else {
          assert table[i] == right[i - |left|] && table[j] == right[j - |left|];
        }
      }
  }

  /** When the tree holds each character once, so does its code table. */
  lemma TableKeysUnique(t: Node, code: seq<char>)
    requires NoDuplicates(Symbols(t))
    ensures UniqueKeys(CreateDictionary(t, code))
  {
    var table := CreateDictionary(t, code);
    forall i, j | 0 <= i < j < |table|
      ensures table[i].ch != table[j].ch
    {
      assert Symbols(t)[i] == table[i].ch && Symbols(t)[j] == table[j].ch;
    }
  }
}

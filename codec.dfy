/** The encode pass of compress (look up every character of every line in the
    code table and concatenate the codes), the tree walk of decompress (follow
    bits from the root, emit a leaf's character and go back to the root), and the
    round trip through both, the bit packer and the unpacker. The line sentinel
    that ends every input line is a parameter; the walk turns it back into '\n'. */
module Codec {
  import opened Seqs
  import opened Wrappers
  import opened Tree
  import opened Frequency
  import opened Builder
  import opened Dictionary
  import opened Bits

  /** What the encode loop appends for one character c: the code of every entry
      for c, in table order, and nothing when c has no entry. */
  function EncodeChar(c: char, table: seq<Entry>): seq<char> {
    if table == [] then []
    else
      var last := table[|table| - 1];
      EncodeChar(c, table[..|table| - 1]) + (if last.ch == c then last.code else [])
  }

  /** The codes of the characters of text, one after another. */
  function EncodeText(text: seq<char>, table: seq<Entry>): seq<char> {
    if text == [] then [] else EncodeText(text[..|text| - 1], table) + EncodeChar(text[|text| - 1], table)
  }

  /** The encode loop of compress: for each character of each line, append the
      code of every table entry whose character matches. */
  method Encode(lines: seq<seq<char>>, table: seq<Entry>) returns (codeWord: seq<char>)
    ensures codeWord == EncodeText(Flatten(lines), table)
  {
    codeWord := [];
    for li := 0 to |lines|
      invariant codeWord == EncodeText(Flatten(lines[..li]), table)
    {
      var line := lines[li];
      ghost var done := Flatten(lines[..li]);
      assert done + line[..0] == done;
      for ci := 0 to |line|
        invariant codeWord == EncodeText(done + line[..ci], table)
      {
        var character := line[ci];
        ghost var sofar := codeWord;
        for ti := 0 to |table|
          invariant codeWord == sofar + EncodeChar(character, table[..ti])
        {
          var translated := table[ti];
          EncodeCharSnoc(character, table, ti);
          if translated.ch == character {
            codeWord := codeWord + translated.code;
          }
        }
        assert table[..|table|] == table;
        EncodeTextSnoc(done, line, ci, table);
      }
      assert line[..|line|] == line;
      FlattenSnoc(lines, li);
    }
    assert lines[..|lines|] == lines;
  }

  lemma EncodeCharSnoc(c: char, table: seq<Entry>, ti: nat)
    requires ti < |table|
    ensures EncodeChar(c, table[..ti + 1])
         == EncodeChar(c, table[..ti]) + (if table[ti].ch == c then table[ti].code else [])
  {
    assert table[..ti + 1][..ti] == table[..ti];
  }

  lemma EncodeTextSnoc(done: seq<char>, line: seq<char>, ci: nat, table: seq<Entry>)
    requires ci < |line|
    ensures EncodeText(done + line[..ci + 1], table) == EncodeText(done + line[..ci], table) + EncodeChar(line[ci], table)
  {
    assert done + line[..ci + 1] == (done + line[..ci]) + [line[ci]];
  }

  /** A character with no entry encodes to nothing: the encode loop skips it. */
  lemma {:induction false} EncodeCharAbsent(c: char, table: seq<Entry>)
    requires forall k :: 0 <= k < |table| ==> table[k].ch != c
    ensures EncodeChar(c, table) == []
    decreases |table|
  {
    if table != [] {
      EncodeCharAbsent(c, table[..|table| - 1]);
    }
  }

  /** In a table whose characters are distinct, a character with an entry
      encodes to exactly that entry's code. */
  lemma {:induction false} EncodeCharFound(c: char, table: seq<Entry>, k: nat)
    requires UniqueKeys(table) && k < |table| && table[k].ch == c
    ensures EncodeChar(c, table) == table[k].code
    decreases |table|
  {
    var init := table[..|table| - 1];
    if k == |table| - 1 {
      EncodeCharAbsent(c, init);
    } else {
      EncodeCharFound(c, init, k);
    }
  }

  /** Codes made of bits encode every text to bits. */
  lemma {:induction false} EncodeTextIsBits(text: seq<char>, table: seq<Entry>)
    requires forall k :: 0 <= k < |table| ==> IsBits(table[k].code)
    ensures IsBits(EncodeText(text, table))
    decreases |text|
  {
    if text != [] {
      EncodeTextIsBits(text[..|text| - 1], table);
      EncodeCharIsBits(text[|text| - 1], table);
    }
  }

  lemma {:induction false} EncodeCharIsBits(c: char, table: seq<Entry>)
    requires forall k :: 0 <= k < |table| ==> IsBits(table[k].code)
    ensures IsBits(EncodeChar(c, table))
    decreases |table|
  {
    if table != [] {
      EncodeCharIsBits(c, table[..|table| - 1]);
    }
  }

  /** The character the walk writes for a leaf: '\n' for the line sentinel. */
  function Restore(c: char, sentinel: char): char {
    if c == sentinel then '\n' else c
  }

  /** One step of the walk: '0' to the left child, '1' to the right one, any
      other character leaves the cursor where it is. */
  function Step(cur: Node, bit: char): Node
    requires cur.Internal?
  {
    if bit == '0' then cur.left else if bit == '1' then cur.right else cur
  }

  /** What the walk emits for bits, starting with the cursor at cur: after each
      step that reaches a leaf, that leaf's (restored) character, and the cursor
      goes back to root. Bits that end before a leaf emit nothing. */
  function Walk(root: Node, cur: Node, bits: seq<char>, sentinel: char): seq<char>
    requires root.Internal? && cur.Internal?
    decreases |bits|
  {
    if bits == [] then []
    else
      var next := Step(cur, bits[0]);
      if next.Leaf? then [Restore(next.ch, sentinel)] + Walk(root, root, bits[1..], sentinel)
      else Walk(root, next, bits[1..], sentinel)
  }

  /** The decode walk of decompress over a bit string, with the cursor starting
      and restarting at root. */
  method DecodeWalk(root: Node, bitString: seq<char>, sentinel: char) returns (decompressed: seq<char>)
    requires root.Internal?
    ensures decompressed == Walk(root, root, bitString, sentinel)
  {
    decompressed := [];
    var cursor := root;
    for i := 0 to |bitString|
      invariant cursor.Internal?
      invariant decompressed + Walk(root, cursor, bitString[i..], sentinel) == Walk(root, root, bitString, sentinel)
    {
      ghost var at := cursor;
      var character := bitString[i];
      assert bitString[i..][1..] == bitString[i + 1..];
      if character == '0' {
        cursor := cursor.left;
      } else if character == '1' {
        cursor := cursor.right;
      }
      assert cursor == Step(at, character);
      if cursor.Leaf? {
        ghost var emitted := decompressed;
        if cursor.ch == sentinel {
          decompressed := decompressed + ['\n'];
        } else {
          decompressed := decompressed + [cursor.ch];
        }
        assert decompressed == emitted + [Restore(cursor.ch, sentinel)];
        cursor := root;
      }
    }
  }

  /** Following a path that ends at a leaf emits that leaf's character and
      returns the cursor to the root. */
  lemma {:induction false} WalkPath(root: Node, cur: Node, path: seq<char>, rest: seq<char>, sentinel: char)
    requires root.Internal? && cur.Internal? && path != []
    requires Descend(cur, path).Some? && Descend(cur, path).value.Leaf?
    ensures Walk(root, cur, path + rest, sentinel)
         == [Restore(Descend(cur, path).value.ch, sentinel)] + Walk(root, root, rest, sentinel)
    decreases |path|
  {
    var next := Step(cur, path[0]);
    assert (path + rest)[0] == path[0];
    assert (path + rest)[1..] == path[1..] + rest;
    assert Descend(cur, path) == Descend(next, path[1..]);
    if path[1..] != [] {
      WalkPath(root, next, path[1..], rest, sentinel);
    }
  }

  /** Decoding one character's code: a character of the tree comes back
      (restored), any other character was encoded to nothing and emits nothing. */
  lemma CharRoundTrip(root: Node, c: char, rest: seq<char>, sentinel: char)
    requires root.Internal? && NoDuplicates(Symbols(root))
    ensures Walk(root, root, EncodeChar(c, CreateDictionary(root, [])) + rest, sentinel)
         == (if c in Symbols(root) then [Restore(c, sentinel)] else []) + Walk(root, root, rest, sentinel)
  {
    var table := CreateDictionary(root, []);
    if c in Symbols(root) {
      var k :| 0 <= k < |Symbols(root)| && Symbols(root)[k] == c;
      TableKeysUnique(root, []);
      EncodeCharFound(c, table, k);
      CodesArePaths(root);
      WalkPath(root, root, table[k].code, rest, sentinel);
    } else {
      forall k | 0 <= k < |table|
        ensures table[k].ch != c
      {
        assert Symbols(root)[k] == table[k].ch;
      }
      EncodeCharAbsent(c, table);
      assert EncodeChar(c, table) + rest == rest;
    }
  }

  /** The reference decoding of text with the code table of t: each character
      that has a leaf, restored, and no trace of the others. */
  function Recovered(text: seq<char>, t: Node, sentinel: char): seq<char> {
    if text == [] then []
    else
      var c := text[|text| - 1];
      Recovered(text[..|text| - 1], t, sentinel) + (if c in Symbols(t) then [Restore(c, sentinel)] else [])
  }

  /** Walking the encoding of text, followed by anything, gives back the
      recovered text and then the walk of what follows. */
  lemma {:induction false} DecodeEncode(root: Node, text: seq<char>, rest: seq<char>, sentinel: char)
    requires root.Internal? && NoDuplicates(Symbols(root))
    ensures Walk(root, root, EncodeText(text, CreateDictionary(root, [])) + rest, sentinel)
         == Recovered(text, root, sentinel) + Walk(root, root, rest, sentinel)
    decreases |text|
  {
    if text == [] {
      assert EncodeText(text, CreateDictionary(root, [])) + rest == rest;
    } else {
      var table := CreateDictionary(root, []);
      var init, c := text[..|text| - 1], text[|text| - 1];
      var codes := EncodeChar(c, table);
      assert EncodeText(text, table) + rest == EncodeText(init, table) + (codes + rest);
      DecodeEncode(root, init, codes + rest, sentinel);
      CharRoundTrip(root, c, rest, sentinel);
    }
  }

  /** When every character of text has a leaf, the recovered text is the text
      itself with each sentinel turned into '\n'. */
  lemma {:induction false} RecoveredAll(text: seq<char>, t: Node, sentinel: char)
    requires forall c :: c in text ==> c in Symbols(t)
    ensures |Recovered(text, t, sentinel)| == |text|
    ensures forall i :: 0 <= i < |text| ==> Recovered(text, t, sentinel)[i] == Restore(text[i], sentinel)
    decreases |text|
  {
    if text != [] {
      var init := text[..|text| - 1];
      assert forall c :: c in init ==> c in text;
      RecoveredAll(init, t, sentinel);
      assert text[|text| - 1] in text;
    }
  }

  /** How many '0' steps lead from t to its leftmost leaf. */
  function LeftDepth(t: Node): nat {
    match t
    case Leaf(_, _) => 0
    case Internal(_, l, _) => 1 + LeftDepth(l)
  }

  /** Walking zeros from a node on the left spine emits at most one character
      per bit, each the root's leftmost leaf's, and nothing at all when the zeros
      run out before the leftmost leaf. */
  lemma {:induction false} ZerosWalk(root: Node, cur: Node, k: nat, sentinel: char)
    requires root.Internal? && cur.Internal? && Leftmost(cur) == Leftmost(root)
    ensures |Walk(root, cur, Zeros(k), sentinel)| <= k
    ensures forall i :: 0 <= i < |Walk(root, cur, Zeros(k), sentinel)| ==>
              Walk(root, cur, Zeros(k), sentinel)[i] == Restore(Leftmost(root).ch, sentinel)
    ensures k < LeftDepth(cur) ==> Walk(root, cur, Zeros(k), sentinel) == []
    decreases k
  {
    if k > 0 {
      var next := cur.left;
      assert Zeros(k)[0] == '0' && Zeros(k)[1..] == Zeros(k - 1);
      assert LeftDepth(cur) == 1 + LeftDepth(next) && Leftmost(cur) == Leftmost(next);
      if next.Leaf? {
        ZerosWalk(root, root, k - 1, sentinel);
      } else {
        ZerosWalk(root, next, k - 1, sentinel);
      }
    }
  }

  /** compress, after createHuffmanTree: build the tree, take its code table,
      encode the lines and pack the code string into bytes. Fails exactly when
      fewer than two distinct characters occur. */
  method Compress(lines: seq<seq<char>>) returns (r: Result<(Node, seq<bv8>), BuildError>)
    ensures r.Failure? <==> |Distinct(Flatten(lines))| < 2
    ensures r.Success? ==> Some(r.value.0) == BuildTree(Flatten(lines))
    ensures r.Success? ==> FitsText(r.value.0, Flatten(lines))
    ensures r.Success? ==>
              PacksTo(EncodeText(Flatten(lines), CreateDictionary(r.value.0, [])), r.value.1)
  {
    var built := CreateHuffmanTree(lines);
    if built.Failure? {
      return Failure(built.error);
    }
    var root := built.value;
    var codeWord := Encode(lines, CreateDictionary(root, []));
    var data := GetBinary(codeWord);
    return Success((root, data));
  }

  /** decompress: unpack the bytes to a bit string and walk the tree over it. */
  method Decompress(root: Node, bytes: seq<bv8>, sentinel: char) returns (decompressed: seq<char>)
    requires root.Internal?
    ensures decompressed == Walk(root, root, Unpacked(bytes), sentinel)
  {
    var bitString := GetString(bytes);
    decompressed := DecodeWalk(root, bitString, sentinel);
  }

  /** Decompressing what Compress produced gives back the text, each sentinel as
      '\n', followed by at most seven extra characters from the padding, each
      the leftmost leaf's. */
  lemma CompressThenDecompress(text: seq<char>, root: Node, bytes: seq<bv8>, sentinel: char)
    requires FitsText(root, text)
    requires PacksTo(EncodeText(text, CreateDictionary(root, [])), bytes)
    ensures |text| <= |Walk(root, root, Unpacked(bytes), sentinel)| <= |text| + 7
    ensures forall i :: 0 <= i < |text| ==>
              Walk(root, root, Unpacked(bytes), sentinel)[i] == Restore(text[i], sentinel)
    ensures forall i :: |text| <= i < |Walk(root, root, Unpacked(bytes), sentinel)| ==>
              Walk(root, root, Unpacked(bytes), sentinel)[i] == Restore(Leftmost(root).ch, sentinel)
  {
    var table := CreateDictionary(root, []);
    var pad := PadLength(|EncodeText(text, table)|);
    PackedCode(text, root, bytes);
    DecodeEncode(root, text, Zeros(pad), sentinel);
    RecoveredAll(text, root, sentinel);
    ZerosWalk(root, root, pad, sentinel);
  }

  /** The bit string unpacked from the compressed bytes is the code string
      followed by its padding zeros. */
  lemma PackedCode(text: seq<char>, root: Node, bytes: seq<bv8>)
    requires PacksTo(EncodeText(text, CreateDictionary(root, [])), bytes)
    ensures Unpacked(bytes) == EncodeText(text, CreateDictionary(root, [])) + Zeros(PadLength(|EncodeText(text, CreateDictionary(root, []))|))
  {
    var table := CreateDictionary(root, []);
    CodesArePaths(root);
    EncodeTextIsBits(text, table);
    UnpackPacked(EncodeText(text, table), bytes);
  }

  /** The tree the builder makes for the one-line file "a", read as 'a'
      followed by the sentinel (here '#'). */
  function ExampleTree(): Node {
    Internal(2, Leaf('a', 1), Leaf('#', 1))
  }

  /** As written, the walk also decodes the zero padding. The one-line file "a"
      builds ExampleTree, whose codes are "0" and "1"; its code string "01" is
      packed into the byte 0x40, and walking that byte's eight bits gives "a\n"
      followed by six more 'a'. */
  lemma PaddingDecodesToExtraCharacters()
    ensures BuildTree(['a', '#']) == Some(ExampleTree())
    ensures FitsText(ExampleTree(), ['a', '#'])
    ensures EncodeText(['a', '#'], CreateDictionary(ExampleTree(), [])) == ['0', '1']
    ensures PacksTo(['0', '1'], [0x40])
    ensures Walk(ExampleTree(), ExampleTree(), Unpacked([0x40]), '#') == ['a', '\n', 'a', 'a', 'a', 'a', 'a', 'a']
  {
    ExampleBuild();
    ExampleTreeFits();
    ExampleEncoding();
    ExampleBits();
  }

  lemma ExampleBuild()
    ensures BuildTree(['a', '#']) == Some(ExampleTree())
  {
    var a, h := Leaf('a', 1), Leaf('#', 1);
    ExampleLeaves();
    ExampleSorted();
    ExampleRound();
    assert HuffmanMerge([a, h]) == HuffmanMerge([ExampleTree()]) == [ExampleTree()];
  }

  lemma ExampleLeaves()
    ensures InitialLeaves(['a', '#']) == [Leaf('a', 1), Leaf('#', 1)]
  {
    var text := ['a', '#'];
    assert text[..1] == ['a'] && text[..0] == [];
    assert Distinct(text) == text;
    assert multiset(text)['a'] == 1 && multiset(text)['#'] == 1;
  }

  lemma ExampleSorted()
    ensures SelectionSorted([Leaf('a', 1), Leaf('#', 1)]) == [Leaf('a', 1), Leaf('#', 1)]
  {
    var a, h := Leaf('a', 1), Leaf('#', 1);
    assert FirstMin([a, h]) == 0;
    assert [a, h][0 := a][1..] == [h];
    assert FirstMin([h]) == 0 && [h][0 := h][1..] == [];
    assert SelectionSorted([h]) == [h];
  }

  lemma ExampleRound()
    ensures MergeRound([Leaf('a', 1), Leaf('#', 1)]) == [ExampleTree()]
  {
    var a, h := Leaf('a', 1), Leaf('#', 1);
    assert [a, h][2..] + [Join(a, h)] == [ExampleTree()];
    assert FirstMin([ExampleTree()]) == 0 && [ExampleTree()][0 := ExampleTree()][1..] == [];
  }

  lemma ExampleTreeFits()
    ensures FitsText(ExampleTree(), ['a', '#'])
  {
    var root := ExampleTree();
    assert Leaves(root) == [Leaf('a', 1), Leaf('#', 1)];
    assert Symbols(root) == ['a', '#'];
    assert multiset(['a', '#'])['a'] == 1 && multiset(['a', '#'])['#'] == 1;
  }

  lemma ExampleEncoding()
    ensures EncodeText(['a', '#'], CreateDictionary(ExampleTree(), [])) == ['0', '1']
  {
    var table := CreateDictionary(ExampleTree(), []);
    assert [] + ['0'] == ['0'] && [] + ['1'] == ['1'];
    assert CreateDictionary(Leaf('a', 1), ['0']) == [Entry('a', ['0'])];
    assert table == [Entry('a', ['0']), Entry('#', ['1'])];
    assert table[..1] == [Entry('a', ['0'])] && table[..0] == [];
    assert EncodeChar('a', table) == ['0'];
    assert EncodeChar('#', table) == ['1'];
    assert ['a'][..0] == [] && ['a', '#'][..1] == ['a'];
    assert EncodeText(['a'], table) == ['0'];
  }

  lemma ExampleBits()
    ensures PacksTo(['0', '1'], [0x40])
    ensures Unpacked([0x40]) == ['0', '1', '0', '0', '0', '0', '0', '0']
    ensures Walk(ExampleTree(), ExampleTree(), Unpacked([0x40]), '#') == ['a', '\n', 'a', 'a', 'a', 'a', 'a', 'a']
  {
    var bits := Unpacked([0x40]);
    forall i | 0 <= i < 8
      ensures bits[i] == (if i == 1 then '1' else '0')
    {
      assert i / 8 == 0 && i % 8 == i;
    }
    assert bits == ['0', '1', '0', '0', '0', '0', '0', '0'];
    ExampleWalk();
  }

  lemma ExampleWalk()
    ensures Walk(ExampleTree(), ExampleTree(), ['0', '1', '0', '0', '0', '0', '0', '0'], '#')
         == ['a', '\n', 'a', 'a', 'a', 'a', 'a', 'a']
  {
    var root := ExampleTree();
    var zeros := ['0', '0', '0', '0', '0', '0'];
    assert ['0', '1', '0', '0', '0', '0', '0', '0'] == ['0', '1'] + zeros;
    assert Descend(root, ['0']) == Some(Leaf('a', 1));
    assert Descend(root, ['1']) == Some(Leaf('#', 1));
    WalkPath(root, root, ['0'], ['1'] + zeros, '#');
    assert ['0'] + (['1'] + zeros) == ['0', '1'] + zeros;
    WalkPath(root, root, ['1'], zeros, '#');
    assert ['1'] + zeros == ['1', '0', '0', '0', '0', '0', '0'];
    ZerosAreLeftmost(root, 6);
    assert zeros == Zeros(6);
  }

  /** From the root of ExampleTree, every '0' emits the leftmost leaf 'a'. */
  lemma {:induction false} ZerosAreLeftmost(root: Node, k: nat)
    requires root == ExampleTree()
    ensures Walk(root, root, Zeros(k), '#') == seq(k, _ => 'a')
    decreases k
  {
    if k > 0 {
      assert Zeros(k)[0] == '0' && Zeros(k)[1..] == Zeros(k - 1);
      ZerosAreLeftmost(root, k - 1);
      assert seq(k, _ => 'a') == ['a'] + seq(k - 1, _ => 'a');
    }
  }

  /** decompress with the length of the code string kept beside the bytes: only
      the first bitCount bits are walked, so the padding is never decoded. */
  method DecompressExact(root: Node, bytes: seq<bv8>, bitCount: nat, sentinel: char)
    returns (decompressed: seq<char>)
    requires root.Internal? && bitCount <= 8 * |bytes|
    ensures decompressed == Walk(root, root, Unpacked(bytes)[..bitCount], sentinel)
  {
    var bitString := GetString(bytes);
    decompressed := DecodeWalk(root, bitString[..bitCount], sentinel);
  }

  /** With the code length kept, decompressing gives back exactly the text, each
      sentinel as '\n'. */
  lemma ExactRoundTrip(text: seq<char>, root: Node, bytes: seq<bv8>, sentinel: char)
    requires FitsText(root, text)
    requires PacksTo(EncodeText(text, CreateDictionary(root, [])), bytes)
    ensures |EncodeText(text, CreateDictionary(root, []))| <= 8 * |bytes|
    ensures |Walk(root, root, Unpacked(bytes)[..|EncodeText(text, CreateDictionary(root, []))|], sentinel)| == |text|
    ensures forall i :: 0 <= i < |text| ==>
              Walk(root, root, Unpacked(bytes)[..|EncodeText(text, CreateDictionary(root, []))|], sentinel)[i]
              == Restore(text[i], sentinel)
  {
    var code := EncodeText(text, CreateDictionary(root, []));
    PackedCode(text, root, bytes);
    assert Unpacked(bytes)[..|code|] == code;
    assert code + [] == code;
    DecodeEncode(root, text, [], sentinel);
    RecoveredAll(text, root, sentinel);
  }
}

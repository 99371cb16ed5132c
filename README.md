# Huffman text compressor — a verified model of the codec core

This project models the codec engine of `HuffmanCompression.java`, a two-pass
static Huffman coder for text files:

1. **Frequency model.** Collect the distinct characters of the input lines in
   first-seen order and count how often each occurs.
2. **Tree builder.** Make one leaf per character and selection-sort the forest
   by frequency. Then, while more than one node is left, join the two front
   nodes under a new node carrying the sum of their frequencies, append it and
   sort again. Fewer than two distinct characters is an error.
3. **Code table.** Walk the tree depth first and give every leaf its
   root-to-leaf path as its code: `0` for left, `1` for right.
4. **Bit packer and unpacker.** Pad the code string with `0` to a multiple of 8
   and pack it most significant bit first. Expand bytes back into a bit string.
5. **Encode and decode passes.** Concatenate the codes of the input's
   characters. Walk the tree over the unpacked bits, emitting a leaf's
   character and going back to the root. The line sentinel is emitted as `\n`.

Each input line arrives already ending in the line sentinel, as the reader
appends it. The sentinel itself is a parameter of the decoder.

Modules, one file each:
- `Wrappers`: `Option` and `Result`.
- `Seqs`: map, flat map and sum over sequences, plus the facts that a
  permutation preserves them.
- `Tree`: the node datatype, leaves and paths.
- `Frequency`: `getListOfCharacters` and `getListOfFrequencies`.
- `Builder`: `sort`, the merge loop and `createHuffmanTree`.
- `Dictionary`: `createDictionary`.
- `Bits`: `getBinary` and `GetString`.
- `Codec`: the encode loop, the decode walk, the compress/decompress pipeline
  and the round trip.

The Java `HuffmanTreeNode` is the datatype `Tree.Node`. A node whose two
children are null is a `Leaf`. A joined node is an `Internal` node with both
children, and its character field is `'-'`.

Code that updates state step by step becomes methods with loops. The method
`Builder.Sort` sorts an array in place, and `Bits.GetBinary` fills a local byte
array; the other methods work over sequences. Each method is proved equal to a
specification function (for the tree builder, the reference merge
`Builder.MergedRoot` of the initial leaves, `Builder.BuildTree`), and the
source's promises are proved about those functions as lemmas.

## Model

| member | source | states |
|---|---|---|
| `Frequency.CharactersOf` | HuffmanCompression.java:62-75 | The result is the distinct characters of all lines: each character that occurs appears exactly once, no other character appears, and they are in order of first appearance. |
| `Frequency.DistinctFirstSeen` | HuffmanCompression.java:62-75 | The first-seen distinct list has no duplicates. It holds exactly the characters of the input, ordered by the position of their first occurrence. |
| `Frequency.FrequenciesOf` | HuffmanCompression.java:85-105 | The result has one count per listed character, and entry i is the number of occurrences of `charArray[i]` across all lines. When the list holds every input character exactly once, the counts add up to the total number of characters. |
| `Builder.FirstMinIsFirstLeast` | HuffmanCompression.java:119-126 | The inner loop's strict `<` picks a node of least frequency, and every node before it is strictly heavier, so ties go to the earliest. |
| `Builder.SelectionSortedIsSortedPermutation` | HuffmanCompression.java:114-133 | The selection-sort result is a permutation of its input (same multiset of nodes) ordered by non-decreasing frequency. |
| `Builder.SortIsNotStable` | HuffmanCompression.java:128-130 | The swap can reorder equal-frequency nodes: sorting `a:1, b:1, c:0` gives `c:0, b:1, a:1`. |
| `Builder.Sort` | HuffmanCompression.java:114-133 | The array, sorted in place, equals the selection-sort specification applied to its old contents. It is sorted by frequency and a permutation of the old contents. |
| `Builder.SortForest` | HuffmanCompression.java:176-204 | `list = sort(list)`: the result is the selection-sort specification of the forest, so it is sorted by frequency, a permutation of the forest and of the same length. |
| `Builder.SelectionSortedLength` | HuffmanCompression.java:114-133 | Sorting keeps the number of nodes. |
| `Builder.MergeRound` | HuffmanCompression.java:179-205 | One round of the merge loop (take the two front nodes, join them, append the joined node, sort) leaves exactly one node fewer. |
| `Builder.MergeRoundJoinsTwoLeast` | HuffmanCompression.java:182-204 | In a forest sorted by frequency, a round joins two nodes of least frequency: the first is no heavier than the second, and the second no heavier than any node left. The new forest is the remaining nodes plus the joined node, sorted by frequency. |
| `Builder.HuffmanMerge` | HuffmanCompression.java:179-205 | Merging rounds until fewer than two nodes are left ends with a single tree for any non-empty forest, and with nothing for an empty one. |
| `Builder.HuffmanMergeKeeps` | HuffmanCompression.java:179-205 | The merge keeps the initial leaves (as a multiset), their total frequency and the well-formedness of every tree. |
| `Builder.HuffmanMergeJoined` | HuffmanCompression.java:189-198 | Merging at least two nodes ends in a joined node. |
| `Builder.MergedRootKeeps` | HuffmanCompression.java:176-205 | The root merged from two or more leaves is a well-formed joined node whose leaves are the initial leaves and whose frequency is the sum of theirs. |
| `Builder.InitialLeaves` | HuffmanCompression.java:163-173 | One leaf per distinct character of the text, in first-seen order. |
| `Builder.ForestKeepsAfterJoin` | HuffmanCompression.java:179-205 | Joining the two front trees and re-sorting keeps three facts: every tree is well formed, the forest's leaves are the initial leaves as a multiset, and the total frequency is unchanged. |
| `Builder.JoinKeepsSum` | HuffmanCompression.java:190-201 | Replacing the two front nodes by their joined node leaves the forest's total frequency unchanged. |
| `Builder.MergeForest` | HuffmanCompression.java:176-205 | The root is exactly the reference merge `MergedRoot` of the leaves: sort, then join the two front nodes and re-sort until one tree is left. It stays unset exactly when there are fewer than two leaves. Otherwise it is a joined node in which every joined node carries the sum of its children's frequencies. Its leaves are the initial leaves, and its frequency is the sum of theirs. |
| `Builder.MergedTreeFits` | HuffmanCompression.java:160-205 | The tree merged from the text's leaves holds each character of the text exactly once. Each leaf's frequency is its character's count, and the root's frequency is the text length. |
| `Builder.CreateHuffmanTree` | HuffmanCompression.java:156-216 | The build fails exactly when fewer than two distinct characters occur. Otherwise it returns exactly `BuildTree` of the text (the merge of its initial leaves), and that tree fits the text as stated for `MergedTreeFits`. |
| `Tree.FreqIsLeafSum` | HuffmanCompression.java:190-196 | In a tree whose joined nodes carry the sum of their children, the root's frequency is the sum of the leaves' frequencies. |
| `Tree.LeftmostIsFirstLeaf` | HuffmanCompression.java:375-381 | The leftmost leaf is the first leaf, and an all-`0` path from the root reaches it. |
| `Dictionary.CreateDictionary` | HuffmanCompression.java:226-239 | There is exactly one entry per leaf, in leaf order, carrying the leaf's character. Every code extends the starting prefix, and every code below a joined node is strictly longer than the prefix (non-empty from the root). |
| `Dictionary.CodeIsPath` | HuffmanCompression.java:226-239 | Below the starting prefix, each entry's code is a bit string, and following it from the node reaches exactly that entry's leaf. |
| `Dictionary.CodesArePaths` | HuffmanCompression.java:226-239 | Every code in the root's table is a bit string that leads from the root to its own leaf. |
| `Dictionary.PrefixFree` | HuffmanCompression.java:226-239 | No entry's code is a prefix of another entry's code. |
| `Dictionary.TableKeysUnique` | HuffmanCompression.java:229-232 | When the tree holds each character once, no two table entries share a character. |
| `Bits.GetBinary` | HuffmanCompression.java:247-265 | The result has ceil(n/8) bytes. Bit i (byte i/8, mask `0x80 >> (i%8)`) is set exactly when i < n and `encodedString[i]` is `'1'`, so every padding bit is clear. |
| `Bits.SetBit` | HuffmanCompression.java:258-262 | OR-ing in the mask of bit i sets bit i and leaves every other bit unchanged. |
| `Bits.PadLengthStep` | HuffmanCompression.java:249-251 | Each appended `'0'` brings the length one step closer to the next multiple of 8, so the padding loop ends after `(8 - n%8)%8` steps. |
| `Bits.ShiftedBit` | HuffmanCompression.java:278 | `(b << k) & 0x80` is zero exactly when bit k (MSB first) of b is clear. |
| `Bits.GetString` | HuffmanCompression.java:273-282 | The result has 8 characters per byte, and character i is `'1'` exactly when bit i is set. |
| `Bits.UnpackPacked` | HuffmanCompression.java:247-282 | Unpacking a packing of a bit string s gives s followed by `(8 - n%8)%8` `'0'` characters. |
| `Bits.PackingUnique` | HuffmanCompression.java:247-265 | A bit string has only one packing. |
| `Bits.PackedUnpacked` | HuffmanCompression.java:273-282 | Any byte sequence is the packing of its own bit string, so packing after unpacking gives the bytes back. |
| `Codec.Encode` | HuffmanCompression.java:308-316 | The code string is the concatenation, over every character of every line, of the codes of all table entries for that character. |
| `Codec.EncodeCharAbsent` | HuffmanCompression.java:310-314 | A character with no table entry contributes nothing: it is silently skipped. |
| `Codec.EncodeCharFound` | HuffmanCompression.java:310-314 | In a table with distinct characters, a character with an entry contributes exactly that entry's code. |
| `Codec.EncodeTextIsBits` | HuffmanCompression.java:308-316 | When every code is a bit string, so is the code string. |
| `Codec.DecodeWalk` | HuffmanCompression.java:375-391 | The decoder's output equals the walk specification from the root over the whole bit string. |
| `Codec.WalkPath` | HuffmanCompression.java:375-391 | Following a path that ends at a leaf emits that leaf's character, with the sentinel emitted as `\n`, and puts the cursor back at the root. |
| `Codec.CharRoundTrip` | HuffmanCompression.java:375-391 | Walking one character's encoding gives the character back (restored) if the tree has it, and nothing otherwise. The walk then continues from the root. |
| `Codec.DecodeEncode` | HuffmanCompression.java:375-391 | Walking the code string of a text, followed by any bits, gives the text's decodable characters (restored) and then the walk of the following bits. |
| `Codec.RecoveredAll` | HuffmanCompression.java:382-388 | When every character of the text has a leaf, the decoded text is the text itself with each sentinel turned into `\n`. |
| `Codec.ZerosWalk` | HuffmanCompression.java:375-381 | Walking zeros from the left spine emits at most one character per bit, each the leftmost leaf's. Zeros that run out before reaching the leftmost leaf emit nothing. |
| `Codec.PackedCode` | HuffmanCompression.java:327 | The bits unpacked from the compressed bytes are the code string followed by its padding zeros. |
| `Codec.Compress` | HuffmanCompression.java:292-331 | Compression fails exactly when fewer than two distinct characters occur. Otherwise it returns `BuildTree` of the text, which fits the text, and the packing of the text's code string under that tree's table. |
| `Codec.Decompress` | HuffmanCompression.java:359-391 | The output is the walk from the root over the unpacked bytes. |
| `Codec.CompressThenDecompress` | HuffmanCompression.java:375-391 | Decompressing compressed text gives the text (sentinels as `\n`) as a prefix, followed by at most 7 extra characters. Every extra character is the leftmost leaf's. |
| `Codec.PaddingDecodesToExtraCharacters` | HuffmanCompression.java:375-391 | For the one-line file "a", the builder makes the tree with codes `0` for `a` and `1` for the sentinel, and the packed byte `0x40` decodes to "a\n" followed by six extra `a`. |
| `Codec.DecompressExact` | HuffmanCompression.java:359-391 | With the code length kept, the output is the walk over only the first `bitCount` unpacked bits. |
| `Codec.ExactRoundTrip` | HuffmanCompression.java:375-391 | With the code length kept, decompressing gives back exactly the text, with each sentinel as `\n`. |

## Left out

- File reading (`readTextFile`) is not modelled. The input is a sequence of lines, each already ending in the sentinel.
- Writing and reading the compressed file and deriving the file names are not modelled.
- Java serialization of the tree is not modelled. `Compress` returns the tree beside the bytes.
- The interactive `main` loop and the console messages are not modelled. `System.exit` on a too-small alphabet becomes the `Failure(FewerThanTwoCharacters)` result.
- The static `dictionary` and `finalRoot` are not modelled as globals. The code table is a value computed from the tree, and `Compress` passes it to the encode loop. The global list is never cleared, so repeated compressions in one session see stale entries; this is a process-state artefact and is not modelled.
- Table entries are modelled as (character, code) pairs. The Java code stores the string `character + code` and reads it back with `charAt(0)` and `substring(1)`.
- The sentinel's literal text is not modelled. It is a parameter.
- Java `int` overflow of counters and frequencies is not modelled. They are unbounded naturals.
- Java signed bytes and `int` promotion are not modelled. Bytes are `bv8`, and `i >> 3` / `i & 0x7` are written as `i / 8` / `i % 8`, which agree for the non-negative indices used.
- `Builder.SortForest` models `list = sort(list)`. It copies the forest into an array, sorts that array in place and reads it back. Aliasing of the Java list object is not modelled.
- `Codec.DecodeWalk` requires a joined root. On a single-leaf tree the Java walk would dereference a null child. The builder never returns such a tree.
- An empty input and a single distinct character both end in the one `root == null` branch (HuffmanCompression.java:207-214), so the model has a single `FewerThanTwoCharacters`.
- The encode loop silently skips a character with no table entry (HuffmanCompression.java:310-314); the model does the same (`Codec.EncodeCharAbsent`).
- Characters are Dafny `char` values (Unicode scalar values), not Java UTF-16 code units. A character outside the Basic Multilingual Plane is one symbol here but two surrogate symbols in `toCharArray` (HuffmanCompression.java:67, 93, 309), so surrogate splitting is not captured.

## Findings

| source | as written | input that shows it | evidently intended | confidence | as-written member | corrected member |
|---|---|---|---|---|---|---|
| HuffmanCompression.java:375-391 | The decode walk also walks the zero padding that `getBinary` appends, because the code length is not stored. A padding run that reaches the leftmost leaf emits extra characters. | The one-line file "a" (the text 'a' followed by the sentinel) has codes `0` and `1` and is packed into the byte `0x40`. It decompresses to "a\n" followed by six extra `a`. | Decompressing gives back exactly the original text. | not executed; high | `Codec.PaddingDecodesToExtraCharacters` | `Codec.ExactRoundTrip` |

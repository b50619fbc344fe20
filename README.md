# Huffman codec and key trees, modelled in Dafny

The repository holds two small programs, and this project models the core of each.

**The Huffman codec** (`TPIIAEDsIII.py`):
- It counts the symbols of a text and builds a coding tree by merging the two lightest nodes of a priority queue until one is left.
- It gives each leaf's symbol its root-to-leaf path as its code: `0` for left, `1` for right.
- It encodes the text and pads the bits with zeros to a whole number of bytes. It writes the padding count as a header byte, followed by the data bytes, most significant bit first.
- Decompression expands the bytes, drops the padding and walks the tree bit by bit, going back to the root at every leaf.
- A menu allows compression only while the text is not compressed, and decompression only while it is.

**The key trees** (`TPIAEDsIII.py`):
- Plain binary-search-tree insertion, which ignores an equal key.
- AVL insertion, which does a single or a double rotation chosen by the balance factor.
- The height function and the two rotations.
- The recursive searches, which count comparisons.
- A linear search over records, which also counts comparisons.

In the program, trees are mutable `[key, left, right]` lists. Insertions and rotations overwrite their links in place.

Layout:
- `wrappers.dfy`: `Option` and `Result`.
- `huffman_tree.dfy`: the frequency table and the merge loop.
- `huffman_codes.dfy`: the code table and the encoding.
- `bit_packing.dfy`: padding, packing and unpacking.
- `huffman_decode.dfy`: the tree walk.
- `huffman_codec.dfy`: compression and decompression end to end, with the round trip and its failure.
- `menu_gate.dfy`: the compressed/uncompressed flag.
- `key_trees.dfy`: trees as values, where insertion, search, rotation and rebalancing are functions, with ordering and balance proofs.
- `tree_nodes.dfy`: the mutable nodes. It is a class whose methods relink nodes in place. Each node carries a ghost `Model` (its value in `key_trees.dfy`) and a ghost `Repr` (its footprint). Every method is specified by its counterpart on values.
- `sequential_search.dfy`: the linear search.

The loops of the codec, and its recursive code-table walk, are methods, each proved equal to a specification function:
- the merge loop;
- the recursive code-table walk, which fills a map;
- the packing loop;
- the decoding walk.

The properties are proved about those functions.

**The priority queue** is a list. A pop takes the first node of least weight in queue order, and a push appends. The proofs of the tree's properties use no property of this tie-break: they rest on lemmas about removing a node at any position of the queue. Only the exact shape of a tree built with ties depends on this rule.

**Decompression's tree.** The program rebuilds the decoding tree by reading the original input file a second time. Here that original text is a parameter of `DecompressSpec`.

The code behaves as follows where a reader might expect otherwise, and the model follows it:
- The padding is `8 - n % 8`, which is in 1..8, not 0..7. An aligned bit string gets a whole extra zero byte (`BitPacking.Padding`).
- A text with a single distinct symbol gets the empty code, not `0`. It compresses to `[8, 0]` and decompresses to the empty text (`HuffmanCodec.OneSymbolIsLost`).
- A walk that ends inside the tree drops its partial code silently instead of failing (`HuffmanDecode.DecodeEncoded` allows any such tail).
- AVL insertion sends equal keys to the right. Rotations can then put an equal key on the left (`KeyTrees.DuplicateMovesLeft`). So only the non-strict order, a sorted in-order sequence, is kept. It is not "left < node ≤ right".

## Model

| member | source | states |
|---|---|---|
| HuffmanTree.FrequenciesSymbols | TPIIAEDsIII.py:65 | the frequency table lists each symbol once, and a symbol is listed exactly when it occurs in the text |
| HuffmanTree.FrequencyAt | TPIIAEDsIII.py:65 | every entry of the table counts the occurrences of its symbol, and that count is positive |
| HuffmanTree.FrequenciesSum | TPIIAEDsIII.py:65 | the counts of the table add up to the length of the text |
| HuffmanTree.MinIndexIsFirstLightest | TPIIAEDsIII.py:26-27 | a pop removes a node of least weight, lighter than every node before it in the queue |
| HuffmanTree.MergeRoundCounts | TPIIAEDsIII.py:25-31 | one merge round keeps the total weight of the queue and adds one internal node |
| HuffmanTree.MergeRoundSymbols | TPIIAEDsIII.py:25-31 | one merge round keeps the multiset of leaf symbols in the queue |
| HuffmanTree.MergeRoundWellWeighted | TPIIAEDsIII.py:28-31 | the merged node weighs the sum of its two children, and all other nodes stay so |
| HuffmanTree.MergeInvariants | TPIIAEDsIII.py:21-33 | the final node is well weighted, weighs the queue's total, holds the queue's symbols, and has one internal node per round |
| HuffmanTree.MergeOfManyIsNode | TPIIAEDsIII.py:25-33 | a queue of two or more nodes ends in an internal node |
| HuffmanTree.BuildTree | TPIIAEDsIII.py:19-33 | the merge loop over a list queue returns the coding tree of the table, and reports an error on an empty table, where `heap[0]` fails |
| HuffmanTree.CodingTreeOfText | TPIIAEDsIII.py:19-33 | the tree of a non-empty text weighs the text's length, has each distinct symbol at exactly one leaf, has one internal node fewer than symbols, and is well weighted |
| HuffmanTree.CodingTreeShape | TPIIAEDsIII.py:19-33 | the root is internal exactly when the text has two or more distinct symbols |
| HuffmanCodes.GenerateCodes | TPIIAEDsIII.py:36-47 | the recursive walk adds to the table it is given exactly the codes of the leaves under the node, each being the prefix plus the path to the leaf |
| HuffmanCodes.CodeMapKeys | TPIIAEDsIII.py:36-47 | a symbol has a code exactly when it is at a leaf of the tree |
| HuffmanCodes.CodeMapPath | TPIIAEDsIII.py:36-47 | a code extends the prefix it was built under, and the rest of it leads from the node to a leaf of that symbol |
| HuffmanCodes.LeafPathsPrefixFree | TPIIAEDsIII.py:36-47 | no path to a leaf is a proper prefix of another path to a leaf |
| HuffmanCodes.LeafPathUnique | TPIIAEDsIII.py:36-47 | a symbol that is at a single leaf has a single path leading to it |
| HuffmanCodes.CodesAreLeafPaths | TPIIAEDsIII.py:36-47 | every code is the path to its symbol's leaf; the codes of different symbols are prefix-free; a symbol at a single leaf has no other path |
| HuffmanCodes.CodeLengths | TPIIAEDsIII.py:39-40 | a lone leaf gets the empty code, and below an internal root every code is non-empty |
| HuffmanCodes.Encode | TPIIAEDsIII.py:72 | encoding succeeds exactly when every symbol of the text has a code, and otherwise fails on a symbol without one |
| HuffmanCodes.EncodeConcat | TPIIAEDsIII.py:72 | the encoding of a concatenation is the concatenation of the encodings |
| BitPacking.Padding | TPIIAEDsIII.py:73 | the padding is in 1..8, it makes the length a multiple of 8, and it is 8 exactly when the length already is |
| BitPacking.Zeros | TPIIAEDsIII.py:74 | the padding bits are all `0` |
| BitPacking.BitsValueBound | TPIIAEDsIII.py:80 | a chunk of eight bits read most significant first has a value below 256 |
| BitPacking.NatBitsOfValue | TPIIAEDsIII.py:105 | writing a chunk's value back in the chunk's width gives the chunk back |
| BitPacking.ValueOfNatBits | TPIIAEDsIII.py:105 | a value below 2^w written in w bits reads back as itself |
| BitPacking.ByteBitsValue | TPIIAEDsIII.py:105 | the eight bits written for a byte read back as that byte |
| BitPacking.Pack | TPIIAEDsIII.py:73-80 | the packing loop writes the padding header and then one byte per chunk of the padded bits |
| BitPacking.PackedSize | TPIIAEDsIII.py:78-80 | the file is one header byte holding the padding, then one byte per eight padded bits |
| BitPacking.ExpandPackChunks | TPIIAEDsIII.py:79-80 | expanding the packed bytes gives the padded bits back |
| BitPacking.DropLast | TPIIAEDsIII.py:106 | the slice `[:-k]` keeps a prefix; it removes k elements when 0 < k ≤ length, and leaves nothing otherwise |
| BitPacking.UnpackPacked | TPIIAEDsIII.py:103-106 | unpacking a packed bit string gives exactly that bit string |
| BitPacking.UnpackZeroHeader | TPIIAEDsIII.py:106 | a header of 0 makes the slice drop every bit |
| HuffmanDecode.DecodeWalk | TPIIAEDsIII.py:115-121 | the decoding loop returns the symbol sequence of the bit-by-bit walk, and fails when it must step below a leaf |
| HuffmanDecode.RunBroken | TPIIAEDsIII.py:118-119 | once the walk has failed it stays failed |
| HuffmanDecode.RunConcat | TPIIAEDsIII.py:117-121 | walking a concatenation is walking its two parts in turn |
| HuffmanDecode.WalkToLeaf | TPIIAEDsIII.py:117-121 | a path to a leaf emits the leaf's symbol and returns the walk to the root |
| HuffmanDecode.WalkInside | TPIIAEDsIII.py:117-121 | a path to an internal node emits nothing and leaves the walk there |
| HuffmanDecode.RunEncoded | TPIIAEDsIII.py:115-121 | under an internal root, walking the encoding of a text emits the text and ends at the root |
| HuffmanDecode.DecodeEncoded | TPIIAEDsIII.py:115-121 | the encoding of a text, followed by a partial path or nothing, decodes to the text |
| HuffmanCodec.Compress | TPIIAEDsIII.py:60-80 | compression refuses the empty text, then counts, builds the tree, fills the code table, encodes and packs |
| HuffmanCodec.Decompress | TPIIAEDsIII.py:103-121 | decompression unpacks, builds the tree of the original text and decodes |
| HuffmanCodec.EncodeTotal | TPIIAEDsIII.py:67-72 | every symbol of a non-empty text has a code in its own table |
| HuffmanCodec.CompressSucceeds | TPIIAEDsIII.py:60-80 | compression fails exactly on the empty text, and then with the empty-input error |
| HuffmanCodec.DecompressErrors | TPIIAEDsIII.py:103-112 | an empty file fails at the header, and an empty original text fails at the tree, in that order |
| HuffmanCodec.TwoSymbols | TPIIAEDsIII.py:65 | two different symbols give two entries in the table |
| HuffmanCodec.OneSymbol | TPIIAEDsIII.py:65 | a text of one repeated symbol has one entry counting the whole text |
| HuffmanCodec.RoundTrip | TPIIAEDsIII.py:65-121 | a text with two or more distinct symbols compresses, and decompresses with its own tree to itself |
| HuffmanCodec.EncodeEmptyCodes | TPIIAEDsIII.py:72 | under a table of empty codes, every text it covers encodes to no bits |
| HuffmanCodec.OneSymbolIsLost | TPIIAEDsIII.py:39-40 | a text of one distinct symbol compresses to `[8, 0]`, which decompresses to the empty text |
| HuffmanCodec.PackedNothing | TPIIAEDsIII.py:73-80 | no bits pack to a header of 8 and one zero byte |
| HuffmanCodec.UnpackPaddingOnly | TPIIAEDsIII.py:103-106 | the file `[8, 0]` unpacks to no bits |
| HuffmanCodec.EncodeOneBit | TPIIAEDsIII.py:72 | with the one-bit code for a lone symbol, a text of that symbol encodes to one bit per symbol |
| HuffmanCodec.FixedRoundTrip | TPIIAEDsIII.py:39-40 | once a lone leaf gets the code `0`, every non-empty text decompresses to itself |
| MenuGate.Next | TPIIAEDsIII.py:142-155 | the flag changes exactly when an allowed operation runs and succeeds, and it becomes set only through a compression |
| MenuGate.GateAllows | TPIIAEDsIII.py:142-158 | compress runs exactly on option 1 with the flag clear, and decompress exactly on option 2 with the flag set; 3 exits; anything else is invalid |
| MenuGate.SuccessesAlternate | TPIIAEDsIII.py:133-155 | in any session the successful operations alternate, starting with compression from the initial clear flag |
| MenuGate.FinalCountsSuccesses | TPIIAEDsIII.py:133-155 | the flag at the end of a session is set exactly when there was an odd number of successes (from a clear flag) |
| KeyTrees.OrderedIsLoose | TPIAEDsIII.py:66-75 | a strictly ordered tree is ordered in the non-strict sense |
| KeyTrees.InorderKeys | TPIAEDsIII.py:66-75 | the in-order sequence holds exactly the keys of the tree |
| KeyTrees.BstInsert | TPIAEDsIII.py:66-75 | insertion adds the key to the key set and keeps the root key of a non-empty tree |
| KeyTrees.BstInsertOrdered | TPIAEDsIII.py:66-75 | insertion keeps the strict order left < node < right |
| KeyTrees.BstInsertExisting | TPIAEDsIII.py:74 | inserting a key already in an ordered tree leaves the tree unchanged |
| KeyTrees.Search | TPIAEDsIII.py:33-55 | a found subtree has the key searched for, and the count is between 1 and the height plus 1 |
| KeyTrees.SearchFinds | TPIAEDsIII.py:33-55 | on an ordered tree the search finds the key exactly when the key is in the tree |
| KeyTrees.SearchPath | TPIAEDsIII.py:33-55 | the count is one more than the length of the path followed, which ends at the found node or at the missing child; each step of the path is taken at a node whose key differs from v, to the left exactly when v is smaller |
| KeyTrees.RotateRight | TPIAEDsIII.py:108-113 | the former left child becomes the root, and the in-order sequence and key set stay the same |
| KeyTrees.RotateLeft | TPIAEDsIII.py:115-120 | the former right child becomes the root, and the in-order sequence and key set stay the same |
| KeyTrees.DoubleRight | TPIAEDsIII.py:93-95 | a left rotation of the left child and then a right rotation make the left child's right child the root, keeping the in-order sequence |
| KeyTrees.DoubleLeft | TPIAEDsIII.py:96-98 | a right rotation of the right child and then a left rotation make the right child's left child the root, keeping the in-order sequence |
| KeyTrees.RotateRightOrdered | TPIAEDsIII.py:108-113 | a right rotation keeps an ordered tree ordered |
| KeyTrees.RotateLeftOrdered | TPIAEDsIII.py:115-120 | a left rotation keeps an ordered tree ordered |
| KeyTrees.Rebalance | TPIAEDsIII.py:86-100 | a rebalancing step that succeeds keeps the key set and the in-order sequence |
| KeyTrees.RebalanceOrdered | TPIAEDsIII.py:86-100 | a rebalancing step that succeeds keeps an ordered tree ordered |
| KeyTrees.AvlInsert | TPIAEDsIII.py:77-100 | an AVL insertion that succeeds adds the key to the key set |
| KeyTrees.InsertSortedMultiset | TPIAEDsIII.py:77-84 | the reference sorted insertion adds exactly one copy of the key |
| KeyTrees.AvlInsertOrdered | TPIAEDsIII.py:77-100 | a successful AVL insertion keeps the tree ordered, and its in-order sequence is the old one with the key inserted before the first larger key |
| KeyTrees.RotateRightBalanced | TPIAEDsIII.py:89-90 | the single right rotation restores balance after growth on the outer left |
| KeyTrees.RotateLeftBalanced | TPIAEDsIII.py:91-92 | the single left rotation restores balance after growth on the outer right |
| KeyTrees.DoubleRightBalanced | TPIAEDsIII.py:93-95 | the left-right double rotation restores balance after growth on the inner left |
| KeyTrees.DoubleLeftBalanced | TPIAEDsIII.py:96-98 | the right-left double rotation restores balance after growth on the inner right |
| KeyTrees.RebalanceAfterLeft | TPIAEDsIII.py:86-100 | after a balanced insertion of a new smaller key on the left, the rebalancing step succeeds and rebalances the node |
| KeyTrees.RebalanceAfterRight | TPIAEDsIII.py:86-100 | after a balanced insertion of a new larger key on the right, the rebalancing step succeeds and rebalances the node |
| KeyTrees.AvlInsertUnique | TPIAEDsIII.py:77-100 | AVL insertion that ignores an equal key, as the plain insertion does; when it succeeds it adds the key to the key set |
| KeyTrees.AvlInsertUniqueBalanced | TPIAEDsIII.py:77-100 | insertion that ignores equal keys always succeeds on a balanced tree, keeps it balanced, and grows its height by at most one |
| KeyTrees.AvlInsertNewKey | TPIAEDsIII.py:81-84 | for a key not yet in the tree, the program's insertion and the one ignoring equal keys agree |
| KeyTrees.AvlInsertBalanced | TPIAEDsIII.py:77-100 | inserting a new key into a balanced tree succeeds, keeps every node balanced, and grows the height by at most one |
| KeyTrees.InsertAllDistinct | TPIAEDsIII.py:77-100 | inserting distinct new keys one by one succeeds and gives an ordered, balanced tree holding the old keys and the new ones |
| KeyTrees.DuplicateMovesLeft | TPIAEDsIII.py:83-84 | inserting 5, 5, 6 gives a tree whose root 5 has a left child 5, so strict order fails |
| KeyTrees.DuplicatesUnbalance | TPIAEDsIII.py:86-100 | inserting 5, 5, 5 matches no rotation case and leaves a chain of height 3 that is not balanced |
| KeyTrees.DuplicatesFail | TPIAEDsIII.py:93-98 | inserting 5, 5, 5, 5, 3 reaches a double rotation without an inner grandchild, which fails |
| TreeNodes.TreeNode.constructor | TPIAEDsIII.py:69 | a new node `[v, None, None]` standing for a leaf of key v |
| TreeNodes.Height | TPIAEDsIII.py:102-106 | the height of the nodes below a link is the height of the tree they stand for |
| TreeNodes.Search | TPIAEDsIII.py:33-55 | the search over the nodes returns the count of the search on values, and a node holding v exactly when that search finds a subtree, which is the found node's tree |
| TreeNodes.Insert | TPIAEDsIII.py:66-75 | insertion in place leaves valid nodes standing for the value-level insertion, returns the same root for a non-empty tree, and allocates only new nodes |
| TreeNodes.InsertLeft | TPIAEDsIII.py:70-71 | the left link is replaced by the insertion into the left subtree |
| TreeNodes.InsertRight | TPIAEDsIII.py:72-73 | the right link is replaced by the insertion into the right subtree |
| TreeNodes.RotateRight | TPIAEDsIII.py:108-113 | relinking in place makes the former left child the root of the same nodes, standing for the value-level right rotation |
| TreeNodes.RotateLeft | TPIAEDsIII.py:115-120 | relinking in place makes the former right child the root of the same nodes, standing for the value-level left rotation |
| TreeNodes.RotateLeftRight | TPIAEDsIII.py:93-95 | the two rotations in place stand for the value-level left-right double rotation on the same nodes |
| TreeNodes.RotateRightLeft | TPIAEDsIII.py:96-98 | the two rotations in place stand for the value-level right-left double rotation on the same nodes |
| TreeNodes.Rebalance | TPIAEDsIII.py:86-100 | the rebalancing step in place fails exactly when the value-level step does, and otherwise stands for its result on the same nodes |
| TreeNodes.InsertAvl | TPIAEDsIII.py:77-100 | AVL insertion in place fails exactly when the value-level insertion does, and otherwise stands for its result |
| TreeNodes.InsertAvlLeft | TPIAEDsIII.py:81-82 | the left link is replaced by the AVL insertion into the left subtree, which fails exactly when that one does |
| TreeNodes.InsertAvlRight | TPIAEDsIII.py:83-84 | the right link is replaced by the AVL insertion into the right subtree, which fails exactly when that one does |
| SequentialSearch.Search | TPIAEDsIII.py:57-64 | the first record with the key, with its 1-based position as the count and no earlier record with that key; or none, exactly when no record has the key, with the list length as the count |

## Left out

- File and console I/O of the codec: checking for and opening files, reading and writing them, `print`, and the progress log. Texts and compressed files are sequences in memory.
- `Decompress` takes the original text as a parameter instead of reading `entrada.txt` a second time.
- The `input()` loop of the menu: only the flag transition is modelled, with sessions as sequences of rounds whose success is a parameter.
- The binary heap of `heapq`: the queue is a list, and a pop takes the first node of least weight. `heapq` settles ties by heap positions, so with equal weights the tree shapes can differ from the program's (on "abcd" the program merges a with c first, the model a with b). The proofs of the tree's properties use no property of the tie-break.
- The file's bytes are values in 0..255 and the bits are the characters `0` and `1`, as in the program's strings. Python's byte and string objects are not modelled.
- A header byte larger than the data's bit count makes the slice drop every bit (`BitPacking.DropLast`). That case is modelled, but no error is raised for it, as in the program.
- The benchmark harness: random data and file generation, `ler_arquivo`, timing, float averages, the driver and its printing, and `sys.setrecursionlimit`. These are randomness, clocks, floats and I/O.
- The driver compares string keys parsed from the files with integer keys, so its linear searches never match. `SequentialSearch.Search` is modelled for any key type with its own equality.
- Records are modelled as (key, value) pairs. An empty record, which would raise an index error, is not modelled.
- TreeNodes.InsertAvl: a crash (a rotation reaching a missing grandchild) is modelled as a null result. The nodes the program had already relinked by then are not described; the contract says nothing about them.
- Python's recursion limit, which deep trees could reach, is not modelled.
- The starting count that a caller may pass to `buscar` and `buscar_avl`: the model always starts from 0, which every call in the program does by using the default.

## Findings

| source | as written | input that shows it | evidently intended | confidence | as-written member | corrected member |
|---|---|---|---|---|---|---|
| TPIIAEDsIII.py:39-40 | a tree made of a single leaf gives its symbol the empty code, so the encoded text is empty | the text "aaaa" compresses to `[8, 0]` and decompresses to the empty text | the lone symbol gets a one-bit code, so that every non-empty text comes back | not executed | HuffmanCodec.OneSymbolIsLost | HuffmanCodec.FixedRoundTrip |
| TPIAEDsIII.py:83-98 | AVL insertion sends an equal key to the right, where no rotation case may match, and a double rotation can then reach a missing grandchild | inserting 5, 5, 5, 5, 3 into an empty tree fails (a TypeError in the program) | an equal key is ignored, as plain insertion does, which keeps every insertion successful and balanced | not executed | KeyTrees.DuplicatesFail | KeyTrees.AvlInsertUniqueBalanced |

/**
 * The code table of the Huffman codec: every leaf's symbol gets the path
 * from the root to that leaf, '0' for a step to the left and '1' for a
 * step to the right; and the encoding of a text, the concatenation of
 * the codes of its symbols.
 */
module HuffmanCodes {
  import opened Wrappers
  import opened HuffmanTree

  /** A bit of an encoded text, written as the character '0' or '1'. */
  type Bit = b: char | b == '0' || b == '1' witness '0'

  /**
   * The subtree at the end of `path` from `t`, where '0' goes to the left
   * child and '1' to the right one; None when the path runs past a leaf.
   */
  function Descend(t: Tree, path: seq<Bit>): Option<Tree>
  {
    if path == [] then Some(t)
    else if t.Leaf? then None
    else Descend(if path[0] == '0' then t.left else t.right, path[1..])
  }

  /** The symbol of the leaf at the end of `path`, if the path ends at a leaf. */
  function LeafAt(t: Tree, path: seq<Bit>): Option<char>
  {
    match Descend(t, path)
    case Some(Leaf(c, _)) => Some(c)
    case _ => None
  }

  /**
   * The codes of the leaves under `t`, each the accumulated `prefix`
   * followed by the path from `t`; the left subtree is visited first, so
   * on a repeated symbol the entry of the right-most leaf remains.
   */
  function CodeMap(t: Tree, prefix: seq<Bit>): map<char, seq<Bit>>
  {
    match t
    case Leaf(c, _) => map[c := prefix]
    case Node(_, l, r) => CodeMap(l, prefix + ['0']) + CodeMap(r, prefix + ['1'])
  }

  /** The code table of a tree. */
  function Codes(root: Tree): map<char, seq<Bit>>
  {
    CodeMap(root, [])
  }

  /**
   * The depth-first walk that fills the code table: at a leaf it records
   * the prefix as the code of the leaf's symbol, at an internal node it
   * walks the left subtree with '0' appended and then the right one with
   * '1' appended.  The table the walk fills in place is passed in and
   * handed back.
   */
  method GenerateCodes(node: Tree, prefix: seq<Bit>, codes: map<char, seq<Bit>>)
    returns (filled: map<char, seq<Bit>>)
    ensures filled == codes + CodeMap(node, prefix)
    decreases node
  {
    if node.Leaf? {
      filled := codes[node.ch := prefix];
    } else {
      filled := GenerateCodes(node.left, prefix + ['0'], codes);
      filled := GenerateCodes(node.right, prefix + ['1'], filled);
      UnionAssociative(codes, CodeMap(node.left, prefix + ['0']), CodeMap(node.right, prefix + ['1']));
    }
  }

  lemma UnionAssociative<K, V>(a: map<K, V>, b: map<K, V>, c: map<K, V>)
    ensures a + b + c == a + (b + c)
  {
  }

  // ---------------------------------------------------------------------
  // Properties of the code table

  /** The table has an entry for exactly the symbols at the leaves. */
  lemma {:induction false} CodeMapKeys(t: Tree, prefix: seq<Bit>)
    ensures forall c :: c in CodeMap(t, prefix) <==> c in Symbols(t)
  {
    if t.Node? {
      CodeMapKeys(t.left, prefix + ['0']);
      CodeMapKeys(t.right, prefix + ['1']);
    }
  }

  /** Every entry is the prefix followed by a path to a leaf of that symbol. */
  lemma {:induction false} CodeMapPath(t: Tree, prefix: seq<Bit>, c: char)
    requires c in CodeMap(t, prefix)
    ensures prefix <= CodeMap(t, prefix)[c]
    ensures LeafAt(t, CodeMap(t, prefix)[c][|prefix|..]) == Some(c)
  {
    var code := CodeMap(t, prefix)[c];
    if t.Node? {
      var b: Bit := if c in CodeMap(t.right, prefix + ['1']) then '1' else '0';
      var child := if b == '0' then t.left else t.right;
      assert c in CodeMap(child, prefix + [b]) && code == CodeMap(child, prefix + [b])[c];
      CodeMapPath(child, prefix + [b], c);
      assert code[|prefix|..][1..] == code[|prefix| + 1..];
      assert code[|prefix|] == b;
    }
  }

  /** A path that ends at a leaf ends at one of the tree's symbols. */
  lemma {:induction false} LeafAtSymbol(t: Tree, path: seq<Bit>)
    requires LeafAt(t, path).Some?
    ensures LeafAt(t, path).value in Symbols(t)
  {
    if path != [] {
      LeafAtSymbol(if path[0] == '0' then t.left else t.right, path[1..]);
    }
  }

  /** No path to a leaf extends another: a leaf has nothing below it. */
  lemma {:induction false} LeafPathsPrefixFree(t: Tree, p: seq<Bit>, q: seq<Bit>)
    requires LeafAt(t, p).Some? && LeafAt(t, q).Some?
    requires p <= q
    ensures p == q
  {
    if p != [] {
      assert q[0] == p[0] && p[1..] <= q[1..];
      LeafPathsPrefixFree(if p[0] == '0' then t.left else t.right, p[1..], q[1..]);
    }
  }

  /** When a symbol sits at one leaf only, only one path leads to it. */
  lemma {:induction false} LeafPathUnique(t: Tree, p: seq<Bit>, q: seq<Bit>, c: char)
    requires LeafAt(t, p) == Some(c) && LeafAt(t, q) == Some(c)
    requires Symbols(t)[c] <= 1
    ensures p == q
  {
    if p != [] && q != [] {
      var lp := if p[0] == '0' then t.left else t.right;
      var lq := if q[0] == '0' then t.left else t.right;
      LeafAtSymbol(lp, p[1..]);
      LeafAtSymbol(lq, q[1..]);
      if p[0] == q[0] {
        LeafPathUnique(lp, p[1..], q[1..], c);
      }
    }
  }

  /**
   * The code table of a tree: one entry per leaf symbol, each entry the
   * root-to-leaf path of its symbol, no entry a prefix of another, and the
   * only path to its symbol when the symbol sits at one leaf only.
   */
  lemma {:induction false} CodesAreLeafPaths(root: Tree)
    ensures forall c :: c in Codes(root) <==> c in Symbols(root)
    ensures forall c :: c in Codes(root) ==> LeafAt(root, Codes(root)[c]) == Some(c)
    ensures forall c, d :: c in Codes(root) && d in Codes(root) && c != d ==>
              !(Codes(root)[c] <= Codes(root)[d])
    ensures forall c, p :: c in Codes(root) && Symbols(root)[c] <= 1 && LeafAt(root, p) == Some(c) ==>
              p == Codes(root)[c]
  {
    CodeMapKeys(root, []);
    forall c | c in Codes(root) ensures LeafAt(root, Codes(root)[c]) == Some(c) {
      CodeMapPath(root, [], c);
      assert Codes(root)[c][0..] == Codes(root)[c];
    }
    forall c, d | c in Codes(root) && d in Codes(root) && c != d
      ensures !(Codes(root)[c] <= Codes(root)[d])
    {
      if Codes(root)[c] <= Codes(root)[d] {
        LeafPathsPrefixFree(root, Codes(root)[c], Codes(root)[d]);
      }
    }
    forall c, p | c in Codes(root) && Symbols(root)[c] <= 1 && LeafAt(root, p) == Some(c)
      ensures p == Codes(root)[c]
    {
      LeafPathUnique(root, p, Codes(root)[c], c);
    }
  }

  /** Below an internal root every code has at least one bit; a lone leaf gets the empty code. */
  lemma {:induction false} CodeLengths(root: Tree)
    ensures root.Leaf? ==> Codes(root) == map[root.ch := []]
    ensures root.Node? ==> forall c :: c in Codes(root) ==> |Codes(root)[c]| > 0
  {
    if root.Node? {
      forall c | c in Codes(root) ensures |Codes(root)[c]| > 0 {
        CodeMapPath(root, [], c);
        assert Codes(root)[c][0..] == Codes(root)[c];
      }
    }
  }

  // ---------------------------------------------------------------------
  // Encoding

  /**
   * The encoded text: the codes of its symbols, in text order.  The first
   * symbol without a code stops the encoding.
   */
  function Encode(codes: map<char, seq<Bit>>, text: seq<char>): (r: Result<seq<Bit>, Error>)
    ensures r.Ok? <==> forall c :: c in text ==> c in codes
    ensures r.Err? ==> r.error.MissingCode? && r.error.c in text && r.error.c !in codes
  {
    if text == [] then Ok([])
    else if text[0] !in codes then Err(MissingCode(text[0]))
    else
      match Encode(codes, text[1..])
      case Err(e) => Err(e)
      case Ok(rest) => Ok(codes[text[0]] + rest)
  }

  /** Encoding a concatenation concatenates the encodings. */
  lemma {:induction false} EncodeConcat(codes: map<char, seq<Bit>>, a: seq<char>, b: seq<char>)
    requires Encode(codes, a).Ok? && Encode(codes, b).Ok?
    ensures Encode(codes, a + b) == Ok(Encode(codes, a).value + Encode(codes, b).value)
  {
    if a != [] {
      assert (a + b)[0] == a[0] && (a + b)[1..] == a[1..] + b;
      EncodeConcat(codes, a[1..], b);
      var x, y, z := codes[a[0]], Encode(codes, a[1..]).value, Encode(codes, b).value;
      assert Encode(codes, a).value == x + y;
      assert Encode(codes, a[1..] + b) == Ok(y + z);
      assert Encode(codes, a + b) == Ok(x + (y + z));
      assert x + (y + z) == (x + y) + z;
    } else {
      assert a + b == b && Encode(codes, a).value == [];
      assert Encode(codes, a).value + Encode(codes, b).value == Encode(codes, b).value;
      assert Encode(codes, a + b) == Ok(Encode(codes, b).value);
    }
  }
}

/**
 * Decoding: a walk down the Huffman tree that follows one bit at a time,
 * emits the symbol of every leaf it reaches and starts again at the root.
 */
module HuffmanDecode {
  import opened Wrappers
  import opened HuffmanTree
  import opened HuffmanCodes

  /**
   * The state of the walk: the current node and the symbols emitted so
   * far, or Broken once a bit has been read at a leaf, which has no child
   * to step to.
   */
  datatype Walk = At(node: Tree, out: seq<char>) | Broken

  /** One bit of the walk: '0' steps to the left child, any other bit to the right one. */
  function Step(root: Tree, w: Walk, b: Bit): Walk
  {
    match w
    case Broken => Broken
    case At(node, out) =>
      if node.Leaf? then Broken
      else
        var next := if b == '0' then node.left else node.right;
        if next.Leaf? then At(root, out + [next.ch]) else At(next, out)
  }

  /** The walk over a whole bit string. */
  function Run(root: Tree, w: Walk, bits: seq<Bit>): Walk
    decreases |bits|
  {
    if bits == [] then w else Run(root, Step(root, w, bits[0]), bits[1..])
  }

  /** The decoded text of a bit string; a walk left inside the tree drops its last partial code. */
  function DecodeBits(root: Tree, bits: seq<Bit>): Result<seq<char>, Error>
  {
    match Run(root, At(root, []), bits)
    case Broken => Err(MissingChild)
    case At(_, out) => Ok(out)
  }

  /** Once broken, the walk stays broken. */
  lemma {:induction false} RunBroken(root: Tree, bits: seq<Bit>)
    ensures Run(root, Broken, bits) == Broken
  {
    if bits != [] {
      RunBroken(root, bits[1..]);
    }
  }

  /** Walking a concatenation walks its parts one after the other. */
  lemma {:induction false} RunConcat(root: Tree, w: Walk, a: seq<Bit>, b: seq<Bit>)
    ensures Run(root, w, a + b) == Run(root, Run(root, w, a), b)
    decreases |a|
  {
    if a == [] {
      assert a + b == b;
    } else {
      assert (a + b)[0] == a[0] && (a + b)[1..] == a[1..] + b;
      RunConcat(root, Step(root, w, a[0]), a[1..], b);
    }
  }

  /**
   * The decoder loop: the current node and the decoded symbols are
   * updated bit by bit; reading a bit at a leaf (a tree of a single
   * symbol) is an error.
   */
  method DecodeWalk(root: Tree, bits: seq<Bit>) returns (r: Result<seq<char>, Error>)
    ensures r == DecodeBits(root, bits)
  {
    var current := root;
    var decoded: seq<char> := [];
    var i := 0;
    while i < |bits|
      invariant 0 <= i <= |bits|
      invariant Run(root, At(root, []), bits) == Run(root, At(current, decoded), bits[i..])
      decreases |bits| - i
    {
      assert bits[i..][0] == bits[i] && bits[i..][1..] == bits[i + 1..];
      if current.Leaf? {
        RunBroken(root, bits[i + 1..]);
        return Err(MissingChild);
      }
      current := if bits[i] == '0' then current.left else current.right;
      if current.Leaf? {
        decoded := decoded + [current.ch];
        current := root;
      }
      i := i + 1;
    }
    r := Ok(decoded);
  }

  /**
   * From an internal node, a path that ends at a leaf of symbol c emits c
   * and brings the walk back to the root.
   */
  lemma {:induction false} WalkToLeaf(root: Tree, node: Tree, path: seq<Bit>, out: seq<char>, c: char)
    requires node.Node? && LeafAt(node, path) == Some(c)
    ensures Run(root, At(node, out), path) == At(root, out + [c])
  {
    var next := if path[0] == '0' then node.left else node.right;
    assert Descend(node, path) == Descend(next, path[1..]);
    assert Run(root, At(node, out), path) == Run(root, Step(root, At(node, out), path[0]), path[1..]);
    if next.Leaf? {
      assert path[1..] == [] && c == next.ch;
    } else {
      if path[1..] == [] {
        assert Descend(node, path) == Some(next);
      }
      WalkToLeaf(root, next, path[1..], out, c);
    }
  }

  /**
   * From an internal node, a non-empty path that stays inside the tree
   * leaves the walk at the node it reaches, emitting nothing.
   */
  lemma {:induction false} WalkInside(root: Tree, node: Tree, path: seq<Bit>, out: seq<char>)
    requires node.Node? && Descend(node, path).Some? && Descend(node, path).value.Node?
    ensures Run(root, At(node, out), path) == At(Descend(node, path).value, out)
  {
    if path != [] {
      var next := if path[0] == '0' then node.left else node.right;
      if next.Node? {
        WalkInside(root, next, path[1..], out);
      }
    }
  }

  /** The encoding of a text under an internal root walks back to the root, emitting the text. */
  lemma {:induction false} RunEncoded(root: Tree, text: seq<char>, bits: seq<Bit>, out: seq<char>)
    requires root.Node?
    requires Encode(Codes(root), text) == Ok(bits)
    ensures Run(root, At(root, out), bits) == At(root, out + text)
  {
    if text == [] {
      assert out + text == out;
    } else {
      var code := Codes(root)[text[0]];
      var rest := Encode(Codes(root), text[1..]).value;
      assert bits == code + rest;
      CodeMapPath(root, [], text[0]);
      assert code[0..] == code;
      WalkToLeaf(root, root, code, out, text[0]);
      RunConcat(root, At(root, out), code, rest);
      RunEncoded(root, text[1..], rest, out + [text[0]]);
      assert out + [text[0]] + text[1..] == out + text;
    }
  }

  /**
   * Decoding the encoding of a text under an internal root gives the
   * text back, and any trailing bits that stop inside the tree are
   * dropped without an error.
   */
  lemma DecodeEncoded(root: Tree, text: seq<char>, tail: seq<Bit>)
    requires root.Node?
    requires Encode(Codes(root), text).Ok?
    requires tail == [] || (Descend(root, tail).Some? && Descend(root, tail).value.Node?)
    ensures DecodeBits(root, Encode(Codes(root), text).value + tail) == Ok(text)
  {
    var bits := Encode(Codes(root), text).value;
    RunEncoded(root, text, bits, []);
    RunConcat(root, At(root, []), bits, tail);
    assert [] + text == text;
    if tail != [] {
      WalkInside(root, root, tail, text);
    }
  }
}

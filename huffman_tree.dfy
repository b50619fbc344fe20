/**
 * The coding-tree part of the Huffman codec: the node type, the frequency
 * count of the input text and the construction of the tree by repeated
 * merges of the two lightest nodes of a priority queue.
 */
module HuffmanTree {
  import opened Wrappers

  /** A node of the coding tree: a leaf carries a symbol, an internal node two children. */
  datatype Tree =
    | Leaf(ch: char, freq: nat)
    | Node(freq: nat, left: Tree, right: Tree)

  /** Why an operation of the codec gives up. */
  datatype Error =
    | EmptyInput          // no symbol to build a tree from
    | MissingCode(c: char) // a symbol of the text has no code
    | EmptyPayload        // the compressed file has no header byte
    | MissingChild        // the decoder walked below a leaf

  // ---------------------------------------------------------------------
  // Frequency count

  /** Number of occurrences of `c` in `text`. */
  function Count(text: seq<char>, c: char): nat
  {
    if text == [] then 0
    else Count(text[..|text| - 1], c) + (if text[|text| - 1] == c then 1 else 0)
  }

  /** The symbols of a frequency table, in table order. */
  function SymbolsOf(f: seq<(char, nat)>): (s: seq<char>)
    ensures |s| == |f|
    ensures forall i :: 0 <= i < |f| ==> s[i] == f[i].0
  {
    if f == [] then [] else [f[0].0] + SymbolsOf(f[1..])
  }

  /** Sum of the counts of a frequency table. */
  function CountSum(f: seq<(char, nat)>): nat
  {
    if f == [] then 0 else f[0].1 + CountSum(f[1..])
  }

  /** One more occurrence of `c`: its entry grows by one, or a new entry is appended. */
  function Tally(f: seq<(char, nat)>, c: char): (g: seq<(char, nat)>)
  {
    if f == [] then [(c, 1)]
    else if f[0].0 == c then [(c, f[0].1 + 1)] + f[1..]
    else [f[0]] + Tally(f[1..], c)
  }

  /**
   * The symbol counts of the text, one entry per distinct symbol, in the
   * order of first occurrence (the order a counting dictionary keeps).
   */
  function Frequencies(text: seq<char>): seq<(char, nat)>
  {
    if text == [] then []
    else Tally(Frequencies(text[..|text| - 1]), text[|text| - 1])
  }

  /** No symbol is listed twice. */
  ghost predicate Distinct(s: seq<char>)
  {
    forall i, j :: 0 <= i < j < |s| ==> s[i] != s[j]
  }

  lemma {:induction false} TallySymbols(f: seq<(char, nat)>, c: char)
    ensures SymbolsOf(Tally(f, c)) == if c in SymbolsOf(f) then SymbolsOf(f) else SymbolsOf(f) + [c]
  {
    if f != [] {
      assert SymbolsOf(f) == [f[0].0] + SymbolsOf(f[1..]);
      if f[0].0 != c {
        TallySymbols(f[1..], c);
        assert SymbolsOf(Tally(f, c)) == [f[0].0] + SymbolsOf(Tally(f[1..], c));
      } else {
        assert SymbolsOf(Tally(f, c)) == [c] + SymbolsOf(f[1..]);
      }
    }
  }

  lemma {:induction false} TallySum(f: seq<(char, nat)>, c: char)
    ensures CountSum(Tally(f, c)) == CountSum(f) + 1
  {
    if f != [] {
      if f[0].0 != c {
        TallySum(f[1..], c);
        assert Tally(f, c)[1..] == Tally(f[1..], c);
      } else {
        assert Tally(f, c)[1..] == f[1..];
      }
    }
  }

  /** The `i`-th entry after a tally: the same symbol, counted once more if it is `c`. */
  lemma {:induction false} TallyAt(f: seq<(char, nat)>, c: char, i: nat)
    requires Distinct(SymbolsOf(f))
    requires i < |Tally(f, c)|
    ensures i < |f| ==> Tally(f, c)[i] == (f[i].0, f[i].1 + if f[i].0 == c then 1 else 0)
    ensures i >= |f| ==> i == |f| && c !in SymbolsOf(f) && Tally(f, c)[i] == (c, 1)
  {
    if f != [] {
      assert SymbolsOf(f) == [f[0].0] + SymbolsOf(f[1..]);
      if f[0].0 != c {
        if i > 0 {
          assert Distinct(SymbolsOf(f[1..]));
          TallyAt(f[1..], c, i - 1);
        }
      } else if i > 0 {
        assert SymbolsOf(f)[i] == f[i].0 && SymbolsOf(f)[0] == c;
      }
    }
  }

  lemma {:induction false} CountPositive(text: seq<char>, c: char)
    ensures Count(text, c) > 0 <==> c in text
  {
    if text != [] {
      var init := text[..|text| - 1];
      assert text == init + [text[|text| - 1]];
      CountPositive(init, c);
    }
  }

  /** The table lists each symbol of the text once, and no other symbol. */
  lemma {:induction false} FrequenciesSymbols(text: seq<char>)
    ensures Distinct(SymbolsOf(Frequencies(text)))
    ensures forall c :: c in text <==> c in SymbolsOf(Frequencies(text))
  {
    if text != [] {
      var init := text[..|text| - 1];
      var c := text[|text| - 1];
      FrequenciesSymbols(init);
      TallySymbols(Frequencies(init), c);
      assert text == init + [c];
    }
  }

  /** The counts of the table add up to the length of the text. */
  lemma {:induction false} FrequenciesSum(text: seq<char>)
    ensures CountSum(Frequencies(text)) == |text|
  {
    if text != [] {
      FrequenciesSum(text[..|text| - 1]);
      TallySum(Frequencies(text[..|text| - 1]), text[|text| - 1]);
    }
  }

  /** Each entry counts the occurrences of its symbol, which is at least one. */
  lemma {:induction false} FrequencyAt(text: seq<char>, i: nat)
    requires i < |Frequencies(text)|
    ensures Frequencies(text)[i].1 == Count(text, Frequencies(text)[i].0) > 0
  {
    var f := Frequencies(text);
    var init := text[..|text| - 1];
    var c := text[|text| - 1];
    var prev := Frequencies(init);
    assert f == Tally(prev, c);
    FrequenciesSymbols(init);
    TallyAt(prev, c, i);
    var d := f[i].0;
    assert Count(text, d) == Count(init, d) + (if c == d then 1 else 0);
    if i < |prev| {
      FrequencyAt(init, i);
    } else {
      CountPositive(init, c);
    }
  }

  // ---------------------------------------------------------------------
  // The priority queue, modelled as a list

  /** Sum of the weights of the nodes in a queue. */
  function TotalWeight(h: seq<Tree>): nat
  {
    if h == [] then 0 else h[0].freq + TotalWeight(h[1..])
  }

  /** The symbols at the leaves of a tree, with multiplicity. */
  function Symbols(t: Tree): multiset<char>
  {
    match t
    case Leaf(c, _) => multiset{c}
    case Node(_, l, r) => Symbols(l) + Symbols(r)
  }

  /** The symbols at the leaves of all trees of a queue. */
  function QueueSymbols(h: seq<Tree>): multiset<char>
  {
    if h == [] then multiset{} else Symbols(h[0]) + QueueSymbols(h[1..])
  }

  /**
   * Position of the node that a pop removes: a node of least weight, and
   * among those the first in queue order (the documented tie-break).
   */
  function MinIndex(h: seq<Tree>): (i: nat)
    requires |h| > 0
    ensures i < |h|
  {
    if |h| == 1 then 0
    else
      var k := MinIndex(h[1..]) + 1;
      if h[0].freq <= h[k].freq then 0 else k
  }

  /** The popped node weighs no more than any node, and less than every node before it. */
  lemma {:induction false} MinIndexIsFirstLightest(h: seq<Tree>)
    requires |h| > 0
    ensures forall j :: 0 <= j < |h| ==> h[MinIndex(h)].freq <= h[j].freq
    ensures forall j :: 0 <= j < MinIndex(h) ==> h[MinIndex(h)].freq < h[j].freq
  {
    if |h| > 1 {
      MinIndexIsFirstLightest(h[1..]);
      var k := MinIndex(h[1..]) + 1;
      assert h[k] == h[1..][k - 1];
      forall j | 0 < j < |h| ensures h[k].freq <= h[j].freq {
        assert h[j] == h[1..][j - 1];
      }
      forall j | 0 < j < k ensures h[k].freq < h[j].freq {
        assert h[j] == h[1..][j - 1];
      }
    }
  }

  /** The queue without its `i`-th node, the others keeping their order. */
  function Remove(h: seq<Tree>, i: nat): (g: seq<Tree>)
    requires i < |h|
    ensures |g| == |h| - 1
  {
    h[..i] + h[i + 1..]
  }

  /** The leaves the queue starts with, one per table entry. */
  function Leaves(f: seq<(char, nat)>): (h: seq<Tree>)
    ensures |h| == |f|
    ensures forall i :: 0 <= i < |f| ==> h[i] == Leaf(f[i].0, f[i].1)
  {
    if f == [] then [] else [Leaf(f[0].0, f[0].1)] + Leaves(f[1..])
  }

  /**
   * One round of the merge loop: pop the lightest node, pop the lightest
   * of the rest, push a node over them whose weight is the sum of theirs,
   * the first popped on the left.
   */
  function MergeRound(h: seq<Tree>): (g: seq<Tree>)
    requires |h| > 1
    ensures |g| == |h| - 1
  {
    var i := MinIndex(h);
    var h1 := Remove(h, i);
    var j := MinIndex(h1);
    Remove(h1, j) + [Node(h[i].freq + h1[j].freq, h[i], h1[j])]
  }

  /** The node the merge loop leaves in the queue, once one node remains. */
  function Merge(h: seq<Tree>): Tree
    requires |h| > 0
    decreases |h|
  {
    if |h| == 1 then h[0] else Merge(MergeRound(h))
  }

  /** The coding tree of a frequency table; an empty table has none. */
  function CodingTree(f: seq<(char, nat)>): Result<Tree, Error>
  {
    if f == [] then Err(EmptyInput) else Ok(Merge(Leaves(f)))
  }

  /**
   * Builds the coding tree: one leaf per table entry in a queue, then the
   * merge loop until one node is left, which is the root.  An empty table
   * leaves an empty queue, whose first element does not exist.
   */
  method BuildTree(f: seq<(char, nat)>) returns (r: Result<Tree, Error>)
    ensures r == CodingTree(f)
  {
    var heap := Leaves(f);
    ghost var root := if f == [] then Leaf(' ', 0) else Merge(heap);
    while |heap| > 1
      invariant |heap| == 0 <==> f == []
      invariant f != [] ==> Merge(heap) == root
      decreases |heap|
    {
      ghost var before := heap;
      var i := MinIndex(heap);
      var no1 := heap[i];
      heap := Remove(heap, i);
      var j := MinIndex(heap);
      var no2 := heap[j];
      heap := Remove(heap, j);
      var combined := Node(no1.freq + no2.freq, no1, no2);
      heap := heap + [combined];
      assert heap == MergeRound(before);
    }
    if |heap| == 0 {
      return Err(EmptyInput);
    }
    r := Ok(heap[0]);
  }

  // ---------------------------------------------------------------------
  // Properties of the tree

  /** Every internal node weighs what its two children weigh together. */
  ghost predicate WellWeighted(t: Tree)
  {
    t.Node? ==> t.freq == t.left.freq + t.right.freq && WellWeighted(t.left) && WellWeighted(t.right)
  }

  ghost predicate AllWellWeighted(h: seq<Tree>)
  {
    h != [] ==> WellWeighted(h[0]) && AllWellWeighted(h[1..])
  }

  /** Number of internal nodes, i.e. of merges that built the tree. */
  function Merges(t: Tree): nat
  {
    match t
    case Leaf(_, _) => 0
    case Node(_, l, r) => 1 + Merges(l) + Merges(r)
  }

  function QueueMerges(h: seq<Tree>): nat
  {
    if h == [] then 0 else Merges(h[0]) + QueueMerges(h[1..])
  }

  lemma {:induction false} AppendCounts(h: seq<Tree>, t: Tree)
    ensures TotalWeight(h + [t]) == TotalWeight(h) + t.freq
    ensures QueueMerges(h + [t]) == QueueMerges(h) + Merges(t)
  {
    if h != [] {
      assert (h + [t])[1..] == h[1..] + [t];
      AppendCounts(h[1..], t);
    }
  }

  lemma {:induction false} AppendSymbols(h: seq<Tree>, t: Tree)
    ensures QueueSymbols(h + [t]) == QueueSymbols(h) + Symbols(t)
  {
    if h != [] {
      assert (h + [t])[1..] == h[1..] + [t];
      AppendSymbols(h[1..], t);
    }
  }

  lemma {:induction false} AppendWellWeighted(h: seq<Tree>, t: Tree)
    requires AllWellWeighted(h) && WellWeighted(t)
    ensures AllWellWeighted(h + [t])
  {
    if h != [] {
      assert (h + [t])[1..] == h[1..] + [t];
      AppendWellWeighted(h[1..], t);
    }
  }

  lemma {:induction false} RemoveCounts(h: seq<Tree>, i: nat)
    requires i < |h|
    ensures TotalWeight(Remove(h, i)) + h[i].freq == TotalWeight(h)
    ensures QueueMerges(Remove(h, i)) + Merges(h[i]) == QueueMerges(h)
  {
    if i == 0 {
      assert Remove(h, i) == h[1..];
    } else {
      assert Remove(h, i) == [h[0]] + Remove(h[1..], i - 1);
      RemoveCounts(h[1..], i - 1);
    }
  }

  lemma {:induction false} RemoveSymbols(h: seq<Tree>, i: nat)
    requires i < |h|
    ensures QueueSymbols(Remove(h, i)) + Symbols(h[i]) == QueueSymbols(h)
  {
    if i == 0 {
      assert Remove(h, i) == h[1..];
    } else {
      assert Remove(h, i) == [h[0]] + Remove(h[1..], i - 1);
      RemoveSymbols(h[1..], i - 1);
    }
  }

  lemma {:induction false} RemoveWellWeighted(h: seq<Tree>, i: nat)
    requires i < |h| && AllWellWeighted(h)
    ensures WellWeighted(h[i]) && AllWellWeighted(Remove(h, i))
  {
    if i == 0 {
      assert Remove(h, i) == h[1..];
    } else {
      assert Remove(h, i) == [h[0]] + Remove(h[1..], i - 1);
      RemoveWellWeighted(h[1..], i - 1);
    }
  }

  /** A merge round keeps the weight of the queue and adds one merge. */
  lemma {:induction false} MergeRoundCounts(h: seq<Tree>)
    requires |h| > 1
    ensures TotalWeight(MergeRound(h)) == TotalWeight(h)
    ensures QueueMerges(MergeRound(h)) == QueueMerges(h) + 1
  {
    var i := MinIndex(h);
    var h1 := Remove(h, i);
    var j := MinIndex(h1);
    var h2 := Remove(h1, j);
    var n := Node(h[i].freq + h1[j].freq, h[i], h1[j]);
    assert MergeRound(h) == h2 + [n];
    RemoveCounts(h, i);
    RemoveCounts(h1, j);
    AppendCounts(h2, n);
  }

  /** A merge round keeps the symbols of the queue. */
  lemma {:induction false} MergeRoundSymbols(h: seq<Tree>)
    requires |h| > 1
    ensures QueueSymbols(MergeRound(h)) == QueueSymbols(h)
  {
    var i := MinIndex(h);
    var h1 := Remove(h, i);
    var j := MinIndex(h1);
    var h2 := Remove(h1, j);
    var n := Node(h[i].freq + h1[j].freq, h[i], h1[j]);
    assert MergeRound(h) == h2 + [n];
    RemoveSymbols(h, i);
    RemoveSymbols(h1, j);
    AppendSymbols(h2, n);
    var a, b, rest := Symbols(h[i]), Symbols(h1[j]), QueueSymbols(h2);
    assert QueueSymbols(h2 + [n]) == rest + (a + b);
    assert QueueSymbols(h) == (rest + b) + a;
  }

  /** A merge round keeps every tree of the queue well weighted. */
  lemma {:induction false} MergeRoundWellWeighted(h: seq<Tree>)
    requires |h| > 1 && AllWellWeighted(h)
    ensures AllWellWeighted(MergeRound(h))
  {
    var i := MinIndex(h);
    var h1 := Remove(h, i);
    var j := MinIndex(h1);
    var h2 := Remove(h1, j);
    var n := Node(h[i].freq + h1[j].freq, h[i], h1[j]);
    assert MergeRound(h) == h2 + [n];
    RemoveWellWeighted(h, i);
    assert AllWellWeighted(h1);
    RemoveWellWeighted(h1, j);
    assert WellWeighted(h[i]);
    assert WellWeighted(h1[j]);
    assert WellWeighted(n);
    AppendWellWeighted(h2, n);
  }

  /**
   * The merge loop builds a well-weighted tree that carries the weight and
   * the symbols of the queue, with one merge fewer than there were nodes.
   */
  lemma {:induction false} MergeInvariants(h: seq<Tree>)
    requires |h| > 0
    requires AllWellWeighted(h)
    ensures WellWeighted(Merge(h))
    ensures Merge(h).freq == TotalWeight(h)
    ensures Symbols(Merge(h)) == QueueSymbols(h)
    ensures Merges(Merge(h)) == QueueMerges(h) + |h| - 1
    decreases |h|
  {
    if |h| == 1 {
      assert h[1..] == [];
    } else {
      MergeRoundCounts(h);
      MergeRoundSymbols(h);
      MergeRoundWellWeighted(h);
      MergeInvariants(MergeRound(h));
    }
  }

  /** A queue of two or more nodes is merged into an internal node. */
  lemma {:induction false} MergeOfManyIsNode(h: seq<Tree>)
    requires |h| > 1
    ensures Merge(h).Node?
    decreases |h|
  {
    var g := MergeRound(h);
    if |g| > 1 {
      MergeOfManyIsNode(g);
    } else {
      assert g[0] == g[|g| - 1];
    }
  }

  lemma {:induction false} LeavesOfTable(f: seq<(char, nat)>)
    ensures TotalWeight(Leaves(f)) == CountSum(f)
    ensures QueueMerges(Leaves(f)) == 0
    ensures AllWellWeighted(Leaves(f))
  {
    if f != [] {
      LeavesOfTable(f[1..]);
      assert Leaves(f)[1..] == Leaves(f[1..]);
    }
  }

  lemma {:induction false} LeafSymbolsOfTable(f: seq<(char, nat)>)
    ensures forall c :: c in QueueSymbols(Leaves(f)) <==> c in SymbolsOf(f)
    ensures Distinct(SymbolsOf(f)) ==> forall c :: QueueSymbols(Leaves(f))[c] <= 1
  {
    if f != [] {
      LeafSymbolsOfTable(f[1..]);
      assert Leaves(f)[1..] == Leaves(f[1..]);
      assert SymbolsOf(f) == [f[0].0] + SymbolsOf(f[1..]);
      if Distinct(SymbolsOf(f)) {
        assert Distinct(SymbolsOf(f[1..]));
        assert f[0].0 !in SymbolsOf(f[1..]) by {
          forall k | 0 <= k < |f[1..]| ensures SymbolsOf(f[1..])[k] != f[0].0 {
            assert SymbolsOf(f[1..])[k] == SymbolsOf(f)[k + 1];
          }
        }
      }
    }
  }

  /**
   * The tree built for a text: its root weighs the length of the text, it
   * has one leaf per distinct symbol of the text and one internal node
   * fewer, and every internal node weighs the sum of its children.
   */
  lemma {:induction false} CodingTreeOfText(text: seq<char>)
    requires text != []
    ensures CodingTree(Frequencies(text)).Ok?
    ensures var t := CodingTree(Frequencies(text)).value;
            && WellWeighted(t)
            && t.freq == |text|
            && (forall c :: c in Symbols(t) <==> c in text)
            && (forall c :: Symbols(t)[c] <= 1)
            && Merges(t) + 1 == |Frequencies(text)|
  {
    var f := Frequencies(text);
    FrequenciesSymbols(text);
    FrequenciesSum(text);
    assert text[0] in SymbolsOf(f);
    LeavesOfTable(f);
    LeafSymbolsOfTable(f);
    MergeInvariants(Leaves(f));
  }

  /** The root is an internal node exactly when the text has two or more distinct symbols. */
  lemma {:induction false} CodingTreeShape(text: seq<char>)
    requires text != []
    ensures CodingTree(Frequencies(text)).Ok?
    ensures CodingTree(Frequencies(text)).value.Node? <==> |Frequencies(text)| > 1
  {
    var f := Frequencies(text);
    FrequenciesSymbols(text);
    assert text[0] in SymbolsOf(f);
    if |f| > 1 {
      MergeOfManyIsNode(Leaves(f));
    } else {
      assert Merge(Leaves(f)) == Leaves(f)[0];
    }
  }
}

/**
 * Compression and decompression of a text.  Compression counts the
 * symbols, builds the Huffman tree, encodes the text with the tree's
 * code table and packs the bits; decompression unpacks the bits and
 * decodes them with a tree rebuilt from the original text, as the
 * program does by reading its input file a second time.
 */
module HuffmanCodec {
  import opened Wrappers
  import opened HuffmanTree
  import opened HuffmanCodes
  import opened BitPacking
  import opened HuffmanDecode

  /** The compressed file of a text; an empty text is refused. */
  function CompressSpec(text: seq<char>): Result<seq<Byte>, Error>
  {
    if text == [] then Err(EmptyInput)
    else
      match CodingTree(Frequencies(text))
      case Err(e) => Err(e)
      case Ok(root) =>
        match Encode(Codes(root), text)
        case Err(e) => Err(e)
        case Ok(bits) => Ok(Packed(bits))
  }

  /**
   * The text of a compressed file, decoded with the tree of `original`.
   * An empty file fails before the original text is read, an empty
   * original text fails before any bit is decoded.
   */
  function DecompressSpec(file: seq<Byte>, original: seq<char>): Result<seq<char>, Error>
  {
    match Unpack(file)
    case Err(e) => Err(e)
    case Ok(bits) =>
      match CodingTree(Frequencies(original))
      case Err(e) => Err(e)
      case Ok(root) => DecodeBits(root, bits)
  }

  method Compress(text: seq<char>) returns (r: Result<seq<Byte>, Error>)
    ensures r == CompressSpec(text)
  {
    if text == [] {
      return Err(EmptyInput);
    }
    var frequencies := Frequencies(text);
    var tree := BuildTree(frequencies);
    if tree.Err? {
      return Err(tree.error);
    }
    var codes := GenerateCodes(tree.value, [], map[]);
    assert codes == Codes(tree.value);
    var encoded := Encode(codes, text);
    if encoded.Err? {
      return Err(encoded.error);
    }
    var file := Pack(encoded.value);
    r := Ok(file);
  }

  method Decompress(file: seq<Byte>, original: seq<char>) returns (r: Result<seq<char>, Error>)
    ensures r == DecompressSpec(file, original)
  {
    var bits := Unpack(file);
    if bits.Err? {
      return Err(bits.error);
    }
    var tree := BuildTree(Frequencies(original));
    if tree.Err? {
      return Err(tree.error);
    }
    r := DecodeWalk(tree.value, bits.value);
  }

  // ---------------------------------------------------------------------
  // Properties

  /** Every symbol of a text has a code in the table of the text's tree. */
  lemma EncodeTotal(text: seq<char>)
    requires text != []
    ensures CodingTree(Frequencies(text)).Ok?
    ensures Encode(Codes(CodingTree(Frequencies(text)).value), text).Ok?
  {
    CodingTreeOfText(text);
    CodeMapKeys(CodingTree(Frequencies(text)).value, []);
  }

  /** Compression fails exactly on the empty text. */
  lemma CompressSucceeds(text: seq<char>)
    ensures CompressSpec(text).Ok? <==> text != []
    ensures text == [] ==> CompressSpec(text) == Err(EmptyInput)
  {
    if text != [] {
      EncodeTotal(text);
    }
  }

  /** The error cases of decompression, in the order the program meets them. */
  lemma DecompressErrors(file: seq<Byte>, original: seq<char>)
    ensures file == [] ==> DecompressSpec(file, original) == Err(EmptyPayload)
    ensures file != [] && original == [] ==> DecompressSpec(file, original) == Err(EmptyInput)
  {
  }

  /** Two different symbols at positions i and j give two entries in the frequency table. */
  lemma TwoSymbols(text: seq<char>, i: nat, j: nat)
    requires i < |text| && j < |text| && text[i] != text[j]
    ensures |Frequencies(text)| > 1
  {
    var f := Frequencies(text);
    FrequenciesSymbols(text);
    assert text[i] in text && text[j] in text;
    TwoMembers(SymbolsOf(f), text[i], text[j]);
  }

  /** A text made of one repeated symbol has a single entry in the frequency table, counting the whole text. */
  lemma {:induction false} OneSymbol(text: seq<char>)
    requires text != []
    requires forall k :: 0 <= k < |text| ==> text[k] == text[0]
    ensures Frequencies(text) == [(text[0], |text|)]
  {
    var init := text[..|text| - 1];
    if init != [] {
      assert init[0] == text[0];
      OneSymbol(init);
    }
  }

  lemma TwoMembers(s: seq<char>, x: char, y: char)
    requires x in s && y in s && x != y
    ensures |s| > 1
  {
  }

  /**
   * A text with at least two different symbols decompresses, with its
   * own tree, to itself.
   */
  lemma RoundTrip(text: seq<char>, i: nat, j: nat)
    requires i < |text| && j < |text| && text[i] != text[j]
    ensures CompressSpec(text).Ok?
    ensures DecompressSpec(CompressSpec(text).value, text) == Ok(text)
  {
    TwoSymbols(text, i, j);
    CodingTreeShape(text);
    EncodeTotal(text);
    var root := CodingTree(Frequencies(text)).value;
    var bits := Encode(Codes(root), text).value;
    UnpackPacked(bits);
    DecodeEncoded(root, text, []);
    assert bits + [] == bits;
  }

  /** Under a table of empty codes, every text the table covers encodes to nothing. */
  lemma {:induction false} EncodeEmptyCodes(codes: map<char, seq<Bit>>, text: seq<char>)
    requires forall c :: c in codes ==> codes[c] == []
    requires Encode(codes, text).Ok?
    ensures Encode(codes, text).value == []
  {
    if text != [] {
      EncodeEmptyCodes(codes, text[1..]);
    }
  }

  /**
   * A text of one distinct symbol gets the empty code for that symbol, so
   * it compresses to a header of 8 and one zero byte and decompresses to
   * the empty text.
   */
  lemma OneSymbolIsLost(text: seq<char>)
    requires text != []
    requires |Frequencies(text)| == 1
    ensures CompressSpec(text) == Ok([8, 0])
    ensures DecompressSpec([8, 0], text) == Ok([])
  {
    CodingTreeShape(text);
    EncodeTotal(text);
    var root := CodingTree(Frequencies(text)).value;
    CodeLengths(root);
    EncodeEmptyCodes(Codes(root), text);
    PackedNothing();
    UnpackPaddingOnly();
  }

  /** The empty bit string packs to a header of 8 and one zero byte. */
  lemma PackedNothing()
    ensures Packed([]) == [8, 0]
  {
    var z := Zeros(8);
    assert [] + z == z;
    BitsValueZeros(8);
    assert z[..8] == z && z[8..] == [];
  }

  /** The file of a header of 8 and one zero byte holds no bit. */
  lemma UnpackPaddingOnly()
    ensures Unpack([8, 0]) == Ok([])
  {
    assert [8, 0][1..] == [0];
  }

  // ---------------------------------------------------------------------
  // The codec with a code for a lone symbol

  /**
   * The code table with the lone-leaf case corrected: the symbol of a
   * tree made of a single leaf gets the code "0".
   */
  function FixedCodes(root: Tree): map<char, seq<Bit>>
  {
    if root.Leaf? then map[root.ch := ['0']] else Codes(root)
  }

  /** Decoding with the lone-leaf case corrected: under a lone leaf every bit stands for its symbol. */
  function FixedDecodeBits(root: Tree, bits: seq<Bit>): Result<seq<char>, Error>
  {
    if root.Leaf? then Ok(seq(|bits|, _ => root.ch)) else DecodeBits(root, bits)
  }

  function FixedCompressSpec(text: seq<char>): Result<seq<Byte>, Error>
  {
    if text == [] then Err(EmptyInput)
    else
      match CodingTree(Frequencies(text))
      case Err(e) => Err(e)
      case Ok(root) =>
        match Encode(FixedCodes(root), text)
        case Err(e) => Err(e)
        case Ok(bits) => Ok(Packed(bits))
  }

  function FixedDecompressSpec(file: seq<Byte>, original: seq<char>): Result<seq<char>, Error>
  {
    match Unpack(file)
    case Err(e) => Err(e)
    case Ok(bits) =>
      match CodingTree(Frequencies(original))
      case Err(e) => Err(e)
      case Ok(root) => FixedDecodeBits(root, bits)
  }

  /** Under a one-bit code for c, a text of c's encodes to one bit per symbol. */
  lemma {:induction false} EncodeOneBit(c: char, text: seq<char>)
    requires forall k :: 0 <= k < |text| ==> text[k] == c
    ensures Encode(map[c := ['0']], text).Ok?
    ensures |Encode(map[c := ['0']], text).value| == |text|
  {
    if text != [] {
      EncodeOneBit(c, text[1..]);
    }
  }

  /** With the lone-leaf case corrected, every non-empty text decompresses to itself. */
  lemma FixedRoundTrip(text: seq<char>)
    requires text != []
    ensures FixedCompressSpec(text).Ok?
    ensures FixedDecompressSpec(FixedCompressSpec(text).value, text) == Ok(text)
  {
    CodingTreeShape(text);
    CodingTreeOfText(text);
    EncodeTotal(text);
    var root := CodingTree(Frequencies(text)).value;
    if root.Leaf? {
      forall k | 0 <= k < |text| ensures text[k] == root.ch {
        assert text[k] in text;
      }
      EncodeOneBit(root.ch, text);
      var bits := Encode(FixedCodes(root), text).value;
      UnpackPacked(bits);
      assert seq(|bits|, _ => root.ch) == text;
    } else {
      var bits := Encode(Codes(root), text).value;
      UnpackPacked(bits);
      DecodeEncoded(root, text, []);
      assert bits + [] == bits;
    }
  }
}

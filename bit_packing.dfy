/**
 * The byte layout of a compressed file: one header byte holding the
 * number of '0' bits appended to the encoded text, then the padded bit
 * string cut into bytes of eight bits, the first bit of each chunk being
 * its most significant one.
 */
module BitPacking {
  import opened Wrappers
  import opened HuffmanTree
  import opened HuffmanCodes

  type Byte = x: int | 0 <= x < 256

  function Pow2(n: nat): (p: nat)
    ensures p >= 1
  {
    if n == 0 then 1 else 2 * Pow2(n - 1)
  }

  /**
   * The number of padding bits for an encoded text of n bits:
   * 8 - n % 8, so a multiple of eight still gets a whole byte of padding.
   */
  function Padding(n: nat): (p: nat)
    ensures 1 <= p <= 8
    ensures (n + p) % 8 == 0
    ensures n % 8 == 0 <==> p == 8
  {
    8 - n % 8
  }

  /** k '0' bits. */
  function Zeros(k: nat): (z: seq<Bit>)
    ensures |z| == k
    ensures forall i :: 0 <= i < k ==> z[i] == '0'
  {
    if k == 0 then [] else Zeros(k - 1) + ['0']
  }

  /** The value of a bit string read as a binary numeral, most significant bit first. */
  function BitsValue(bits: seq<Bit>): nat
  {
    if bits == [] then 0
    else 2 * BitsValue(bits[..|bits| - 1]) + (if bits[|bits| - 1] == '1' then 1 else 0)
  }

  /** The w low bits of x as a binary numeral, most significant bit first. */
  function NatBits(x: nat, w: nat): (bits: seq<Bit>)
    ensures |bits| == w
  {
    if w == 0 then [] else NatBits(x / 2, w - 1) + [if x % 2 == 1 then '1' else '0']
  }

  /** A string of '0' bits is the numeral of zero. */
  lemma {:induction false} BitsValueZeros(k: nat)
    ensures BitsValue(Zeros(k)) == 0
  {
    if k > 0 {
      assert Zeros(k)[..k - 1] == Zeros(k - 1);
      BitsValueZeros(k - 1);
    }
  }

  /** A byte written as eight binary digits, zero-filled on the left. */
  function ByteBits(b: Byte): seq<Bit>
  {
    NatBits(b, 8)
  }

  /** A numeral of w bits is below 2^w. */
  lemma {:induction false} BitsValueBound(bits: seq<Bit>)
    ensures BitsValue(bits) < Pow2(|bits|)
  {
    if bits != [] {
      BitsValueBound(bits[..|bits| - 1]);
    }
  }

  /** Writing the value of a bit string in as many bits gives the string back. */
  lemma {:induction false} NatBitsOfValue(bits: seq<Bit>)
    ensures NatBits(BitsValue(bits), |bits|) == bits
  {
    if bits != [] {
      var init := bits[..|bits| - 1];
      var v := BitsValue(bits);
      assert v / 2 == BitsValue(init);
      assert (v % 2 == 1) == (bits[|bits| - 1] == '1');
      NatBitsOfValue(init);
      assert bits == init + [bits[|bits| - 1]];
    }
  }

  /** Reading back the numeral of a value below 2^w gives the value. */
  lemma {:induction false} ValueOfNatBits(x: nat, w: nat)
    requires x < Pow2(w)
    ensures BitsValue(NatBits(x, w)) == x
  {
    if w > 0 {
      ValueOfNatBits(x / 2, w - 1);
      var bits := NatBits(x, w);
      assert bits[..|bits| - 1] == NatBits(x / 2, w - 1);
    }
  }

  /** A byte's eight binary digits read back as the byte. */
  lemma ByteBitsValue(b: Byte)
    ensures BitsValue(ByteBits(b)) == b
  {
    assert Pow2(8) == 256;
    ValueOfNatBits(b, 8);
  }

  /** Cuts a bit string whose length is a multiple of eight into bytes. */
  function PackChunks(bits: seq<Bit>): seq<Byte>
    requires |bits| % 8 == 0
  {
    if bits == [] then []
    else
      BitsValueBound(bits[..8]);
      assert Pow2(8) == 256;
      [BitsValue(bits[..8]) as Byte] + PackChunks(bits[8..])
  }

  /** The first chunk of a non-empty bit string and the rest of its chunks. */
  lemma PackChunksStep(bits: seq<Bit>)
    requires |bits| % 8 == 0 && bits != []
    ensures |bits| >= 8 && BitsValue(bits[..8]) < 256
    ensures PackChunks(bits) == [BitsValue(bits[..8]) as Byte] + PackChunks(bits[8..])
  {
    BitsValueBound(bits[..8]);
    assert Pow2(8) == 256;
  }

  lemma PackChunksAt(bits: seq<Bit>, i: nat)
    requires i < |bits| && (|bits| - i) % 8 == 0
    ensures i + 8 <= |bits| && BitsValue(bits[i..i + 8]) < 256
    ensures PackChunks(bits[i..]) == [BitsValue(bits[i..i + 8]) as Byte] + PackChunks(bits[i + 8..])
  {
    PackChunksStep(bits[i..]);
    assert bits[i..][..8] == bits[i..i + 8] && bits[i..][8..] == bits[i + 8..];
  }

  /** One round of the packing loop: the chunk at i moves from the pending bits to the output. */
  lemma PackStep(file: seq<Byte>, bits: seq<Bit>, i: nat)
    requires i < |bits| && (|bits| - i) % 8 == 0
    ensures i + 8 <= |bits| && BitsValue(bits[i..i + 8]) < 256 && (|bits| - (i + 8)) % 8 == 0
    ensures file + PackChunks(bits[i..]) == (file + [BitsValue(bits[i..i + 8]) as Byte]) + PackChunks(bits[i + 8..])
  {
    PackChunksAt(bits, i);
  }

  /** The compressed file for an encoded text: the padding count, then the padded bits as bytes. */
  function Packed(bits: seq<Bit>): seq<Byte>
  {
    var p := Padding(|bits|);
    [p] + PackChunks(bits + Zeros(p))
  }

  /**
   * Pads the encoded text with '0' bits to a whole number of bytes and
   * writes the padding count followed by each chunk of eight bits.
   */
  method Pack(bits: seq<Bit>) returns (file: seq<Byte>)
    ensures file == Packed(bits)
  {
    var padding := Padding(|bits|);
    var padded := bits + Zeros(padding);
    file := [padding];
    ghost var target := Packed(bits);
    assert target == file + PackChunks(padded);
    var i := 0;
    while i < |padded|
      invariant 0 <= i <= |padded| && (|padded| - i) % 8 == 0
      invariant target == file + PackChunks(padded[i..])
      decreases |padded| - i
    {
      PackStep(file, padded, i);
      file := file + [BitsValue(padded[i..i + 8]) as Byte];
      i := i + 8;
    }
  }

  /** A file of n data bytes written as 8·n bits. */
  function Expand(bytes: seq<Byte>): (bits: seq<Bit>)
    ensures |bits| == 8 * |bytes|
  {
    if bytes == [] then [] else ByteBits(bytes[0]) + Expand(bytes[1..])
  }

  /**
   * A string with its last k elements removed, with the slice semantics
   * of an end index of -k: removing zero elements, or more elements than
   * the string holds, leaves nothing.
   */
  function DropLast<T>(s: seq<T>, k: nat): (r: seq<T>)
    ensures r <= s
    ensures |r| == if 0 < k <= |s| then |s| - k else 0
  {
    if 0 < k <= |s| then s[..|s| - k] else []
  }

  /** The bit string of a compressed file: its data bytes as bits, less the padding the header counts. */
  function Unpack(file: seq<Byte>): Result<seq<Bit>, Error>
  {
    if file == [] then Err(EmptyPayload) else Ok(DropLast(Expand(file[1..]), file[0]))
  }

  /** Expanding the chunks of a bit string gives the string back. */
  lemma {:induction false} ExpandPackChunks(bits: seq<Bit>)
    requires |bits| % 8 == 0
    ensures Expand(PackChunks(bits)) == bits
  {
    if bits != [] {
      var chunks := PackChunks(bits);
      assert chunks[0] == BitsValue(bits[..8]) && chunks[1..] == PackChunks(bits[8..]);
      ExpandPackChunks(bits[8..]);
      NatBitsOfValue(bits[..8]);
      assert bits == bits[..8] + bits[8..];
    }
  }

  /** The file has one header byte and one byte for every eight padded bits. */
  lemma PackedSize(bits: seq<Bit>)
    ensures |Packed(bits)| == 1 + (|bits| + Padding(|bits|)) / 8
    ensures Packed(bits)[0] == Padding(|bits|)
  {
    PackChunksSize(bits + Zeros(Padding(|bits|)));
  }

  lemma {:induction false} PackChunksSize(bits: seq<Bit>)
    requires |bits| % 8 == 0
    ensures |PackChunks(bits)| == |bits| / 8
  {
    if bits != [] {
      PackChunksSize(bits[8..]);
    }
  }

  /** Unpacking a packed bit string gives the bit string back. */
  lemma UnpackPacked(bits: seq<Bit>)
    ensures Unpack(Packed(bits)) == Ok(bits)
  {
    var p := Padding(|bits|);
    var padded := bits + Zeros(p);
    ExpandPackChunks(padded);
    assert Packed(bits)[1..] == PackChunks(padded);
    assert padded[..|padded| - p] == bits;
  }

  /** A header of zero drops every data bit, whatever the data bytes are. */
  lemma UnpackZeroHeader(data: seq<Byte>)
    ensures Unpack([0] + data) == Ok([])
  {
    assert ([0] + data)[1..] == data;
  }
}

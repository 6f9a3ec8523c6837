/**
  Padding and byte packing of the encoded bit string (huffman.py:65-69 and the
  byte conversions at huffman.py:91 and 103), and the padding strip of
  huffman.py:106-109.
 */
module BitPacking {
  import opened Base

  /** One byte of the compressed file. */
  type Byte = x: int | 0 <= x < 256

  function Pow2(n: nat): (r: nat)
    ensures r >= 1
  {
    if n == 0 then 1 else 2 * Pow2(n - 1)
  }

  lemma {:induction false} Pow2Monotone(m: nat, n: nat)
    requires m <= n
    ensures Pow2(m) <= Pow2(n)
    decreases n
  {
    if m < n {
      Pow2Monotone(m, n - 1);
    }
  }

  function BitValue(c: char): nat {
    if c == '1' then 1 else 0
  }

  /** int(s, 2): the big-endian value of a '0'/'1' string; it fits in |s| bits. */
  function FromBits(s: BitString): (r: nat)
    ensures r < Pow2(|s|)
  {
    if s == [] then 0 else 2 * FromBits(s[..|s| - 1]) + BitValue(s[|s| - 1])
  }

  /** format(n, '0<w>b') for an n that fits in w bits: w binary digits, most significant first. */
  function ToBits(n: nat, w: nat): (r: BitString)
    ensures |r| == w && IsBits(r)
    decreases w
  {
    if w == 0 then [] else ToBits(n / 2, w - 1) + [if n % 2 == 1 then '1' else '0']
  }

  /** Reading back the digits that format wrote gives the number. */
  lemma {:induction false} FromToBits(n: nat, w: nat)
    requires n < Pow2(w)
    ensures |ToBits(n, w)| == w && IsBits(ToBits(n, w))
    ensures FromBits(ToBits(n, w)) == n
    decreases w
  {
    if w > 0 {
      FromToBits(n / 2, w - 1);
      var s := ToBits(n, w);
      assert s[..|s| - 1] == ToBits(n / 2, w - 1);
    }
  }

  /** Writing a bit string's value with as many digits as it had gives the bit string. */
  lemma {:induction false} ToFromBits(s: BitString)
    requires IsBits(s)
    ensures ToBits(FromBits(s), |s|) == s
    decreases |s|
  {
    if s != [] {
      var init := s[..|s| - 1];
      assert IsBits(init);
      ToFromBits(init);
      var v := FromBits(s);
      assert v / 2 == FromBits(init);
      assert s == init + [s[|s| - 1]];
    }
  }

  /** The padding amount of huffman.py:66: between 1 and 8, never 0. */
  function PaddingAmount(encoded: BitString): nat {
    8 - |encoded| % 8
  }

  function Zeros(n: nat): (z: BitString)
    ensures |z| == n && forall i :: 0 <= i < n ==> z[i] == '0'
  {
    seq(n, _ => '0')
  }

  /** pad_encoded_data of huffman.py:65-69. */
  function Pad(encoded: BitString): BitString {
    var amount := PaddingAmount(encoded);
    ToBits(amount, 8) + encoded + Zeros(amount)
  }

  lemma Pow2Byte()
    ensures Pow2(8) == 256
  {
  }

  /**
    The padded string starts with the padding amount written as eight binary
    digits, then holds the encoded bits, then that many '0' bits. The amount
    is between 1 and 8, so an already byte-aligned stream gets a whole extra
    byte of zeros; the result is always byte-aligned.
   */
  lemma PadSpec(encoded: BitString)
    ensures 1 <= PaddingAmount(encoded) <= 8
    ensures |Pad(encoded)| == 8 + |encoded| + PaddingAmount(encoded)
    ensures |Pad(encoded)| % 8 == 0
    ensures IsBits(Pad(encoded)[..8]) && FromBits(Pad(encoded)[..8]) == PaddingAmount(encoded)
    ensures Pad(encoded)[8..8 + |encoded|] == encoded
    ensures forall i :: 8 + |encoded| <= i < |Pad(encoded)| ==> Pad(encoded)[i] == '0'
  {
    var amount := PaddingAmount(encoded);
    Pow2Byte();
    FromToBits(amount, 8);
    var header := ToBits(amount, 8);
    var r := Pad(encoded);
    assert r[..8] == header;
    assert r[8..8 + |encoded|] == encoded;
    forall i | 8 + |encoded| <= i < |r| ensures r[i] == '0' {
      assert r[i] == Zeros(amount)[i - 8 - |encoded|];
    }
  }

  /**
    The byte list of huffman.py:91: the value of each successive group of
    eight bits (a shorter last group if the length is not a multiple of 8).
   */
  function Pack(s: BitString): (bytes: seq<Byte>)
    ensures |bytes| == (|s| + 7) / 8
    decreases |s|
  {
    if s == [] then []
    else if |s| <= 8 then
      Pow2Monotone(|s|, 8);
      [FromBits(s)]
    else
      Pow2Monotone(8, 8);
      [FromBits(s[..8])] + Pack(s[8..])
  }

  /** The bit string of huffman.py:103: each byte as eight binary digits, in order. */
  function Unpack(bytes: seq<Byte>): (bits: BitString)
    ensures |bits| == 8 * |bytes| && IsBits(bits)
  {
    if bytes == [] then []
    else
      Pow2Byte();
      FromToBits(bytes[0], 8);
      var head, tail := ToBits(bytes[0], 8), Unpack(bytes[1..]);
      assert forall i :: 0 <= i < |head + tail| ==>
        (head + tail)[i] == if i < 8 then head[i] else tail[i - 8];
      head + tail
  }

  /** Unpacking the packing of a byte-aligned bit string gives the bit string back. */
  lemma {:induction false} UnpackPack(s: BitString)
    requires IsBits(s) && |s| % 8 == 0
    ensures |Pack(s)| == |s| / 8
    ensures Unpack(Pack(s)) == s
    decreases |s|
  {
    if s != [] {
      assert IsBits(s[..8]);
      ToFromBits(s[..8]);
      if |s| == 8 {
        assert s[..8] == s;
      } else {
        assert IsBits(s[8..]);
        UnpackPack(s[8..]);
        assert s == s[..8] + s[8..];
      }
    }
  }

  /** Packing the unpacking of bytes gives the bytes back. */
  lemma {:induction false} PackUnpack(bytes: seq<Byte>)
    ensures Pack(Unpack(bytes)) == bytes
  {
    if bytes != [] {
      Pow2Byte();
      FromToBits(bytes[0], 8);
      PackUnpack(bytes[1..]);
      var s := Unpack(bytes);
      assert s[..8] == ToBits(bytes[0], 8);
      assert s[8..] == Unpack(bytes[1..]);
      if |s| == 8 {
        assert s == s[..8];
      }
    }
  }

  /**
    The padding strip of huffman.py:106-109: read the first eight bits as the
    padding amount p and keep binary_data[8:-p], with Python's slice rules: a
    stop of -0 is 0, so a zero amount keeps nothing, and a stop before the
    start keeps nothing. With no bits at all, int('', 2) fails.
   */
  function StripPadding(bits: BitString): (r: Result<BitString>)
    requires IsBits(bits)
    ensures r.Failure? <==> bits == []
    ensures r.Success? ==> IsBits(r.value) && (r.value == [] || |r.value| + 9 <= |bits|)
  {
    var header := if |bits| < 8 then bits else bits[..8];
    if header == [] then Failure(EmptyHeader)
    else
      var amount := FromBits(header);
      var start := |header|;
      var stop := if amount == 0 || amount > |bits| then 0 else |bits| - amount;
      if stop <= start then Success([]) else Success(bits[start..stop])
  }

  /** Stripping the padding that Pad added gives back exactly the encoded bits. */
  lemma StripPad(encoded: BitString)
    requires IsBits(encoded)
    ensures IsBits(Pad(encoded))
    ensures StripPadding(Pad(encoded)) == Success(encoded)
  {
    PadSpec(encoded);
    var r := Pad(encoded);
    forall i | 0 <= i < |r| ensures IsBit(r[i]) {
      if i < 8 {
        assert r[i] == r[..8][i];
      } else if i < 8 + |encoded| {
        assert r[i] == r[8..8 + |encoded|][i - 8];
      }
    }
    if |encoded| == 0 {
      assert r[8..8] == [];
    }
  }

  /** The written bytes read back, with the padding stripped, give exactly the encoded bits. */
  lemma ReadBack(encoded: BitString)
    requires IsBits(encoded)
    ensures StripPadding(Unpack(Pack(Pad(encoded)))) == Success(encoded)
  {
    PadSpec(encoded);
    StripPad(encoded);
    UnpackPack(Pad(encoded));
  }

  /** A header that declares no padding makes the strip drop every data bit. */
  lemma ZeroPaddingKeepsNothing(bits: BitString)
    requires IsBits(bits) && |bits| >= 8 && FromBits(bits[..8]) == 0
    ensures StripPadding(bits) == Success([])
  {
  }
}

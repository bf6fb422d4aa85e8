/**
 * The bit codec shared by both programs: a byte becomes eight '0'/'1'
 * characters, most significant bit first, and a group of such characters is
 * read back as a base-2 number.
 */
module BitCodec {
  import ByteConv

  /** An 8-bit value: a payload character or one colour channel of a pixel. */
  type byte = bv8

  /** A text made only of the characters '0' and '1'. */
  predicate IsBitString(s: seq<char>) {
    forall k :: 0 <= k < |s| ==> s[k] == '0' || s[k] == '1'
  }

  function Pow2(n: nat): (r: nat)
    ensures r >= 1
  {
    if n == 0 then 1 else 2 * Pow2(n - 1)
  }

  /** The value of one binary digit. */
  function Digit(c: char): nat {
    if c == '1' then 1 else 0
  }

  /**
   * A base-2 reading of a text, most significant digit first, as the
   * decoder's stoi(byte, nullptr, 2) computes it for a text of '0'/'1'.
   */
  function FromBinary(s: seq<char>): (r: nat)
    ensures r < Pow2(|s|)
  {
    if s == [] then 0 else 2 * FromBinary(s[..|s| - 1]) + Digit(s[|s| - 1])
  }

  /** Bit i (0 is the least significant) of v, as (v >> i) & 1. */
  predicate BitSet(v: byte, i: nat)
    requires i < 8
  {
    (v >> i) & 1 == 1
  }

  /** The eight-character encoding of one byte: character k is bit 7 - k. */
  function ByteBits(v: byte): (r: seq<char>)
    ensures |r| == 8 && IsBitString(r)
  {
    seq(8, k requires 0 <= k < 8 => if BitSet(v, 7 - k) then '1' else '0')
  }

  /** The encoding of a byte string: the encodings of its bytes, in order. */
  function StringBits(s: seq<byte>): (r: seq<char>)
    ensures |r| == 8 * |s| && IsBitString(r)
  {
    if s == [] then [] else StringBits(s[..|s| - 1]) + ByteBits(s[|s| - 1])
  }

  /** The byte an eight-bit group stands for: static_cast<char>(stoi(group, nullptr, 2)). */
  function GroupByte(group: seq<char>): byte
    requires |group| == 8
  {
    FromBinary(group) as byte
  }

  /**
   * The bytes a bit text stands for: every complete group of eight bits,
   * read in base 2; a trailing incomplete group is dropped.
   */
  function BytesOf(bits: seq<char>): (r: seq<byte>)
    ensures |r| == |bits| / 8
  {
    seq(|bits| / 8, j requires 0 <= j < |bits| / 8 => GroupByte(bits[8 * j..8 * j + 8]))
  }

  /** Byte j of a bit text is its j-th group of eight read in base 2. */
  lemma BytesOfAt(bits: seq<char>, j: nat)
    requires 8 * j + 8 <= |bits|
    ensures j < |BytesOf(bits)| && BytesOf(bits)[j] == GroupByte(bits[8 * j..8 * j + 8])
  {
  }

  /** toBinary(uint8_t): fills an eight-character text by indexed writes. */
  method ToBinaryByte(val: byte) returns (out: seq<char>)
    ensures out == ByteBits(val)
  {
    out := seq(8, _ => '0');
    var i: int := 7;
    while i >= 0
      invariant -1 <= i <= 7
      invariant |out| == 8
      invariant forall k :: 0 <= k < 7 - i ==> out[k] == ByteBits(val)[k]
    {
      out := out[7 - i := if (val >> i) & 1 == 1 then '1' else '0'];
      i := i - 1;
    }
  }

  /** toBinary(const std::string&): appends the encoding of each byte in turn. */
  method ToBinaryString(s: seq<byte>) returns (bits: seq<char>)
    ensures bits == StringBits(s)
  {
    bits := [];
    for j := 0 to |s|
      invariant bits == StringBits(s[..j])
    {
      var b := ToBinaryByte(s[j]);
      assert s[..j + 1][..j] == s[..j];
      bits := bits + b;
    }
    assert s[..|s|] == s;
  }

  lemma FromBinaryStep(s: seq<char>, k: nat)
    requires k < |s|
    ensures FromBinary(s[..k + 1]) == 2 * FromBinary(s[..k]) + Digit(s[k])
  {
    assert s[..k + 1][..k] == s[..k];
  }

  /** The first four digits of a text read in base 2, written out as a sum. */
  lemma FromBinaryOfFour(s: seq<char>)
    requires |s| >= 4
    ensures FromBinary(s[..4]) == 8 * Digit(s[0]) + 4 * Digit(s[1]) + 2 * Digit(s[2]) + Digit(s[3])
  {
    assert FromBinary(s[..0]) == 0;
    FromBinaryStep(s, 0);
    FromBinaryStep(s, 1);
    FromBinaryStep(s, 2);
    FromBinaryStep(s, 3);
  }

  /** An eight-digit text read in base 2, written out as a sum. */
  lemma FromBinaryOfEight(s: seq<char>)
    requires |s| == 8
    ensures FromBinary(s) == 128 * Digit(s[0]) + 64 * Digit(s[1]) + 32 * Digit(s[2]) + 16 * Digit(s[3])
                             + 8 * Digit(s[4]) + 4 * Digit(s[5]) + 2 * Digit(s[6]) + Digit(s[7])
  {
    FromBinaryOfFour(s);
    FromBinaryStep(s, 4);
    FromBinaryStep(s, 5);
    FromBinaryStep(s, 6);
    FromBinaryStep(s, 7);
    assert s[..8] == s;
  }

  function BitValue(v: byte, i: nat): nat
    requires i < 8
  {
    if BitSet(v, i) then 1 else 0
  }

  lemma ByteAsSum(v: byte)
    ensures v as int == 128 * BitValue(v, 7) + 64 * BitValue(v, 6) + 32 * BitValue(v, 5) + 16 * BitValue(v, 4)
                        + 8 * BitValue(v, 3) + 4 * BitValue(v, 2) + 2 * BitValue(v, 1) + BitValue(v, 0)
  {
  }

  /** Reading the encoding of a byte in base 2 gives the byte back. */
  lemma FromBinaryByteBits(v: byte)
    ensures FromBinary(ByteBits(v)) == v as int
  {
    var s := ByteBits(v);
    forall k | 0 <= k < 8
      ensures Digit(s[k]) == BitValue(v, 7 - k)
    {
    }
    FromBinaryOfEight(s);
    ByteAsSum(v);
  }

  /** The j-th group of eight bits of a string's encoding is the encoding of its j-th byte. */
  lemma {:induction false} StringBitsGroup(s: seq<byte>, j: nat)
    requires j < |s|
    ensures StringBits(s)[8 * j..8 * j + 8] == ByteBits(s[j])
  {
    var init := s[..|s| - 1];
    assert StringBits(s) == StringBits(init) + ByteBits(s[|s| - 1]);
    if j < |s| - 1 {
      StringBitsGroup(init, j);
      assert StringBits(s)[8 * j..8 * j + 8] == StringBits(init)[8 * j..8 * j + 8];
    } else {
      assert StringBits(s)[8 * j..8 * j + 8] == StringBits(s)[|StringBits(init)|..];
    }
  }

  /** Grouping a string's encoding back into bytes gives the string. */
  lemma BytesOfStringBits(s: seq<byte>)
    ensures BytesOf(StringBits(s)) == s
  {
    var b := BytesOf(StringBits(s));
    forall j | 0 <= j < |s|
      ensures b[j] == s[j]
    {
      StringBitsGroup(s, j);
      FromBinaryByteBits(s[j]);
    }
  }

  /** Two bit texts of one length with the same base-2 value are the same text. */
  lemma {:induction false} FromBinaryInjective(s: seq<char>, t: seq<char>)
    requires |s| == |t| && IsBitString(s) && IsBitString(t)
    requires FromBinary(s) == FromBinary(t)
    ensures s == t
  {
    if s != [] {
      var n := |s| - 1;
      assert IsBitString(s[..n]) by {
        forall k | 0 <= k < n ensures s[..n][k] == '0' || s[..n][k] == '1' { assert s[..n][k] == s[k]; }
      }
      assert IsBitString(t[..n]) by {
        forall k | 0 <= k < n ensures t[..n][k] == '0' || t[..n][k] == '1' { assert t[..n][k] == t[k]; }
      }
      assert Digit(s[n]) == Digit(t[n]);
      FromBinaryInjective(s[..n], t[..n]);
      assert s == s[..n] + [s[n]] && t == t[..n] + [t[n]];
    }
  }

  /** The byte an eight-bit group stands for has the group's base-2 value. */
  lemma GroupByteValue(g: seq<char>)
    requires |g| == 8
    ensures GroupByte(g) as int == FromBinary(g)
  {
    var n := FromBinary(g);
    assert n < 256;
    ByteConv.ByteOfInt(n);
  }

  /** Encoding the byte an eight-bit group stands for gives the group back. */
  lemma ByteBitsOfGroup(g: seq<char>)
    requires |g| == 8 && IsBitString(g)
    ensures ByteBits(GroupByte(g)) == g
  {
    var v := GroupByte(g);
    GroupByteValue(g);
    FromBinaryByteBits(v);
    FromBinaryInjective(ByteBits(v), g);
  }

  /** Bits 8j..8j+7 of a bit text are a bit text. */
  lemma GroupIsBitString(bits: seq<char>, j: nat)
    requires IsBitString(bits) && 8 * j + 8 <= |bits|
    ensures IsBitString(bits[8 * j..8 * j + 8])
  {
    var g := bits[8 * j..8 * j + 8];
    forall k | 0 <= k < 8
      ensures g[k] == '0' || g[k] == '1'
    {
      assert g[k] == bits[8 * j + k];
    }
  }

  /** Encoding the first m decoded bytes of a bit text gives its first 8 * m bits. */
  lemma {:induction false} StringBitsOfBytesPrefix(bits: seq<char>, m: nat)
    requires IsBitString(bits) && m <= |bits| / 8
    ensures StringBits(BytesOf(bits)[..m]) == bits[..8 * m]
  {
    if m > 0 {
      var all := BytesOf(bits);
      var init := all[..m - 1];
      var g := bits[8 * (m - 1)..8 * m];
      StringBitsOfBytesPrefix(bits, m - 1);
      BytesOfAt(bits, m - 1);
      GroupIsBitString(bits, m - 1);
      ByteBitsOfGroup(g);
      assert all[..m] == init + [all[m - 1]];
      assert StringBits(all[..m]) == StringBits(init) + ByteBits(all[m - 1]);
      assert bits[..8 * m] == bits[..8 * (m - 1)] + g;
    }
  }

  /**
   * Encoding the bytes a bit text stands for gives back the text, up to its
   * last complete group of eight.
   */
  lemma StringBitsOfBytes(bits: seq<char>)
    requires IsBitString(bits)
    ensures StringBits(BytesOf(bits)) == bits[..8 * (|bits| / 8)]
  {
    StringBitsOfBytesPrefix(bits, |bits| / 8);
    assert BytesOf(bits)[..|bits| / 8] == BytesOf(bits);
  }
}

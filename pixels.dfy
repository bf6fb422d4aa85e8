/**
 * The pixel channel: a rows x cols grid of 3-channel 8-bit pixels, and the
 * two ways the programs use it, embedBits (encode.cpp) and extractChunk
 * (decode.cpp). Both scan the channels row by row, column by column, and
 * channel 0, 1, 2 within a pixel.
 */
module Pixels {
  import opened BitCodec
  import opened Wire

  /** Where channel ch of the pixel at row r, column c sits in a grid with cols columns. */
  function Offset(cols: nat, r: nat, c: nat, ch: nat): nat {
    (r * cols + c) * 3 + ch
  }

  lemma OffsetInRange(rows: nat, cols: nat, r: nat, c: nat, ch: nat)
    requires r < rows && c < cols && ch < 3
    ensures Offset(cols, r, c, ch) < rows * cols * 3
  {
    assert r * cols + c < (r + 1) * cols by {
      assert (r + 1) * cols == r * cols + cols;
    }
    assert (r + 1) * cols <= rows * cols by {
      MulMonotone(r + 1, rows, cols);
    }
  }

  lemma MulMonotone(a: nat, b: nat, m: nat)
    requires a <= b
    ensures a * m <= b * m
  {
  }

  /** The row after the last column of row r begins where row r + 1 begins. */
  lemma NextRowOffset(cols: nat, r: nat)
    ensures Offset(cols, r, cols, 0) == Offset(cols, r + 1, 0, 0)
  {
    assert (r + 1) * cols == r * cols + cols;
  }

  /** The integer bits[idx] - '0' for a bit character. */
  function BitByte(bit: char): (b: byte)
    requires bit == '0' || bit == '1'
    ensures b as int == Digit(bit)
  {
    (bit as int - '0' as int) as byte
  }

  /** The channel value (p & 0xFE) | bit: p with its least significant bit replaced. */
  function SetLsb(p: byte, bit: char): (q: byte)
    requires bit == '0' || bit == '1'
    ensures q & 0xFE == p & 0xFE
    ensures (q & 1 == 1) == (bit == '1')
  {
    (p & 0xFE) | BitByte(bit)
  }

  /** The character extractChunk records for a channel: (p & 1) ? '1' : '0'. */
  function LsbChar(p: byte): char {
    if p & 1 == 1 then '1' else '0'
  }

  /**
   * The channels after embedding bits into chans: channel k takes bit k as
   * its least significant bit while k < |bits|, and nothing else changes.
   */
  function Embedded(chans: seq<byte>, bits: seq<char>): (r: seq<byte>)
    requires IsBitString(bits)
    ensures |r| == |chans|
    ensures forall k :: 0 <= k < |r| ==> r[k] & 0xFE == chans[k] & 0xFE
    ensures forall k :: 0 <= k < |r| && k < |bits| ==> LsbChar(r[k]) == bits[k]
    ensures forall k :: |bits| <= k < |r| ==> r[k] == chans[k]
  {
    seq(|chans|, k requires 0 <= k < |chans| => if k < |bits| then SetLsb(chans[k], bits[k]) else chans[k])
  }

  /** The least significant bit of every channel, in scan order. */
  function LsbBits(chans: seq<byte>): (r: seq<char>)
    ensures |r| == |chans| && IsBitString(r)
  {
    seq(|chans|, k requires 0 <= k < |chans| => LsbChar(chans[k]))
  }

  /**
   * What extractChunk returns for a grid with these channels: the complete
   * bytes of the LSB stream, up to and including the first "###".
   */
  function Extracted(chans: seq<byte>): (r: seq<byte>)
    ensures |r| <= |chans| / 8
    ensures r == BytesOf(LsbBits(chans))[..|r|]
  {
    CutAtTerminator(BytesOf(LsbBits(chans)))
  }

  /**
   * Embedding the encoding of s, where s ends at its first "###", into a
   * grid with room for it and then extracting gives s back.
   */
  lemma EmbedThenExtract(chans: seq<byte>, s: seq<byte>)
    requires EndsAtFirstTerminator(s)
    requires 8 * |s| <= |chans|
    ensures Extracted(Embedded(chans, StringBits(s))) == s
  {
    var bits := LsbBits(Embedded(chans, StringBits(s)));
    LsbOfEmbedded(chans, StringBits(s));
    BytesOfEncodedPrefix(bits, s);
    CutAtTerminatorPrefix(BytesOf(bits), s);
  }

  /** After embedding, the LSB stream starts with the embedded bits. */
  lemma LsbOfEmbedded(chans: seq<byte>, bits: seq<char>)
    requires IsBitString(bits) && |bits| <= |chans|
    ensures LsbBits(Embedded(chans, bits))[..|bits|] == bits
  {
  }

  /** A bit stream that starts with the encoding of s groups into bytes that start with s. */
  lemma BytesOfEncodedPrefix(bits: seq<char>, s: seq<byte>)
    requires 8 * |s| <= |bits| && bits[..8 * |s|] == StringBits(s)
    ensures BytesOf(bits)[..|s|] == s
  {
    var all := BytesOf(bits);
    forall j | 0 <= j < |s|
      ensures all[j] == s[j]
    {
      BytesOfAt(bits, j);
      GroupOfPrefix(bits, 8 * |s|, j);
      StringBitsGroup(s, j);
      FromBinaryByteBits(s[j]);
    }
  }

  /** Group j of a bit text is group j of any prefix that holds it. */
  lemma GroupOfPrefix(bits: seq<char>, n: nat, j: nat)
    requires 8 * j + 8 <= n <= |bits|
    ensures bits[8 * j..8 * j + 8] == bits[..n][8 * j..8 * j + 8]
  {
    var l := bits[8 * j..8 * j + 8];
    var r := bits[..n][8 * j..8 * j + 8];
    forall t | 0 <= t < 8
      ensures l[t] == r[t]
    {
    }
  }

  /**
   * One more group: with the first n bytes of a bit text already produced,
   * group n extends them, and the cut either stops right after it or is
   * still ahead.
   */
  lemma GroupStep(bits: seq<char>, out: seq<byte>, b: byte)
    requires 8 * |out| + 8 <= |bits| && b == GroupByte(bits[8 * |out|..8 * |out| + 8])
    requires out == BytesOf(bits)[..|out|]
    ensures |out| < |BytesOf(bits)| && out + [b] == BytesOf(bits)[..|out| + 1]
    ensures CutFrom(BytesOf(bits), |out|) ==
            if EndsWithTerminator(out + [b]) then |out| + 1 else CutFrom(BytesOf(bits), |out| + 1)
  {
    var all := BytesOf(bits);
    BytesOfAt(bits, |out|);
    TakeSnoc(all, out, b);
    CutFromNext(all, |out|, out + [b]);
  }

  /**
   * The second half of extractChunk: each complete group of eight bits
   * becomes one byte, until the last three bytes produced are "###".
   */
  method GroupUntilTerminator(bits: seq<char>) returns (out: seq<byte>)
    ensures out == CutAtTerminator(BytesOf(bits))
  {
    ghost var all := BytesOf(bits);
    out := [];
    var i := 0;
    while i + 7 < |bits|
      invariant i == 8 * |out| && |out| <= |all|
      invariant out == all[..|out|]
      invariant CutFrom(all, 0) == CutFrom(all, |out|)
    {
      var group := bits[i..i + 8];
      var b := GroupByte(group);
      GroupStep(bits, out, b);
      out := out + [b];
      if EndsWithTerminator(out) {
        break;
      }
      i := i + 8;
    }
    CutAtTerminatorIsCutFrom(all);
  }

  /** One channel more: embedding one more bit changes exactly the channel it goes to. */
  lemma EmbedStep(orig: seq<byte>, cur: seq<byte>, bits: seq<char>, idx: nat)
    requires IsBitString(bits) && idx < |bits| && idx < |orig|
    requires cur == Embedded(orig, bits[..idx])
    ensures cur[idx := SetLsb(cur[idx], bits[idx])] == Embedded(orig, bits[..idx + 1])
  {
    var next := Embedded(orig, bits[..idx + 1]);
    forall k | 0 <= k < |orig|
      ensures cur[idx := SetLsb(cur[idx], bits[idx])][k] == next[k]
    {
    }
  }

  /** Bits past the last channel have nowhere to go: embedding only the ones that fit is the same. */
  lemma EmbedAllFitting(orig: seq<byte>, bits: seq<char>, n: nat)
    requires IsBitString(bits) && n <= |bits| && (n == |bits| || n == |orig|)
    ensures Embedded(orig, bits[..n]) == Embedded(orig, bits)
  {
    var l := Embedded(orig, bits[..n]);
    var r := Embedded(orig, bits);
    forall k | 0 <= k < |orig|
      ensures l[k] == r[k]
    {
    }
  }

  /** A decoded image: its dimensions and its channel buffer, pixel after pixel. */
  class Image {
    const rows: nat
    const cols: nat
    const data: array<byte>

    ghost predicate Valid() {
      data.Length == rows * cols * 3
    }

    /** The number of bits the image can hold: one per channel. */
    function Capacity(): nat {
      rows * cols * 3
    }

    constructor (rows: nat, cols: nat, channels: seq<byte>)
      requires |channels| == rows * cols * 3
      ensures Valid() && fresh(data)
      ensures this.rows == rows && this.cols == cols && data[..] == channels
    {
      this.rows := rows;
      this.cols := cols;
      data := new byte[|channels|](k requires 0 <= k < |channels| => channels[k]);
    }

    /**
     * embedBits: writes bit k into the least significant bit of channel k,
     * in scan order, and stops when the bits or the channels run out.
     */
    method EmbedBits(bits: seq<char>)
      requires Valid() && IsBitString(bits)
      modifies data
      ensures data[..] == Embedded(old(data[..]), bits)
    {
      ghost var orig := data[..];
      var len := |bits|;
      var idx := 0;
      var r := 0;
      while r < rows && idx < len
        invariant 0 <= r <= rows
        invariant idx <= len && idx <= data.Length
        invariant idx == Offset(cols, r, 0, 0) || idx == len
        invariant data[..] == Embedded(orig, bits[..idx])
      {
        idx := EmbedRow(orig, bits, r, idx);
        r := r + 1;
      }
      if idx < len {
        assert idx == rows * cols * 3;
      }
      EmbedAllFitting(orig, bits, idx);
    }

    /**
     * The body of embedBits' row loop: the columns of row r, channel by
     * channel, from bit idx on; returns the next bit to write.
     */
    method EmbedRow(ghost orig: seq<byte>, bits: seq<char>, r: nat, idx: nat) returns (next: nat)
      requires Valid() && IsBitString(bits) && |orig| == data.Length
      requires r < rows && idx < |bits| && idx == Offset(cols, r, 0, 0)
      requires data[..] == Embedded(orig, bits[..idx])
      modifies data
      ensures idx <= next <= |bits| && next <= data.Length
      ensures next == Offset(cols, r + 1, 0, 0) || next == |bits|
      ensures data[..] == Embedded(orig, bits[..next])
    {
      var len := |bits|;
      next := idx;
      var c := 0;
      while c < cols && next < len
        invariant 0 <= c <= cols
        invariant idx <= next <= len && next <= data.Length
        invariant next == Offset(cols, r, c, 0) || next == len
        invariant data[..] == Embedded(orig, bits[..next])
      {
        var ch := 0;
        while ch < 3 && next < len
          invariant 0 <= ch <= 3
          invariant idx <= next <= len && next <= data.Length
          invariant next == Offset(cols, r, c, ch) || next == len
          invariant data[..] == Embedded(orig, bits[..next])
        {
          OffsetInRange(rows, cols, r, c, ch);
          var k := Offset(cols, r, c, ch);
          EmbedStep(orig, data[..], bits, next);
          data[k] := (data[k] & 0xFE) | BitByte(bits[next]);
          next := next + 1;
          ch := ch + 1;
        }
        c := c + 1;
      }
      if next < len {
        NextRowOffset(cols, r);
      }
    }

    /**
     * The first half of extractChunk: the least significant bit of every
     * channel, as '0' or '1', in scan order.
     */
    method ScanLsbs() returns (bits: seq<char>)
      requires Valid()
      ensures bits == LsbBits(data[..])
    {
      bits := [];
      var r := 0;
      while r < rows
        invariant 0 <= r <= rows
        invariant |bits| == Offset(cols, r, 0, 0) && |bits| <= data.Length
        invariant forall k :: 0 <= k < |bits| ==> bits[k] == LsbChar(data[k])
      {
        var c := 0;
        while c < cols
          invariant 0 <= c <= cols
          invariant |bits| == Offset(cols, r, c, 0) && |bits| <= data.Length
          invariant forall k :: 0 <= k < |bits| ==> bits[k] == LsbChar(data[k])
        {
          var ch := 0;
          while ch < 3
            invariant 0 <= ch <= 3
            invariant |bits| == Offset(cols, r, c, ch) && |bits| <= data.Length
            invariant forall k :: 0 <= k < |bits| ==> bits[k] == LsbChar(data[k])
          {
            OffsetInRange(rows, cols, r, c, ch);
            bits := bits + [LsbChar(data[Offset(cols, r, c, ch)])];
            ch := ch + 1;
          }
          c := c + 1;
        }
        NextRowOffset(cols, r);
        r := r + 1;
      }
    }

    /**
     * extractChunk: scans the channel LSBs, then turns each complete group
     * of eight into a byte until the last three bytes produced are "###".
     */
    method ExtractChunk() returns (out: seq<byte>)
      requires Valid()
      ensures out == Extracted(data[..])
      ensures |out| <= Capacity() / 8
    {
      var bits := ScanLsbs();
      out := GroupUntilTerminator(bits);
    }
  }
}

/**
 * The encoder's half of the tagging protocol (splitAndTag in encode.cpp):
 * the payload is cut into one slice per image, each slice gets a tag
 * suffix, and each tagged slice is bit-encoded.
 */
module Tagging {
  import opened BitCodec
  import opened Wire

  function Min(a: int, b: int): int {
    if a < b then a else b
  }

  /** The decimal value of a text of ASCII digits, most significant first. */
  function DecimalValue(s: seq<byte>): int {
    if s == [] then 0 else 10 * DecimalValue(s[..|s| - 1]) + (s[|s| - 1] as int - Zero as int)
  }

  /** The ASCII digits of i, as std::to_string(i) renders a non-negative int. */
  function DecimalString(i: nat): (r: seq<byte>)
    ensures |r| >= 1 && (|r| == 1 <==> i < 10)
    ensures DecimalValue(r) == i
    ensures forall k :: 0 <= k < |r| ==> Zero <= r[k] <= Zero + 9
    ensures |r| > 1 ==> r[0] != Zero
    decreases i
  {
    if i < 10 then [DigitByte(i)]
    else
      var init := DecimalString(i / 10);
      var r := init + [DigitByte(i % 10)];
      assert r[..|r| - 1] == init;
      r
  }

  /** The bytes a tag puts in front of its number: the bracketed password for chunk 0, none otherwise. */
  function Header(i: nat, pwd: seq<byte>): seq<byte> {
    if i == 0 then Delimiter + pwd + Delimiter else []
  }

  /**
   * The tag slice i carries: chunk 0 "@%#/" + pwd + "@%#/" + "0seq###",
   * any other chunk to_string(i) + "seq###". A single-digit tag is its
   * header, the digit and "seq###", so its last seven bytes are the digit
   * and "seq###".
   */
  function Tag(i: nat, pwd: seq<byte>): (r: seq<byte>)
    ensures |r| >= TailLength
    ensures i < 10 ==> r == Header(i, pwd) + [DigitByte(i)] + SeqMarker
    ensures i < 10 ==> r[|r| - TailLength..] == [DigitByte(i)] + SeqMarker
  {
    if i == 0 then Delimiter + pwd + Delimiter + DecimalString(0) + SeqMarker
    else DecimalString(i) + SeqMarker
  }

  /**
   * The slice size: the ceiling of len / parts, computed exactly (the
   * source goes through a double and std::ceil).
   */
  function ChunkSize(len: nat, parts: nat): (r: nat)
    requires parts >= 1
    ensures r * parts >= len
    ensures (r - 1) * parts < len
  {
    var q := (len + parts - 1) / parts;
    assert q * parts + (len + parts - 1) % parts == len + parts - 1;
    assert (q - 1) * parts == q * parts - parts;
    q
  }

  /**
   * Slice i of the payload: from i * chunk, chunk bytes or up to the end,
   * and empty once i * chunk has passed the end.
   */
  function Slice(payload: seq<byte>, parts: nat, i: nat): (r: seq<byte>)
    requires parts >= 1
    ensures |r| <= ChunkSize(|payload|, parts)
    ensures i * ChunkSize(|payload|, parts) >= |payload| ==> r == []
  {
    var chunk := ChunkSize(|payload|, parts);
    var pos := i * chunk;
    if pos < |payload| then payload[pos..pos + Min(chunk, |payload| - pos)] else []
  }

  /** All parts slices, in order. */
  function Slices(payload: seq<byte>, parts: nat): (r: seq<seq<byte>>)
    requires parts >= 1
    ensures |r| == parts
  {
    seq(parts, i requires 0 <= i < parts => Slice(payload, parts, i))
  }

  /** Slice i with its tag appended. */
  function TaggedSlice(payload: seq<byte>, parts: nat, pwd: seq<byte>, i: nat): seq<byte>
    requires parts >= 1
  {
    Slice(payload, parts, i) + Tag(i, pwd)
  }

  /** What splitAndTag returns: the encoding of every tagged slice. */
  function TaggedBits(payload: seq<byte>, parts: nat, pwd: seq<byte>): (r: seq<seq<char>>)
    requires parts >= 1
    ensures |r| == parts
    ensures forall i :: 0 <= i < parts ==> IsBitString(r[i])
  {
    seq(parts, i requires 0 <= i < parts => StringBits(TaggedSlice(payload, parts, pwd, i)))
  }

  /** Where slice i starts: i * chunk, or the end of the payload once past it. */
  function Bound(payload: seq<byte>, parts: nat, i: nat): (r: nat)
    requires parts >= 1
    ensures r <= |payload|
  {
    Min(i * ChunkSize(|payload|, parts), |payload|)
  }

  /** Slice i is the stretch of the payload between bound i and bound i + 1. */
  lemma SliceWindow(payload: seq<byte>, parts: nat, i: nat)
    requires parts >= 1
    ensures Bound(payload, parts, i) <= Bound(payload, parts, i + 1)
    ensures Slice(payload, parts, i) == payload[Bound(payload, parts, i)..Bound(payload, parts, i + 1)]
  {
    var chunk := ChunkSize(|payload|, parts);
    var lo := i * chunk;
    var hi := (i + 1) * chunk;
    assert hi == lo + chunk;
  }

  /** The first k parts joined, then part k: the first k + 1 parts joined. */
  lemma ConcatSnoc(parts: seq<seq<byte>>, k: nat)
    requires k < |parts|
    ensures Concat(parts[..k + 1]) == Concat(parts[..k]) + parts[k]
  {
    assert parts[..k + 1][..k] == parts[..k];
  }

  /** The first k slices together are the payload up to bound k. */
  lemma {:induction false} SlicesPrefix(payload: seq<byte>, parts: nat, k: nat)
    requires 1 <= parts && k <= parts
    ensures Concat(Slices(payload, parts)[..k]) == payload[..Bound(payload, parts, k)]
  {
    var all := Slices(payload, parts);
    if k > 0 {
      var j := k - 1;
      SlicesPrefix(payload, parts, j);
      ConcatSnoc(all, j);
      SliceWindow(payload, parts, j);
      var lo := Bound(payload, parts, j);
      var hi := Bound(payload, parts, k);
      assert payload[..hi] == payload[..lo] + payload[lo..hi];
    }
  }

  /** Slicing covers the payload: the slices joined in order give it back. */
  lemma SlicesCover(payload: seq<byte>, parts: nat)
    requires parts >= 1
    ensures Concat(Slices(payload, parts)) == payload
  {
    var chunk := ChunkSize(|payload|, parts);
    SlicesPrefix(payload, parts, parts);
    assert parts * chunk == chunk * parts;
    assert Bound(payload, parts, parts) == |payload|;
    assert payload[..|payload|] == payload;
    assert Slices(payload, parts)[..parts] == Slices(payload, parts);
  }

  /** One pass of splitAndTag's loop builds tagged slice i. */
  lemma TagStep(payload: seq<byte>, parts: nat, pwd: seq<byte>, i: nat, untagged: seq<byte>, slice: seq<byte>)
    requires parts >= 1
    requires var pos := i * ChunkSize(|payload|, parts);
             untagged == if pos < |payload| then payload[pos..pos + Min(ChunkSize(|payload|, parts), |payload| - pos)] else []
    requires slice == untagged + if i == 0 then Delimiter + pwd + Delimiter + DecimalString(i) + SeqMarker
                                 else DecimalString(i) + SeqMarker
    ensures slice == TaggedSlice(payload, parts, pwd, i)
  {
  }

  /** splitAndTag: slices the payload at pos, pos + chunk, ..., tags each slice and encodes it. */
  method SplitAndTag(payload: seq<byte>, parts: nat, pwd: seq<byte>) returns (tagged: seq<seq<char>>)
    requires parts >= 1
    ensures tagged == TaggedBits(payload, parts, pwd)
  {
    ghost var spec := TaggedBits(payload, parts, pwd);
    var chunk := ChunkSize(|payload|, parts);
    tagged := seq(parts, _ => []);
    var pos := 0;
    for i := 0 to parts
      invariant pos == i * chunk
      invariant |tagged| == parts
      invariant forall j :: 0 <= j < i ==> tagged[j] == spec[j]
    {
      var slice: seq<byte> := [];
      if pos < |payload| {
        var remaining := |payload| - pos;
        slice := payload[pos..pos + Min(chunk, remaining)];
      }
      ghost var untagged := slice;
      assert pos + chunk == (i + 1) * chunk;
      pos := pos + chunk;
      if i == 0 {
        slice := slice + (Delimiter + pwd + Delimiter + DecimalString(i) + SeqMarker);
      } else {
        slice := slice + (DecimalString(i) + SeqMarker);
      }
      TagStep(payload, parts, pwd, i, untagged, slice);
      var bits := ToBinaryString(slice);
      tagged := tagged[i := bits];
    }
  }
}

/**
 * The two programs against each other: what the encoder writes into a set
 * of images is what the decoder reads back out of them. The payload comes
 * back whole when the same password is entered and the images are read in
 * any order; a wrong password is refused.
 */
module RoundTrip {
  import opened Wrappers
  import opened BitCodec
  import opened Wire
  import opened Pixels
  import opened Tagging
  import opened Decoder
  import Encoder

  /** The digit of a tag reads back as its sequence number. */
  lemma SeqNumberOfDigit(i: nat)
    requires i < 10
    ensures SeqNumber(DigitByte(i)) == i
  {
  }

  /** A "###"-free text that does not end in '#' has its first "###" where one is appended. */
  lemma FirstTerminatorAppended(x: seq<byte>)
    requires Free(x, Terminator) && |x| > 0 && x[|x| - 1] != 0x23
    ensures EndsAtFirstTerminator(x + Terminator)
  {
    var s := x + Terminator;
    forall m | 0 <= m < |s|
      ensures !EndsWithTerminator(s[..m])
    {
      if m >= 3 {
        assert s[..m][m - 3..] == s[m - 3..m];
        if m <= |x| {
          assert s[m - 3..m] == x[m - 3..m];
          assert !OccursAt(x, Terminator, m - 3);
        } else {
          assert s[m - 3..m][|x| - 1 - (m - 3)] == x[|x| - 1];
        }
      }
    }
    assert s[|s| - 3..] == Terminator;
  }

  /** The tag's digit and "seq", which come before its "###". */
  function TagBody(i: nat): seq<byte>
    requires i < 10
  {
    [DigitByte(i), 0x73, 0x65, 0x71]
  }

  /** Neither the tag's body nor the delimiter holds "###". */
  lemma ConstantsFree(i: nat)
    requires i < 10
    ensures Free(TagBody(i), Terminator) && Free(Delimiter, Terminator)
  {
    var tail := TagBody(i);
    assert tail[0..3][1] != Terminator[1] && tail[1..4][0] != Terminator[0];
    assert Delimiter[0..3][0] != Terminator[0] && Delimiter[1..4][0] != Terminator[0];
  }

  /** A slice, its header and its tag body hold no "###" between them. */
  lemma HeadedSliceFree(slice: seq<byte>, i: nat, pwd: seq<byte>)
    requires i < 10
    requires Free(slice, Terminator) && Free(pwd, Terminator)
    ensures Free(slice + Header(i, pwd) + TagBody(i), Terminator)
  {
    ConstantsFree(i);
    if i == 0 {
      FreeJoin(slice, Delimiter);
      FreeJoin(slice + Delimiter, pwd);
      FreeJoin(slice + Delimiter + pwd, Delimiter);
      FreeJoin(slice + Delimiter + pwd + Delimiter, TagBody(i));
      assert slice + Header(i, pwd) + TagBody(i) == slice + Delimiter + pwd + Delimiter + TagBody(i);
    } else {
      FreeJoin(slice, TagBody(i));
      assert slice + Header(i, pwd) + TagBody(i) == slice + TagBody(i);
    }
  }

  /**
   * When neither the slice nor the password holds "###", the first "###"
   * of a tagged slice is the one that ends its tag: extraction stops
   * exactly at the end of what was embedded.
   */
  lemma TaggedSliceEndsAtTag(slice: seq<byte>, i: nat, pwd: seq<byte>)
    requires i < 10
    requires Free(slice, Terminator) && Free(pwd, Terminator)
    ensures EndsAtFirstTerminator(slice + Tag(i, pwd))
  {
    var x := slice + Header(i, pwd) + TagBody(i);
    HeadedSliceFree(slice, i, pwd);
    FirstTerminatorAppended(x);
    var tag := Tag(i, pwd);
    assert tag == Header(i, pwd) + [DigitByte(i)] + SeqMarker;
    assert x + Terminator == slice + tag;
  }

  /** A tagged slice is the slice and its header, then the digit at size - 7, then "seq###". */
  lemma TaggedLayout(slice: seq<byte>, i: nat, pwd: seq<byte>)
    requires i < 10
    ensures |slice + Tag(i, pwd)| >= TailLength
    ensures (slice + Tag(i, pwd))[..|slice + Tag(i, pwd)| - TailLength] == slice + Header(i, pwd)
    ensures (slice + Tag(i, pwd))[|slice + Tag(i, pwd)| - TailLength] == DigitByte(i)
  {
    var chunk := slice + Tag(i, pwd);
    var withPwd := slice + Header(i, pwd);
    var tail := [DigitByte(i)] + SeqMarker;
    assert chunk == withPwd + tail;
    assert |tail| == TailLength;
    assert chunk[..|chunk| - TailLength] == withPwd;
    assert chunk[|chunk| - TailLength] == tail[0];
  }

  /**
   * The decoder reads a tagged slice back as the slice under the tag's
   * sequence number, provided neither the slice nor the password holds
   * "@%#/"; for chunk 0 that is only when the password entered is the one
   * embedded, and otherwise the stream is refused.
   */
  lemma ParseTaggedSlice(slice: seq<byte>, i: nat, pwd: seq<byte>, entered: seq<byte>)
    requires i < 10
    requires Free(slice, Delimiter) && Free(pwd, Delimiter)
    ensures ParseStream(slice + Tag(i, pwd), entered) ==
            if i == 0 && entered != pwd then Rejected(PasswordNotValid) else Piece(i, slice)
  {
    var chunk := slice + Tag(i, pwd);
    var body := chunk[..|chunk| - TailLength];
    TaggedLayout(slice, i, pwd);
    SeqNumberOfDigit(i);
    assert SeqNumber(chunk[|chunk| - TailLength]) == i;
    if i == 0 {
      HeaderZeroLayout(slice, pwd);
      assert body == slice + Delimiter + pwd + Delimiter + [];
      ParseDelimited(slice, pwd, [], entered);
      assert ParseStream(chunk, entered) == ParseHeader(body, entered);
    } else {
      assert body == slice + Header(i, pwd) == slice;
      assert ParseStream(chunk, entered) == Piece(i, body);
    }
  }

  /** The slice with chunk 0's header, written as the decoder's header check reads it. */
  lemma HeaderZeroLayout(slice: seq<byte>, pwd: seq<byte>)
    ensures slice + Header(0, pwd) == slice + Delimiter + pwd + Delimiter + []
  {
    var a := slice + Header(0, pwd);
    var b := slice + Delimiter + pwd + Delimiter + [];
    assert |a| == |b|;
    forall k | 0 <= k < |a|
      ensures a[k] == b[k]
    {
      if k < |slice| {
      } else if k < |slice| + 4 {
      } else if k < |slice| + 4 + |pwd| {
      }
    }
  }

  /** Each image's encoded chunk fits in its channels. */
  predicate Fits(payload: seq<byte>, pwd: seq<byte>, chans: seq<seq<byte>>)
    requires |chans| >= 1
  {
    forall i :: 0 <= i < |chans| ==> |TaggedBits(payload, |chans|, pwd)[i]| <= |chans[i]|
  }

  /** What the decoder extracts from each image once the encoder has embedded its chunk. */
  function EncodedStreams(payload: seq<byte>, pwd: seq<byte>, chans: seq<seq<byte>>): (r: seq<seq<byte>>)
    requires |chans| >= 1
    ensures |r| == |chans|
  {
    var chunks := TaggedBits(payload, |chans|, pwd);
    seq(|chans|, i requires 0 <= i < |chans| => Extracted(Embedded(chans[i], chunks[i])))
  }

  /** Neither the payload nor the password holds either marker. */
  predicate MarkerFree(payload: seq<byte>, pwd: seq<byte>) {
    Free(payload, Terminator) && Free(pwd, Terminator) &&
    Free(payload, Delimiter) && Free(pwd, Delimiter)
  }

  /** A slice of a marker-free payload is marker-free. */
  lemma SliceMarkerFree(payload: seq<byte>, parts: nat, i: nat)
    requires parts >= 1 && Free(payload, Terminator) && Free(payload, Delimiter)
    ensures Free(Slice(payload, parts, i), Terminator) && Free(Slice(payload, parts, i), Delimiter)
  {
    var chunk := ChunkSize(|payload|, parts);
    var pos := i * chunk;
    if pos < |payload| {
      FreeSlice(payload, Terminator, pos, pos + Min(chunk, |payload| - pos));
      FreeSlice(payload, Delimiter, pos, pos + Min(chunk, |payload| - pos));
    }
  }

  /** Image i gives back exactly tagged slice i. */
  lemma StreamsAreTaggedSlices(payload: seq<byte>, pwd: seq<byte>, chans: seq<seq<byte>>)
    requires 1 <= |chans| <= Encoder.MaxImages
    requires MarkerFree(payload, pwd) && Fits(payload, pwd, chans)
    ensures forall i :: 0 <= i < |chans| ==>
              EncodedStreams(payload, pwd, chans)[i] == TaggedSlice(payload, |chans|, pwd, i)
  {
    var n := |chans|;
    forall i | 0 <= i < n
      ensures EncodedStreams(payload, pwd, chans)[i] == TaggedSlice(payload, n, pwd, i)
    {
      var t := TaggedSlice(payload, n, pwd, i);
      SliceMarkerFree(payload, n, i);
      TaggedSliceEndsAtTag(Slice(payload, n, i), i, pwd);
      assert |TaggedBits(payload, n, pwd)[i]| <= |chans[i]|;
      EmbedThenExtract(chans[i], t);
    }
  }

  /** How the decoder parses what image i gives back. */
  lemma ParseEncoded(payload: seq<byte>, pwd: seq<byte>, entered: seq<byte>, chans: seq<seq<byte>>, i: nat)
    requires 1 <= |chans| <= Encoder.MaxImages && i < |chans|
    requires MarkerFree(payload, pwd) && Fits(payload, pwd, chans)
    ensures ParseStream(EncodedStreams(payload, pwd, chans)[i], entered) ==
            if i == 0 && entered != pwd then Rejected(PasswordNotValid) else Piece(i, Slices(payload, |chans|)[i])
  {
    StreamsAreTaggedSlices(payload, pwd, chans);
    SliceMarkerFree(payload, |chans|, i);
    ParseTaggedSlice(Slice(payload, |chans|, i), i, pwd, entered);
  }

  /**
   * Encoding then decoding: when every chunk fits and neither marker
   * occurs in the payload or the password, the images written by the
   * encoder, read in the order they were written, give back the payload
   * under the right password and are refused under any other.
   */
  lemma EncodeThenDecode(payload: seq<byte>, pwd: seq<byte>, entered: seq<byte>, chans: seq<seq<byte>>)
    requires 1 <= |chans| <= Encoder.MaxImages
    requires MarkerFree(payload, pwd) && Fits(payload, pwd, chans)
    ensures DecodeStreams(EncodedStreams(payload, pwd, chans), entered) ==
            if entered == pwd then Ok(payload) else Err(PasswordNotValid)
  {
    if entered == pwd {
      DecodeUnderRightPassword(payload, pwd, chans);
    } else {
      DecodeUnderWrongPassword(payload, pwd, entered, chans);
    }
  }

  /** Under the password they were written with, the encoded images give the payload back. */
  lemma DecodeUnderRightPassword(payload: seq<byte>, pwd: seq<byte>, chans: seq<seq<byte>>)
    requires 1 <= |chans| <= Encoder.MaxImages
    requires MarkerFree(payload, pwd) && Fits(payload, pwd, chans)
    ensures DecodeStreams(EncodedStreams(payload, pwd, chans), pwd) == Ok(payload)
  {
    var n := |chans|;
    var streams := EncodedStreams(payload, pwd, chans);
    var slices := Slices(payload, n);
    forall i | 0 <= i < n
      ensures ParseStream(streams[i], pwd) == Piece(i, slices[i])
    {
      ParseEncoded(payload, pwd, pwd, chans, i);
    }
    FillInOrder(streams, pwd, slices);
    assert FilledUpTo(slices, n) == slices;
    SlicesCover(payload, n);
  }

  /** Under any other password, the stream of chunk 0 ends the run with PasswordNotValid. */
  lemma DecodeUnderWrongPassword(payload: seq<byte>, pwd: seq<byte>, entered: seq<byte>, chans: seq<seq<byte>>)
    requires 1 <= |chans| <= Encoder.MaxImages
    requires MarkerFree(payload, pwd) && Fits(payload, pwd, chans)
    requires entered != pwd
    ensures DecodeStreams(EncodedStreams(payload, pwd, chans), entered) == Err(PasswordNotValid)
  {
    var n := |chans|;
    var streams := EncodedStreams(payload, pwd, chans);
    ParseEncoded(payload, pwd, entered, chans, 0);
    assert streams[..1] == [streams[0]];
    assert Fill(streams[..1], entered, n) == Err(PasswordNotValid);
    FillFailureSticks(streams, entered, n, 1);
  }

  /** Under the password they were written with, no two images disagree about a slot. */
  lemma EncodedStreamsConsistent(payload: seq<byte>, pwd: seq<byte>, entered: seq<byte>, chans: seq<seq<byte>>)
    requires 1 <= |chans| <= Encoder.MaxImages
    requires MarkerFree(payload, pwd) && Fits(payload, pwd, chans)
    ensures Consistent(EncodedStreams(payload, pwd, chans), entered)
  {
    var n := |chans|;
    var streams := EncodedStreams(payload, pwd, chans);
    forall i | 0 <= i < n
      ensures ParseStream(streams[i], entered).Piece? ==> ParseStream(streams[i], entered).index == i
    {
      ParseEncoded(payload, pwd, entered, chans, i);
    }
    PositionTaggedConsistent(streams, entered);
  }

  /**
   * The order the decoder happens to find the files in does not matter:
   * any arrangement of the encoded images gives the payload back under
   * the right password, and fails under any other.
   */
  lemma EncodeThenDecodeAnyOrder(payload: seq<byte>, pwd: seq<byte>, entered: seq<byte>,
                                 chans: seq<seq<byte>>, found: seq<seq<byte>>)
    requires 1 <= |chans| <= Encoder.MaxImages
    requires MarkerFree(payload, pwd) && Fits(payload, pwd, chans)
    requires multiset(found) == multiset(EncodedStreams(payload, pwd, chans))
    ensures entered == pwd ==> DecodeStreams(found, entered) == Ok(payload)
    ensures entered != pwd ==> DecodeStreams(found, entered) == Err(PasswordNotValid)
  {
    var streams := EncodedStreams(payload, pwd, chans);
    EncodeThenDecode(payload, pwd, entered, chans);
    EncodedStreamsConsistent(payload, pwd, entered, chans);
    OrderIndependent(streams, found, entered);
    if entered != pwd {
      WrongPasswordAnyOrder(payload, pwd, entered, chans, found);
    }
  }

  /** Every encoded stream is accepted into the table or refused as PasswordNotValid, in any order. */
  lemma EncodedOnlyRefusal(payload: seq<byte>, pwd: seq<byte>, entered: seq<byte>,
                           chans: seq<seq<byte>>, found: seq<seq<byte>>)
    requires 1 <= |chans| <= Encoder.MaxImages
    requires MarkerFree(payload, pwd) && Fits(payload, pwd, chans)
    requires multiset(found) == multiset(EncodedStreams(payload, pwd, chans))
    ensures forall x :: x in found ==>
              Accepted(x, entered, |chans|) || ParseStream(x, entered) == Rejected(PasswordNotValid)
  {
    var streams := EncodedStreams(payload, pwd, chans);
    forall x | x in found
      ensures Accepted(x, entered, |chans|) || ParseStream(x, entered) == Rejected(PasswordNotValid)
    {
      assert x in multiset(streams);
      var i :| 0 <= i < |streams| && streams[i] == x;
      ParseEncoded(payload, pwd, entered, chans, i);
    }
  }

  /** Under a wrong password the encoded images, read in any order, are refused as PasswordNotValid. */
  lemma WrongPasswordAnyOrder(payload: seq<byte>, pwd: seq<byte>, entered: seq<byte>,
                              chans: seq<seq<byte>>, found: seq<seq<byte>>)
    requires 1 <= |chans| <= Encoder.MaxImages
    requires MarkerFree(payload, pwd) && Fits(payload, pwd, chans)
    requires multiset(found) == multiset(EncodedStreams(payload, pwd, chans))
    requires entered != pwd
    ensures DecodeStreams(found, entered) == Err(PasswordNotValid)
  {
    var streams := EncodedStreams(payload, pwd, chans);
    var n := |chans|;
    assert |found| == |multiset(found)| == |streams| == n;
    EncodedOnlyRefusal(payload, pwd, entered, chans, found);
    ParseEncoded(payload, pwd, entered, chans, 0);
    assert streams[0] in multiset(found);
    assert !Accepted(streams[0], entered, n);
    FillOkIffAllAccepted(found, entered, n);
    FillOnlyRefusal(found, entered, n, PasswordNotValid);
  }

  /** When every chunk fits its image, the capacity check lets every image through. */
  lemma FitsNoOverflow(payload: seq<byte>, pwd: seq<byte>, imgs: seq<Image>, chans: seq<seq<byte>>)
    requires 1 <= |imgs| && |chans| == |imgs|
    requires forall i :: 0 <= i < |imgs| ==> |chans[i]| == imgs[i].rows * imgs[i].cols * 3
    requires Fits(payload, pwd, chans)
    ensures Encoder.FirstOverflow(payload, pwd, imgs) == |imgs|
  {
    var caps := Encoder.Capacities(imgs);
    assert forall i :: 0 <= i < |imgs| ==> caps[i] == |chans[i]|;
  }

  /** The streams read from the embedded buffers are the encoded streams. */
  lemma ReadBackEncoded(payload: seq<byte>, pwd: seq<byte>, chans: seq<seq<byte>>, after: seq<seq<byte>>)
    requires |chans| >= 1 && |after| == |chans|
    requires forall i :: 0 <= i < |chans| ==> after[i] == Embedded(chans[i], TaggedBits(payload, |chans|, pwd)[i])
    ensures ExtractAll(after) == EncodedStreams(payload, pwd, chans)
  {
    var found := ExtractAll(after);
    var e := EncodedStreams(payload, pwd, chans);
    forall i | 0 <= i < |found|
      ensures found[i] == e[i]
    {
    }
  }

  /**
   * One run of the encoder: over images the payload fits it succeeds, and
   * what the decoder will extract from the images is the encoded streams of
   * their original channels.
   */
  method Hide(payload: seq<byte>, pwd: seq<byte>, imgs: seq<Image>) returns (encoded: Result<(), Encoder.EncodeError>)
    requires forall i :: 0 <= i < |imgs| ==> imgs[i].Valid()
    requires Encoder.Separate(imgs)
    modifies set i | 0 <= i < |imgs| :: imgs[i].data
    ensures 1 <= |imgs| <= Encoder.MaxImages && Fits(payload, pwd, old(Buffers(imgs))) ==>
              encoded == Ok(()) && StreamsOf(imgs) == EncodedStreams(payload, pwd, old(Buffers(imgs)))
  {
    ghost var chans := Buffers(imgs);
    ghost var admitted := 1 <= |imgs| <= Encoder.MaxImages && Fits(payload, pwd, chans);
    if admitted {
      FitsNoOverflow(payload, pwd, imgs, chans);
    }
    label before:
    encoded := Encoder.Encode(payload, pwd, pwd, imgs);
    ghost var after := Buffers(imgs);
    if admitted {
      var chunks := TaggedBits(payload, |imgs|, pwd);
      forall i | 0 <= i < |imgs|
        ensures after[i] == Embedded(chans[i], chunks[i])
      {
        assert chans[i] == old@before(imgs[i].data[..]);
        assert after[i] == imgs[i].data[..];
        assert i < Encoder.FirstOverflow(payload, pwd, imgs);
      }
      ReadBackEncoded(payload, pwd, chans, after);
    }
  }

  /**
   * One run of the encoder over a set of images followed by one run of the
   * decoder over the same images: when the images are few enough, every
   * chunk fits and neither marker occurs in the payload or the password,
   * the encoder succeeds and the decoder gives back the payload under the
   * right password and refuses any other.
   */
  method HideThenRecover(payload: seq<byte>, pwd: seq<byte>, entered: seq<byte>, imgs: seq<Image>)
    returns (encoded: Result<(), Encoder.EncodeError>, decoded: Result<seq<byte>, DecodeError>)
    requires forall i :: 0 <= i < |imgs| ==> imgs[i].Valid()
    requires Encoder.Separate(imgs)
    requires MarkerFree(payload, pwd)
    modifies set i | 0 <= i < |imgs| :: imgs[i].data
    ensures 1 <= |imgs| <= Encoder.MaxImages && Fits(payload, pwd, old(Buffers(imgs))) ==>
              encoded == Ok(()) && decoded == if entered == pwd then Ok(payload) else Err(PasswordNotValid)
  {
    ghost var chans := Buffers(imgs);
    encoded := Hide(payload, pwd, imgs);
    decoded := Decode(imgs, entered);
    if 1 <= |imgs| <= Encoder.MaxImages && Fits(payload, pwd, chans) {
      EncodeThenDecode(payload, pwd, entered, chans);
    }
  }
}

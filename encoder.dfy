/**
 * The encoder's main after its inputs are read: the image-count and
 * password checks, then for each image in the order found the capacity
 * check and the embedding of its tagged chunk.
 */
module Encoder {
  import opened Wrappers
  import opened BitCodec
  import opened Pixels
  import opened Tagging

  /** One sequence digit per image: at most nine images. */
  const MaxImages: nat := 9

  /** The fatal outcomes of an encoding run. */
  datatype EncodeError =
    | NoFiles                 // the directory holds no regular file
    | TooManyFiles            // more than nine
    | PasswordsDiffer         // the confirmation does not match
    | ChunkTooBig(index: nat) // image index cannot hold its chunk

  /** The number of bits each image can hold. */
  function Capacities(imgs: seq<Image>): (r: seq<nat>)
    ensures |r| == |imgs|
    ensures forall i :: 0 <= i < |imgs| ==> r[i] == imgs[i].rows * imgs[i].cols * 3
  {
    seq(|imgs|, i requires 0 <= i < |imgs| => imgs[i].Capacity())
  }

  /** The first index whose chunk has more bits than its image has channels, or |chunks|. */
  function FirstTooBig(chunks: seq<seq<char>>, caps: seq<nat>, from: nat): (k: nat)
    requires |chunks| == |caps| && from <= |chunks|
    ensures from <= k <= |chunks|
    ensures forall j :: from <= j < k ==> |chunks[j]| <= caps[j]
    ensures k < |chunks| ==> |chunks[k]| > caps[k]
    decreases |chunks| - from
  {
    if from == |chunks| then from
    else if |chunks[from]| > caps[from] then from
    else FirstTooBig(chunks, caps, from + 1)
  }

  /** The index of the first image too small for its tagged chunk, or the number of images. */
  function FirstOverflow(payload: seq<byte>, pwd: seq<byte>, imgs: seq<Image>): nat
    requires |imgs| >= 1
  {
    FirstTooBig(TaggedBits(payload, |imgs|, pwd), Capacities(imgs), 0)
  }

  /** Distinct images have distinct channel buffers (each comes from its own cv::imread). */
  predicate Separate(imgs: seq<Image>) {
    forall i, j :: 0 <= i < j < |imgs| ==> imgs[i].data != imgs[j].data
  }

  /**
   * The encode loop of main: for each image in turn, the capacity check,
   * then embedding. An oversized chunk stops the run before its image is
   * touched; the images before it have already been embedded (and, in the
   * source, written out).
   */
  method EmbedAll(chunks: seq<seq<char>>, imgs: seq<Image>) returns (tooBig: Option<nat>)
    requires |chunks| == |imgs|
    requires forall i :: 0 <= i < |imgs| ==> imgs[i].Valid() && IsBitString(chunks[i])
    requires Separate(imgs)
    modifies set i | 0 <= i < |imgs| :: imgs[i].data
    ensures tooBig == if FirstTooBig(chunks, Capacities(imgs), 0) < |imgs| then Some(FirstTooBig(chunks, Capacities(imgs), 0)) else None
    ensures forall i :: 0 <= i < |imgs| ==>
              imgs[i].data[..] == if i < FirstTooBig(chunks, Capacities(imgs), 0) then Embedded(old(imgs[i].data[..]), chunks[i]) else old(imgs[i].data[..])
  {
    ghost var caps := Capacities(imgs);
    for i := 0 to |imgs|
      invariant FirstTooBig(chunks, caps, 0) == FirstTooBig(chunks, caps, i)
      invariant forall j :: 0 <= j < |imgs| ==>
                  imgs[j].data[..] == if j < i then Embedded(old(imgs[j].data[..]), chunks[j]) else old(imgs[j].data[..])
    {
      var bits := chunks[i];
      var maxBits := imgs[i].rows * imgs[i].cols * 3;
      if |bits| > maxBits {
        return Some(i);
      }
      label before:
      imgs[i].EmbedBits(bits);
      forall j | 0 <= j < |imgs| && j != i
        ensures imgs[j].data[..] == old@before(imgs[j].data[..])
      {
        assert imgs[j].data != imgs[i].data;
      }
    }
    return None;
  }

  /** The checks of main, in the source's order, then splitting and the encode loop. */
  method Encode(payload: seq<byte>, pwd: seq<byte>, pwd2: seq<byte>, imgs: seq<Image>)
    returns (r: Result<(), EncodeError>)
    requires forall i :: 0 <= i < |imgs| ==> imgs[i].Valid()
    requires Separate(imgs)
    modifies set i | 0 <= i < |imgs| :: imgs[i].data
    ensures |imgs| == 0 ==> r == Err(NoFiles)
    ensures |imgs| > MaxImages ==> r == Err(TooManyFiles)
    ensures 1 <= |imgs| <= MaxImages && pwd != pwd2 ==> r == Err(PasswordsDiffer)
    ensures !(1 <= |imgs| <= MaxImages && pwd == pwd2) ==>
              forall i :: 0 <= i < |imgs| ==> imgs[i].data[..] == old(imgs[i].data[..])
    ensures 1 <= |imgs| <= MaxImages && pwd == pwd2 ==>
              r == if FirstOverflow(payload, pwd, imgs) < |imgs| then Err(ChunkTooBig(FirstOverflow(payload, pwd, imgs))) else Ok(())
    ensures 1 <= |imgs| <= MaxImages && pwd == pwd2 ==>
              forall i :: 0 <= i < |imgs| ==>
                imgs[i].data[..] == if i < FirstOverflow(payload, pwd, imgs)
                                    then Embedded(old(imgs[i].data[..]), TaggedBits(payload, |imgs|, pwd)[i])
                                    else old(imgs[i].data[..])
  {
    if |imgs| == 0 {
      return Err(NoFiles);
    }
    if |imgs| > MaxImages {
      return Err(TooManyFiles);
    }
    if pwd != pwd2 {
      return Err(PasswordsDiffer);
    }
    var bitChunks := SplitAndTag(payload, |imgs|, pwd);
    var tooBig := EmbedAll(bitChunks, imgs);
    if tooBig.Some? {
      return Err(ChunkTooBig(tooBig.value));
    }
    return Ok(());
  }
}

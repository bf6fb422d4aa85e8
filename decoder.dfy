/**
 * The decoder's half of the protocol (main in decode.cpp): each image's
 * extracted stream is parsed for its tag, the content is stored in a
 * position table at the sequence number the tag carries, and the table is
 * joined in index order.
 */
module Decoder {
  import opened Wrappers
  import opened BitCodec
  import opened Wire
  import opened Pixels

  /** The fatal outcomes of a decoding run. */
  datatype DecodeError =
    | NoFiles            // the directory holds no regular file
    | MalformedHeader    // a sequence-0 stream lacks one of its two "@%#/"
    | PasswordNotValid   // the password between them is not the one entered
    | SeqOutOfRange(index: int)  // pieces[index] would be outside the table

  /** What one extracted stream contributes. */
  datatype Parsed =
    | Skipped                                 // too short to carry a tag
    | Piece(index: int, content: seq<byte>)   // content for slot index
    | Rejected(error: DecodeError)             // ends the run

  /**
   * seqChar - '0' for the byte at size - 7, with the byte read as a signed
   * char, as it is where plain char is signed.
   */
  function SeqNumber(c: byte): (r: int)
    ensures c as int < 0x80 ==> r == c as int - Zero as int
    ensures c as int >= 0x80 ==> r < 0
  {
    (if c < 0x80 then c as int else c as int - 0x100) - Zero as int
  }

  /**
   * The password check of a sequence-0 stream, on the bytes before its
   * "0seq###": the first "@%#/", the next one at least four bytes later,
   * and the password between them; the content is what precedes the first.
   */
  function ParseHeader(withPwd: seq<byte>, pwd: seq<byte>): (p: Parsed)
    ensures p.Piece? ==> p.index == 0 && exists rest :: withPwd == p.content + Delimiter + pwd + Delimiter + rest
    ensures !p.Skipped?
    ensures p.Rejected? ==> p.error == MalformedHeader || p.error == PasswordNotValid
    ensures Free(withPwd, Delimiter) ==> p == Rejected(MalformedHeader)
  {
    var first := Find(withPwd, Delimiter, 0);
    // when first is npos, first + 4 wraps round to 3; the result is not used
    var second := Find(withPwd, Delimiter, if first.Some? then first.value + 4 else 3);
    if first.None? || second.None? then Rejected(MalformedHeader)
    else
      var pwdInside := withPwd[first.value + 4..second.value];
      if pwdInside != pwd then Rejected(PasswordNotValid)
      else
        var content := withPwd[..first.value];
        assert withPwd == content + Delimiter + pwd + Delimiter + withPwd[second.value + 4..];
        Piece(0, content)
  }

  /**
   * Where the two searches stop, the text splits into a delimiter-free
   * prefix, the first delimiter, a delimiter-free middle, the second
   * delimiter and the rest.
   */
  lemma SplitAtDelimiters(withPwd: seq<byte>, f: nat, e: nat)
    requires Find(withPwd, Delimiter, 0) == Some(f)
    requires Find(withPwd, Delimiter, f + 4) == Some(e)
    ensures f + 4 <= e && e + 4 <= |withPwd|
    ensures Free(withPwd[..f], Delimiter) && Free(withPwd[f + 4..e], Delimiter)
    ensures withPwd == withPwd[..f] + Delimiter + withPwd[f + 4..e] + Delimiter + withPwd[e + 4..]
  {
    FreeBetween(withPwd, Delimiter, 0, f);
    FreeBetween(withPwd, Delimiter, f + 4, e);
    assert withPwd[0..f] == withPwd[..f];
    SplitAround(withPwd, f, e);
  }

  /** A split of the text around two delimiters whose middle is not pwd witnesses a refused password. */
  lemma RefusedSplit(withPwd: seq<byte>, pwd: seq<byte>, c: seq<byte>, q: seq<byte>, rest: seq<byte>)
    requires withPwd == c + Delimiter + q + Delimiter + rest
    requires Free(c, Delimiter) && Free(q, Delimiter) && q != pwd
    ensures exists c, q, rest :: withPwd == c + Delimiter + q + Delimiter + rest &&
                                 Free(c, Delimiter) && Free(q, Delimiter) && q != pwd
  {
  }

  /**
   * What the password check accepts and refuses: an accepted header has
   * content and password free of the delimiter, and a refused password is
   * the delimiter-free text between the first two delimiters.
   */
  lemma HeaderShape(withPwd: seq<byte>, pwd: seq<byte>)
    ensures ParseHeader(withPwd, pwd).Piece? ==>
              Free(ParseHeader(withPwd, pwd).content, Delimiter) && Free(pwd, Delimiter)
    ensures ParseHeader(withPwd, pwd) == Rejected(PasswordNotValid) ==>
              exists c, q, rest :: withPwd == c + Delimiter + q + Delimiter + rest &&
                                   Free(c, Delimiter) && Free(q, Delimiter) && q != pwd
  {
    var p := ParseHeader(withPwd, pwd);
    if !p.Rejected? || p.error != MalformedHeader {
      var f := Find(withPwd, Delimiter, 0).value;
      var e := Find(withPwd, Delimiter, f + 4).value;
      SplitAtDelimiters(withPwd, f, e);
      var c := withPwd[..f];
      var q := withPwd[f + 4..e];
      var rest := withPwd[e + 4..];
      assert p == if q != pwd then Rejected(PasswordNotValid) else Piece(0, c);
      if q != pwd {
        RefusedSplit(withPwd, pwd, c, q, rest);
      }
    }
  }

  /** The first occurrence of pat at or after from is at k, when it occurs at k and nowhere in between. */
  lemma FindAt(s: seq<byte>, pat: seq<byte>, from: nat, k: nat)
    requires from <= k && OccursAt(s, pat, k)
    requires forall j :: from <= j < k ==> !OccursAt(s, pat, j)
    ensures Find(s, pat, from) == Some(k)
  {
  }

  /** Searching w from start, when the delimiter sits at e and w[start..e] does not hold it, finds e. */
  lemma FindDelimiterAt(w: seq<byte>, start: nat, e: nat)
    requires start <= e && e + 4 <= |w|
    requires Free(w[start..e], Delimiter) && w[e..e + 4] == Delimiter
    ensures Find(w, Delimiter, start) == Some(e)
  {
    NoDelimiterBefore(w, start, e);
    FindAt(w, Delimiter, start, e);
  }

  /** Where the pieces of c + "@%#/" + q + "@%#/" + rest lie. */
  lemma DelimitedLayout(c: seq<byte>, q: seq<byte>, rest: seq<byte>)
    ensures var w := c + Delimiter + q + Delimiter + rest;
            var a := |c|;
            var b := a + 4 + |q|;
            |w| == b + 4 + |rest| && w[0..a] == c && w[a..a + 4] == Delimiter &&
            w[a + 4..b] == q && w[b..b + 4] == Delimiter
  {
    var v := c + Delimiter;
    var u := v + q;
    var t := u + Delimiter;
    var w := t + rest;
    var a := |c|;
    var b := a + 4 + |q|;
    assert w[..|t|] == t && t[..|u|] == u && u[..|v|] == v;
    assert w[0..a] == v[..a] == c;
    assert w[a..a + 4] == v[a..] == Delimiter;
    assert w[a + 4..b] == u[|v|..] == q;
    assert w[b..b + 4] == t[|u|..] == Delimiter;
  }

  /**
   * In c + "@%#/" + q + "@%#/" + rest, with neither c nor q holding the
   * delimiter, the two searches find the two delimiters around q.
   */
  lemma FindBothDelimiters(c: seq<byte>, q: seq<byte>, rest: seq<byte>)
    requires Free(c, Delimiter) && Free(q, Delimiter)
    ensures Find(c + Delimiter + q + Delimiter + rest, Delimiter, 0) == Some(|c|)
    ensures Find(c + Delimiter + q + Delimiter + rest, Delimiter, |c| + 4) == Some(|c| + 4 + |q|)
  {
    var w := c + Delimiter + q + Delimiter + rest;
    var a := |c|;
    DelimitedLayout(c, q, rest);
    FindDelimiterAt(w, 0, a);
    FindDelimiterAt(w, a + 4, a + 4 + |q|);
  }

  /**
   * A text c + "@%#/" + q + "@%#/" + rest, with neither c nor q holding the
   * delimiter, passes the password check with content c exactly when the
   * password entered is q, and is refused as PasswordNotValid otherwise.
   */
  lemma ParseDelimited(c: seq<byte>, q: seq<byte>, rest: seq<byte>, entered: seq<byte>)
    requires Free(c, Delimiter) && Free(q, Delimiter)
    ensures ParseHeader(c + Delimiter + q + Delimiter + rest, entered) ==
            if entered != q then Rejected(PasswordNotValid) else Piece(0, c)
  {
    FindBothDelimiters(c, q, rest);
    DelimitedLayout(c, q, rest);
    var w := c + Delimiter + q + Delimiter + rest;
    assert w[..|c|] == w[0..|c|];
  }

  /**
   * The header is malformed exactly when the text cannot be read as
   * c + "@%#/" + q + "@%#/" + rest with neither c nor q holding the
   * delimiter.
   */
  lemma MalformedIffUnsplit(withPwd: seq<byte>, pwd: seq<byte>)
    ensures ParseHeader(withPwd, pwd) == Rejected(MalformedHeader) <==>
            !exists c, q, rest :: withPwd == c + Delimiter + q + Delimiter + rest &&
                                  Free(c, Delimiter) && Free(q, Delimiter)
  {
    var p := ParseHeader(withPwd, pwd);
    HeaderShape(withPwd, pwd);
    if p.Piece? {
      var rest :| withPwd == p.content + Delimiter + pwd + Delimiter + rest;
      assert withPwd == p.content + Delimiter + pwd + Delimiter + rest && Free(p.content, Delimiter) && Free(pwd, Delimiter);
    }
    if exists c, q, rest :: withPwd == c + Delimiter + q + Delimiter + rest && Free(c, Delimiter) && Free(q, Delimiter) {
      var c, q, rest :| withPwd == c + Delimiter + q + Delimiter + rest && Free(c, Delimiter) && Free(q, Delimiter);
      ParseDelimited(c, q, rest, pwd);
    }
  }

  /**
   * The tag parsing of one stream (the body of the loop over images,
   * without the table write).
   */
  function ParseStream(chunk: seq<byte>, pwd: seq<byte>): (p: Parsed)
    ensures p.Skipped? <==> |chunk| < TailLength
    ensures |chunk| >= TailLength && SeqNumber(chunk[|chunk| - TailLength]) != 0 ==>
              p == Piece(SeqNumber(chunk[|chunk| - TailLength]), chunk[..|chunk| - TailLength])
    ensures |chunk| >= TailLength && SeqNumber(chunk[|chunk| - TailLength]) == 0 ==>
              p == ParseHeader(chunk[..|chunk| - TailLength], pwd)
  {
    if |chunk| < TailLength then Skipped
    else
      var index := SeqNumber(chunk[|chunk| - TailLength]);
      if index == 0 then ParseHeader(chunk[..|chunk| - TailLength], pwd)
      else Piece(index, chunk[..|chunk| - TailLength])
  }

  /** pieces[seq] = content, or the out-of-range write the source leaves undefined. */
  function Store(table: seq<seq<byte>>, p: Parsed): (r: Result<seq<seq<byte>>, DecodeError>)
    ensures r.Ok? ==> |r.value| == |table|
  {
    match p
    case Skipped => Ok(table)
    case Rejected(e) => Err(e)
    case Piece(k, c) => if 0 <= k < |table| then Ok(table[k := c]) else Err(SeqOutOfRange(k))
  }

  /** The position table of size n after the streams have been processed in order. */
  function Fill(streams: seq<seq<byte>>, pwd: seq<byte>, n: nat): (r: Result<seq<seq<byte>>, DecodeError>)
    ensures r.Ok? ==> |r.value| == n
  {
    if streams == [] then Ok(seq(n, _ => []))
    else
      match Fill(streams[..|streams| - 1], pwd, n)
      case Err(e) => Err(e)
      case Ok(t) => Store(t, ParseStream(streams[|streams| - 1], pwd))
  }

  /** The recovered payload for the streams of one directory, in the order they were found. */
  function DecodeStreams(streams: seq<seq<byte>>, pwd: seq<byte>): Result<seq<byte>, DecodeError> {
    if streams == [] then Err(NoFiles)
    else
      match Fill(streams, pwd, |streams|)
      case Err(e) => Err(e)
      case Ok(t) => Ok(Concat(t))
  }

  /** The channel buffer of each image. */
  ghost function Buffers(imgs: seq<Image>): (r: seq<seq<byte>>)
    reads set i | 0 <= i < |imgs| :: imgs[i].data
    ensures |r| == |imgs|
    ensures forall i :: 0 <= i < |imgs| ==> r[i] == imgs[i].data[..]
  {
    if imgs == [] then [] else Buffers(imgs[..|imgs| - 1]) + [imgs[|imgs| - 1].data[..]]
  }

  /** The stream extractChunk gives for each buffer. */
  function ExtractAll(bufs: seq<seq<byte>>): (r: seq<seq<byte>>)
    ensures |r| == |bufs|
  {
    seq(|bufs|, i requires 0 <= i < |bufs| => Extracted(bufs[i]))
  }

  /** The stream extracted from each image. */
  ghost function StreamsOf(imgs: seq<Image>): seq<seq<byte>>
    reads set i | 0 <= i < |imgs| :: imgs[i].data
  {
    ExtractAll(Buffers(imgs))
  }

  /** Processing one more stream: the table so far, updated by that stream. */
  lemma FillStep(streams: seq<seq<byte>>, pwd: seq<byte>, n: nat, i: nat)
    requires i < |streams| && Fill(streams[..i], pwd, n).Ok?
    ensures Fill(streams[..i + 1], pwd, n) == Store(Fill(streams[..i], pwd, n).value, ParseStream(streams[i], pwd))
  {
    assert streams[..i + 1][..i] == streams[..i];
  }

  /** Once a prefix of the streams has failed, the later streams do not matter. */
  lemma {:induction false} FillFailureSticks(streams: seq<seq<byte>>, pwd: seq<byte>, n: nat, i: nat)
    requires i <= |streams| && Fill(streams[..i], pwd, n).Err?
    ensures Fill(streams, pwd, n) == Fill(streams[..i], pwd, n)
  {
    if i < |streams| {
      assert streams[..|streams| - 1][..i] == streams[..i];
      FillFailureSticks(streams[..|streams| - 1], pwd, n, i);
    } else {
      assert streams[..i] == streams;
    }
  }

  /** The final loop of main: result += s for every slot, in index order. */
  method JoinPieces(pieces: array<seq<byte>>) returns (result: seq<byte>)
    ensures result == Concat(pieces[..])
  {
    result := [];
    for k := 0 to pieces.Length
      invariant result == Concat(pieces[..k])
    {
      assert pieces[..k + 1][..k] == pieces[..k];
      result := result + pieces[k];
    }
    assert pieces[..pieces.Length] == pieces[..];
  }

  /** A stream too short for a tag leaves the table as it was. */
  lemma ShortStreamSkipped(streams: seq<seq<byte>>, chunk: seq<byte>, pwd: seq<byte>, n: nat)
    requires |chunk| < TailLength
    ensures Fill(streams + [chunk], pwd, n) == Fill(streams, pwd, n)
  {
    assert (streams + [chunk])[..|streams|] == streams;
  }

  /** A stream the run gets past: it parses, and a slot it names lies inside a table of size n. */
  predicate Accepted(chunk: seq<byte>, pwd: seq<byte>, n: nat) {
    match ParseStream(chunk, pwd)
    case Skipped => true
    case Rejected(_) => false
    case Piece(k, _) => 0 <= k < n
  }

  /** The run fails exactly when some stream is not accepted, wherever it comes. */
  lemma {:induction false} FillOkIffAllAccepted(streams: seq<seq<byte>>, pwd: seq<byte>, n: nat)
    ensures Fill(streams, pwd, n).Ok? <==> forall x :: x in streams ==> Accepted(x, pwd, n)
  {
    if streams != [] {
      var init := streams[..|streams| - 1];
      var last := streams[|streams| - 1];
      FillOkIffAllAccepted(init, pwd, n);
      assert streams == init + [last];
      assert forall x :: x in streams <==> x in init || x == last;
      if Fill(init, pwd, n).Ok? {
        assert Store(Fill(init, pwd, n).value, ParseStream(last, pwd)).Ok? <==> Accepted(last, pwd, n);
      }
    }
  }

  /** When the only refusal any stream can meet is e, a run that fails, fails with e. */
  lemma {:induction false} FillOnlyRefusal(streams: seq<seq<byte>>, pwd: seq<byte>, n: nat, e: DecodeError)
    requires forall x :: x in streams ==> Accepted(x, pwd, n) || ParseStream(x, pwd) == Rejected(e)
    ensures Fill(streams, pwd, n).Err? ==> Fill(streams, pwd, n) == Err(e)
  {
    if streams != [] {
      var init := streams[..|streams| - 1];
      var last := streams[|streams| - 1];
      assert streams == init + [last];
      assert forall x :: x in init ==> x in streams;
      FillOnlyRefusal(init, pwd, n, e);
      assert last in streams;
    }
  }

  /** The table once slots below m hold their pieces and the rest are still empty. */
  function FilledUpTo(pieces: seq<seq<byte>>, m: nat): (t: seq<seq<byte>>)
    ensures |t| == |pieces|
    ensures forall j :: 0 <= j < |pieces| ==> t[j] == if j < m then pieces[j] else []
  {
    seq(|pieces|, j requires 0 <= j < |pieces| => if j < m then pieces[j] else [])
  }

  /**
   * Streams found in tag order, stream i tagged i, fill the table slot by
   * slot: after the first m of them, slots below m hold their contents and
   * the rest are still empty.
   */
  lemma {:induction false} FillInOrder(streams: seq<seq<byte>>, pwd: seq<byte>, pieces: seq<seq<byte>>)
    requires |streams| <= |pieces|
    requires forall i :: 0 <= i < |streams| ==> ParseStream(streams[i], pwd) == Piece(i, pieces[i])
    ensures Fill(streams, pwd, |pieces|) == Ok(FilledUpTo(pieces, |streams|))
  {
    var n := |pieces|;
    if streams == [] {
      assert FilledUpTo(pieces, 0) == seq(n, _ => []);
    } else {
      var m := |streams| - 1;
      assert forall i :: 0 <= i < m ==> streams[..m][i] == streams[i];
      FillInOrder(streams[..m], pwd, pieces);
      var t := FilledUpTo(pieces, m);
      assert Fill(streams, pwd, n) == Store(t, ParseStream(streams[m], pwd));
      assert ParseStream(streams[m], pwd) == Piece(m, pieces[m]);
      assert t[m := pieces[m]] == FilledUpTo(pieces, m + 1);
    }
  }

  /** The content of the last stream whose tag names slot k, or "" when none does. */
  function LastPiece(streams: seq<seq<byte>>, pwd: seq<byte>, k: int): seq<byte> {
    if streams == [] then []
    else
      var p := ParseStream(streams[|streams| - 1], pwd);
      if p.Piece? && p.index == k then p.content
      else LastPiece(streams[..|streams| - 1], pwd, k)
  }

  /** Slot k of the finished table holds what the last stream tagged k carried. */
  lemma {:induction false} FillSlots(streams: seq<seq<byte>>, pwd: seq<byte>, n: nat)
    requires Fill(streams, pwd, n).Ok?
    ensures forall k :: 0 <= k < n ==> Fill(streams, pwd, n).value[k] == LastPiece(streams, pwd, k)
  {
    if streams != [] {
      FillSlots(streams[..|streams| - 1], pwd, n);
    }
  }

  /** Any two streams whose tags name the same slot carry the same content. */
  predicate Consistent(streams: seq<seq<byte>>, pwd: seq<byte>) {
    forall x, y ::
      (x in streams && y in streams &&
       ParseStream(x, pwd).Piece? && ParseStream(y, pwd).Piece? &&
       ParseStream(x, pwd).index == ParseStream(y, pwd).index) ==>
      ParseStream(x, pwd).content == ParseStream(y, pwd).content
  }

  /** Streams whose tags each name the stream's own position never disagree about a slot. */
  lemma PositionTaggedConsistent(streams: seq<seq<byte>>, pwd: seq<byte>)
    requires forall i :: 0 <= i < |streams| && ParseStream(streams[i], pwd).Piece? ==> ParseStream(streams[i], pwd).index == i
    ensures Consistent(streams, pwd)
  {
    forall x, y | x in streams && y in streams &&
                  ParseStream(x, pwd).Piece? && ParseStream(y, pwd).Piece? &&
                  ParseStream(x, pwd).index == ParseStream(y, pwd).index
      ensures ParseStream(x, pwd).content == ParseStream(y, pwd).content
    {
      var a :| 0 <= a < |streams| && streams[a] == x;
      var b :| 0 <= b < |streams| && streams[b] == y;
    }
  }

  /** For consistent streams, slot k's content is a property of the set of streams, not of their order. */
  lemma {:induction false} LastPieceOfAny(streams: seq<seq<byte>>, pwd: seq<byte>, k: int)
    requires Consistent(streams, pwd)
    ensures forall x :: x in streams && ParseStream(x, pwd).Piece? && ParseStream(x, pwd).index == k ==>
              LastPiece(streams, pwd, k) == ParseStream(x, pwd).content
    ensures (forall x :: x in streams ==> !(ParseStream(x, pwd).Piece? && ParseStream(x, pwd).index == k)) ==>
              LastPiece(streams, pwd, k) == []
  {
    if streams != [] {
      var init := streams[..|streams| - 1];
      assert forall x :: x in init ==> x in streams;
      LastPieceOfAny(init, pwd, k);
      assert streams == init + [streams[|streams| - 1]];
    }
  }

  /**
   * Reassembly does not depend on the order in which the files were found:
   * any reordering of the same streams fails alike or yields the same payload,
   * provided no two streams claim one slot with different contents.
   */
  lemma OrderIndependent(a: seq<seq<byte>>, b: seq<seq<byte>>, pwd: seq<byte>)
    requires multiset(a) == multiset(b)
    requires Consistent(a, pwd)
    ensures DecodeStreams(a, pwd).Ok? <==> DecodeStreams(b, pwd).Ok?
    ensures DecodeStreams(a, pwd).Ok? ==> DecodeStreams(a, pwd) == DecodeStreams(b, pwd)
  {
    assert |a| == |multiset(a)| == |multiset(b)| == |b|;
    assert forall x :: x in a <==> x in multiset(a);
    assert forall x :: x in b <==> x in multiset(b);
    var n := |a|;
    FillOkIffAllAccepted(a, pwd, n);
    FillOkIffAllAccepted(b, pwd, n);
    if Fill(a, pwd, n).Ok? {
      var ta := Fill(a, pwd, n).value;
      var tb := Fill(b, pwd, n).value;
      FillSlots(a, pwd, n);
      FillSlots(b, pwd, n);
      forall k | 0 <= k < n
        ensures ta[k] == tb[k]
      {
        LastPieceOfAny(a, pwd, k);
        LastPieceOfAny(b, pwd, k);
      }
      assert ta == tb;
    }
  }

  /**
   * One turn of the decoding loop, stated on the table so far: each kind of
   * parse result either updates the table or fixes the final outcome.
   */
  lemma DecodeStep(all: seq<seq<byte>>, pwd: seq<byte>, i: nat, t: seq<seq<byte>>, p: Parsed)
    requires i < |all| && Fill(all[..i], pwd, |all|) == Ok(t) && p == ParseStream(all[i], pwd)
    ensures p.Skipped? ==> Fill(all[..i + 1], pwd, |all|) == Ok(t)
    ensures p.Rejected? ==> DecodeStreams(all, pwd) == Err(p.error)
    ensures p.Piece? && !(0 <= p.index < |all|) ==> DecodeStreams(all, pwd) == Err(SeqOutOfRange(p.index))
    ensures p.Piece? && 0 <= p.index < |all| ==> Fill(all[..i + 1], pwd, |all|) == Ok(t[p.index := p.content])
  {
    FillStep(all, pwd, |all|, i);
    if p.Rejected? || (p.Piece? && !(0 <= p.index < |all|)) {
      FillFailureSticks(all, pwd, |all|, i + 1);
    }
  }

  /**
   * The decoding loop of main: extract each image's stream, parse it,
   * store its content at the slot its tag names, then join the table.
   */
  method Decode(imgs: seq<Image>, pwd: seq<byte>) returns (r: Result<seq<byte>, DecodeError>)
    requires forall i :: 0 <= i < |imgs| ==> imgs[i].Valid()
    ensures r == DecodeStreams(old(StreamsOf(imgs)), pwd)
  {
    if |imgs| == 0 {
      return Err(NoFiles);
    }
    ghost var all := StreamsOf(imgs);
    var n := |imgs|;
    var pieces := new seq<byte>[n](_ => []);
    assert pieces[..] == seq(n, _ => []);
    for i := 0 to n
      invariant Fill(all[..i], pwd, n) == Ok(pieces[..])
    {
      var chunk := imgs[i].ExtractChunk();
      assert chunk == all[i];
      var parsed := ParseStream(chunk, pwd);
      DecodeStep(all, pwd, i, pieces[..], parsed);
      match parsed {
        case Skipped =>
        case Rejected(e) =>
          return Err(e);
        case Piece(k, content) =>
          if k < 0 || k >= n {
            return Err(SeqOutOfRange(k));
          }
          pieces[k] := content;
      }
    }
    assert all[..n] == all;
    var result := JoinPieces(pieces);
    r := Ok(result);
  }
}

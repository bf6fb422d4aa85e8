/**
 * The in-band byte format shared by both programs: the literal markers,
 * substring search as std::string::find does it, the cut of an extracted
 * stream at its first terminator, and in-order concatenation.
 */
module Wire {
  import opened Wrappers
  import opened BitCodec

  /** "@%#/": brackets the password in the tag of chunk 0. */
  const Delimiter: seq<byte> := [0x40, 0x25, 0x23, 0x2F]

  /** "###": ends every tag, and ends extraction. */
  const Terminator: seq<byte> := [0x23, 0x23, 0x23]

  /** "seq###": follows the sequence number in every tag. */
  const SeqMarker: seq<byte> := [0x73, 0x65, 0x71, 0x23, 0x23, 0x23]

  /** The ASCII code of '0'. */
  const Zero: byte := 0x30

  /** The ASCII code of the decimal digit d. */
  function DigitByte(d: nat): (r: byte)
    requires d < 10
    ensures r as int == Zero as int + d
  {
    (Zero as int + d) as byte
  }

  /** The length of the tail "<digit>seq###" that every tag ends with. */
  const TailLength: nat := 7

  /** pat occurs in s starting at index j. */
  predicate OccursAt(s: seq<byte>, pat: seq<byte>, j: nat) {
    j + |pat| <= |s| && s[j..j + |pat|] == pat
  }

  /** pat occurs nowhere in s. */
  predicate Free(s: seq<byte>, pat: seq<byte>) {
    forall j :: 0 <= j <= |s| ==> !OccursAt(s, pat, j)
  }

  /**
   * s.find(pat, from): the first index at or after from where pat occurs,
   * None standing for std::string::npos.
   */
  function Find(s: seq<byte>, pat: seq<byte>, from: nat): (r: Option<nat>)
    ensures r.Some? ==> from <= r.value && OccursAt(s, pat, r.value)
    ensures r.Some? ==> forall j: nat :: from <= j < r.value ==> !OccursAt(s, pat, j)
    ensures r.None? ==> forall j: nat :: from <= j ==> !OccursAt(s, pat, j)
    decreases |s| - from
  {
    if from + |pat| > |s| then None
    else if OccursAt(s, pat, from) then Some(from)
    else Find(s, pat, from + 1)
  }

  /** The last three bytes of s are "###". */
  predicate EndsWithTerminator(s: seq<byte>) {
    |s| >= 3 && s[|s| - 3..] == Terminator
  }

  /** s ends with "###" and no shorter prefix of s does. */
  predicate EndsAtFirstTerminator(s: seq<byte>) {
    EndsWithTerminator(s) && forall m :: 0 <= m < |s| ==> !EndsWithTerminator(s[..m])
  }

  /**
   * The length at which extraction stops, once the bytes b[..m] have been
   * produced without meeting "###": just after the next "###", or |b|.
   */
  function CutFrom(b: seq<byte>, m: nat): (r: nat)
    requires m <= |b|
    ensures m <= r <= |b|
    ensures forall j :: m < j < r ==> !EndsWithTerminator(b[..j])
    ensures r == |b| || EndsWithTerminator(b[..r])
    decreases |b| - m
  {
    if m == |b| then m
    else if EndsWithTerminator(b[..m + 1]) then m + 1
    else CutFrom(b, m + 1)
  }

  /**
   * The extracted stream: the bytes up to and including the first "###",
   * or all of them when there is none.
   */
  function CutAtTerminator(b: seq<byte>): (r: seq<byte>)
    ensures |r| <= |b| && r == b[..|r|]
    ensures EndsAtFirstTerminator(r) ||
            (r == b && forall m :: 0 <= m <= |b| ==> !EndsWithTerminator(b[..m]))
  {
    var n := CutFrom(b, 0);
    assert b[..n][..0] == [];
    if n < |b| || EndsWithTerminator(b[..n]) then
      assert forall m :: 0 <= m < n ==> b[..n][..m] == b[..m];
      b[..n]
    else
      assert b[..n] == b;
      b
  }

  /** One step of the scan: b[..m + 1] either ends the stream or the scan goes on. */
  lemma CutFromNext(b: seq<byte>, m: nat, out: seq<byte>)
    requires m < |b| && out == b[..m + 1]
    ensures CutFrom(b, m) == if EndsWithTerminator(out) then m + 1 else CutFrom(b, m + 1)
  {
  }

  lemma CutAtTerminatorIsCutFrom(b: seq<byte>)
    ensures CutAtTerminator(b) == b[..CutFrom(b, 0)]
  {
  }

  /** A stream that starts with s, where s ends at its first "###", is cut exactly after s. */
  lemma CutAtTerminatorPrefix(b: seq<byte>, s: seq<byte>)
    requires EndsAtFirstTerminator(s)
    requires |s| <= |b| && b[..|s|] == s
    ensures CutAtTerminator(b) == s
  {
    forall m | 0 <= m <= |s|
      ensures b[..m] == s[..m]
    {
      forall t | 0 <= t < m
        ensures b[..m][t] == s[..m][t]
      {
        assert s[t] == b[..|s|][t];
      }
    }
  }

  /** The first n bytes of s, then byte n: the first n + 1 bytes. */
  lemma TakeSnoc(s: seq<byte>, p: seq<byte>, x: byte)
    requires |p| < |s| && p == s[..|p|] && x == s[|p|]
    ensures p + [x] == s[..|p| + 1]
  {
    var l := p + [x];
    forall t | 0 <= t <= |p|
      ensures l[t] == s[..|p| + 1][t]
    {
    }
  }

  /** A piece of a piece of s is a piece of s. */
  lemma SliceOfSlice(s: seq<byte>, i: nat, e: nat, k: nat, n: nat)
    requires i <= e <= |s| && k + n <= e - i
    ensures s[i..e][k..k + n] == s[i + k..i + k + n]
  {
    var l := s[i..e][k..k + n];
    var r := s[i + k..i + k + n];
    forall t | 0 <= t < n
      ensures l[t] == r[t]
    {
    }
  }

  /** A pattern-free text stays pattern-free when cut down to a piece of it. */
  lemma FreeSlice(s: seq<byte>, pat: seq<byte>, i: nat, j: nat)
    requires i <= j <= |s| && Free(s, pat)
    ensures Free(s[i..j], pat)
  {
    forall k | 0 <= k <= j - i && OccursAt(s[i..j], pat, k)
      ensures false
    {
      SliceOfSlice(s, i, j, k, |pat|);
      assert OccursAt(s, pat, i + k);
    }
  }

  /** A text with the delimiter at f and again at e is the pieces around those two delimiters. */
  lemma SplitAround(s: seq<byte>, f: nat, e: nat)
    requires f + 4 <= e && OccursAt(s, Delimiter, f) && OccursAt(s, Delimiter, e)
    ensures s == s[..f] + Delimiter + s[f + 4..e] + Delimiter + s[e + 4..]
  {
    var w := s[..f] + Delimiter + s[f + 4..e] + Delimiter + s[e + 4..];
    assert |w| == |s|;
    forall k | 0 <= k < |s|
      ensures w[k] == s[k]
    {
      if k < f {
      } else if k < f + 4 {
        assert s[k] == s[f..f + 4][k - f];
      } else if k < e {
      } else if k < e + 4 {
        assert s[k] == s[e..e + 4][k - e];
      }
    }
  }

  /** Where no occurrence of pat starts between i and e, the piece s[i..e] does not hold pat. */
  lemma FreeBetween(s: seq<byte>, pat: seq<byte>, i: nat, e: nat)
    requires |pat| > 0 && i <= e <= |s|
    requires forall j: nat :: i <= j < e ==> !OccursAt(s, pat, j)
    ensures Free(s[i..e], pat)
  {
    forall k | 0 <= k <= e - i
      ensures !OccursAt(s[i..e], pat, k)
    {
      if k + |pat| <= e - i {
        SliceOfSlice(s, i, e, k, |pat|);
        assert !OccursAt(s, pat, i + k);
      }
    }
  }

  /**
   * Joining two texts free of "###" gives one free of it when a byte other
   * than '#' sits at the seam: every window straddling the seam holds both
   * a[|a| - 1] and b[0].
   */
  lemma FreeJoin(a: seq<byte>, b: seq<byte>)
    requires Free(a, Terminator) && Free(b, Terminator)
    requires (|a| > 0 && a[|a| - 1] != 0x23) || (|b| > 0 && b[0] != 0x23)
    ensures Free(a + b, Terminator)
  {
    var s := a + b;
    forall j | 0 <= j <= |s|
      ensures !OccursAt(s, Terminator, j)
    {
      if j + 3 > |s| {
      } else if j + 3 <= |a| {
        assert s[j..j + 3] == a[j..j + 3];
        assert !OccursAt(a, Terminator, j);
      } else if j >= |a| {
        assert s[j..j + 3] == b[j - |a|..j - |a| + 3];
        assert !OccursAt(b, Terminator, j - |a|);
      } else {
        assert s[|a|] != 0x23 || s[|a| - 1] != 0x23;
        assert s[j..j + 3][|a| - j] == s[|a|];
        assert s[j..j + 3][|a| - 1 - j] == s[|a| - 1];
      }
    }
  }

  /**
   * "@" opens the delimiter and appears nowhere else in it, so when the
   * delimiter sits at e in w and w[start..e] does not hold it, no
   * occurrence of the delimiter starts between start and e.
   */
  lemma NoDelimiterBefore(w: seq<byte>, start: nat, e: nat)
    requires start <= e && e + 4 <= |w|
    requires Free(w[start..e], Delimiter) && w[e..e + 4] == Delimiter
    ensures forall j :: start <= j < e ==> !OccursAt(w, Delimiter, j)
  {
    assert w[e] == w[e..e + 4][0];
    forall j | start <= j < e
      ensures !OccursAt(w, Delimiter, j)
    {
      if j + 4 <= e {
        SliceOfSlice(w, start, e, j - start, 4);
        assert !OccursAt(w[start..e], Delimiter, j - start);
      } else {
        assert w[j..j + 4][e - j] == w[e];
      }
    }
  }

  /** The parts joined in order, as result += s does over a vector of strings. */
  function Concat(parts: seq<seq<byte>>): (r: seq<byte>)
    ensures parts == [] ==> r == []
  {
    if parts == [] then [] else Concat(parts[..|parts| - 1]) + parts[|parts| - 1]
  }
}

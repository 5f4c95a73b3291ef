/** src/encryption.cpp, decryptDataFile: removing the 18-byte segment
    headers that buildMultiSegmentICC placed inside the encrypted file
    before it is decrypted. */
module HeaderStrip {
  import opened Bytes
  import Segmentation
  import BinaryIo

  /** HEADER_INDEX: the first header inside the encrypted file. */
  const HeaderIndex: nat := 0xFCB0
  /** PROFILE_HEADER_LENGTH: marker, length field and ICC header. */
  const ProfileHeaderLength: nat := 18
  /** COMMON_DIFF_VAL: the distance between two headers. */
  const CommonDiff: nat := 65537
  /** Where the encrypted file starts inside the segment train that
      follows the SOI: 851 bytes into the profile, less the 2 SOI bytes. */
  const FileOffset: nat := 849

  /** A position of the segment train reduced to the segment it lies in:
      0..17 are the header, 18..65536 the data. */
  function Phase(x: nat): (p: nat)
    ensures p < CommonDiff
  {
    if x < CommonDiff then x else Phase(x - CommonDiff)
  }

  /** Position i of a buffer that starts `off` bytes into a train of
      65537-byte segments is one of a segment's 18 header bytes. */
  predicate IsHeaderByte(i: nat, off: nat)
  {
    Phase(i + off) < ProfileHeaderLength
  }

  /** The positions the source removes: [h, h + 18) for every
      h = 0xFCB0 + k * 65537. */
  predicate InHeader(i: nat)
  {
    i >= HeaderIndex && (i - HeaderIndex) % CommonDiff < ProfileHeaderLength
  }

  /** Reference definition: the bytes of v that are not header bytes, in
      their original order. */
  function Filtered(v: seq<byte>, off: nat): (r: seq<byte>)
    ensures |r| <= |v|
  {
    if |v| == 0 then []
    else Filtered(v[..|v| - 1], off) + (if IsHeaderByte(|v| - 1, off) then [] else [v[|v| - 1]])
  }

  /** The d-th byte of segment k + 1 is the d-th byte of its segment. */
  lemma {:induction false} PhaseOf(k: nat, d: nat)
    requires d < CommonDiff
    ensures Phase(k * CommonDiff + d) == d
  {
    if k > 0 {
      PhaseOf(k - 1, d);
      assert k * CommonDiff + d - CommonDiff == (k - 1) * CommonDiff + d;
    }
  }

  lemma PhaseIsMod(x: nat)
    ensures Phase(x) == x % CommonDiff
  {
    PhaseOf(x / CommonDiff, x % CommonDiff);
  }

  /** The source's header positions are the header bytes of a buffer that
      starts FileOffset bytes into the segment train. */
  lemma HeaderPositions(i: nat)
    ensures InHeader(i) <==> IsHeaderByte(i, FileOffset)
  {
    if i < HeaderIndex {
      assert Phase(i + FileOffset) == i + FileOffset;
    } else {
      assert Phase(i + FileOffset) == Phase(i - HeaderIndex);
      PhaseIsMod(i - HeaderIndex);
    }
  }

  /** Filtering a prefix one byte longer. */
  lemma FilteredStep(v: seq<byte>, n: nat, off: nat)
    requires n < |v|
    ensures Filtered(v[..n + 1], off) == Filtered(v[..n], off) + (if IsHeaderByte(n, off) then [] else [v[n]])
  {
    assert v[..n + 1][..n] == v[..n];
  }

  /** A run of header bytes contributes nothing. */
  lemma {:induction false} FilteredSkip(v: seq<byte>, a: nat, b: nat, off: nat)
    requires a <= b <= |v|
    requires forall i :: a <= i < b ==> IsHeaderByte(i, off)
    ensures Filtered(v[..b], off) == Filtered(v[..a], off)
    decreases b - a
  {
    if a < b {
      FilteredSkip(v, a, b - 1, off);
      FilteredStep(v, b - 1, off);
    }
  }

  /** Filtering distributes over concatenation, the second part seen |a|
      bytes further into the train. */
  lemma {:induction false} FilteredAppend(a: seq<byte>, b: seq<byte>, off: nat)
    ensures Filtered(a + b, off) == Filtered(a, off) + Filtered(b, off + |a|)
    decreases |b|
  {
    if |b| == 0 {
      assert a + b == a;
    } else {
      var b' := b[..|b| - 1];
      assert (a + b)[..|a + b| - 1] == a + b';
      FilteredAppend(a, b', off);
      assert IsHeaderByte(|a + b| - 1, off) == IsHeaderByte(|b| - 1, off + |a|);
    }
  }

  /** Filtering only depends on the offset modulo the segment stride. */
  lemma {:induction false} FilteredPeriodic(v: seq<byte>, off: nat)
    ensures Filtered(v, off + CommonDiff) == Filtered(v, off)
    decreases |v|
  {
    if |v| > 0 {
      FilteredPeriodic(v[..|v| - 1], off);
      var i := |v| - 1;
      assert Phase(i + off + CommonDiff) == Phase(i + off);
    }
  }

  /** A stretch with no header byte is kept whole. */
  lemma {:induction false} FilteredNone(v: seq<byte>, off: nat)
    requires forall i :: 0 <= i < |v| ==> !IsHeaderByte(i, off)
    ensures Filtered(v, off) == v
    decreases |v|
  {
    if |v| > 0 {
      FilteredNone(v[..|v| - 1], off);
    }
  }

  /** A stretch made only of header bytes is dropped whole. */
  lemma {:induction false} FilteredAll(v: seq<byte>, off: nat)
    requires forall i :: 0 <= i < |v| ==> IsHeaderByte(i, off)
    ensures Filtered(v, off) == []
    decreases |v|
  {
    if |v| > 0 {
      FilteredAll(v[..|v| - 1], off);
    }
  }

  /** One segment: its 18-byte header is dropped and its data kept. */
  lemma FilteredSegment(h: seq<byte>, d: seq<byte>)
    requires |h| == ProfileHeaderLength && |d| <= Segmentation.SegmentDataSize
    ensures Filtered(h + d, 0) == d
  {
    FilteredAppend(h, d, 0);
    FilteredHeader(h);
    FilteredData(d);
    calc {
      Filtered(h + d, 0);
      Filtered(h, 0) + Filtered(d, ProfileHeaderLength);
      [] + d;
      d;
    }
  }

  lemma FilteredHeader(h: seq<byte>)
    requires |h| == ProfileHeaderLength
    ensures Filtered(h, 0) == []
  {
    HeaderBytesAtStart(|h|);
    FilteredAll(h, 0);
  }

  lemma FilteredData(d: seq<byte>)
    requires |d| <= Segmentation.SegmentDataSize
    ensures Filtered(d, ProfileHeaderLength) == d
  {
    DataBytesAfterHeader(|d|);
    FilteredNone(d, ProfileHeaderLength);
  }

  lemma HeaderBytesAtStart(n: nat)
    requires n <= ProfileHeaderLength
    ensures forall i :: 0 <= i < n ==> IsHeaderByte(i, 0)
  {
    forall i | 0 <= i < n
      ensures IsHeaderByte(i, 0)
    {
      assert Phase(i) == i;
    }
  }

  lemma DataBytesAfterHeader(n: nat)
    requires n <= Segmentation.SegmentDataSize
    ensures forall i :: 0 <= i < n ==> !IsHeaderByte(i, ProfileHeaderLength)
  {
    forall i | 0 <= i < n
      ensures !IsHeaderByte(i, ProfileHeaderLength)
    {
      assert Phase(i + ProfileHeaderLength) == i + ProfileHeaderLength;
    }
  }

  /** Dropping the header bytes of the emitted segments gives back the
      data they carry. */
  lemma {:induction false} FilteredEmitted(hs: seq<seq<byte>>, data: seq<byte>)
    requires |hs| >= 1 && Segmentation.HeadersSized(hs)
    requires (|hs| - 1) * Segmentation.SegmentDataSize <= |data| <= |hs| * Segmentation.SegmentDataSize
    ensures Filtered(Segmentation.EmitSegments(hs, data), 0) == data
  {
    var e := Segmentation.EmitSegments(hs, data);
    if |hs| == 1 {
      FilteredSegment(hs[0], data);
    } else {
      var n := Segmentation.SegmentDataSize;
      var rest := Segmentation.EmitSegments(hs[1..], data[n..]);
      var first := hs[0] + data[..n];
      assert e == first + rest && |first| == CommonDiff;
      FilteredSegment(hs[0], data[..n]);
      FilteredAppend(first, rest, 0);
      FilteredPeriodic(rest, 0);
      FilteredEmitted(hs[1..], data[n..]);
      calc {
        Filtered(e, 0);
        Filtered(first, 0) + Filtered(rest, CommonDiff);
        data[..n] + Filtered(rest, 0);
        data[..n] + data[n..];
        data;
      }
    }
  }

  /** A header, its data and whatever follows. */
  lemma FilteredParts(h: seq<byte>, d: seq<byte>, rest: seq<byte>)
    requires |h| == ProfileHeaderLength && |d| <= Segmentation.SegmentDataSize
    ensures Filtered((h + d) + rest, 0) == d + Filtered(rest, |h| + |d|)
  {
    FilteredAppend(h + d, rest, 0);
    FilteredSegment(h, d);
  }

  /** The part of a filtered buffer that lies behind its first k bytes,
      when those bytes are one header and then data. */
  lemma FilteredBehind(e: seq<byte>, k: nat)
    requires ProfileHeaderLength <= k <= |e| && k <= CommonDiff
    ensures Filtered(e, 0) == e[ProfileHeaderLength..k] + Filtered(e[k..], k)
  {
    var h, d, rest := e[..ProfileHeaderLength], e[ProfileHeaderLength..k], e[k..];
    assert e == (h + d) + rest;
    FilteredParts(h, d, rest);
  }

  /** Stripping undoes the segmentation: in the multi-segment profile the
      encrypted file starts at offset 851, and dropping the header bytes
      of everything from there on gives back the payload's bytes from 851
      onwards. */
  lemma StripUndoesSegmentation(segment: seq<byte>, soi: seq<byte>)
    requires |segment| > Segmentation.MaxFirstSegmentSize && |soi| >= 2
    ensures var r := Segmentation.BuildMultiSegmentIcc(segment, soi);
      Segmentation.ProfileDataSize <= |r| &&
      Filtered(r[Segmentation.ProfileDataSize..], FileOffset) == segment[Segmentation.ProfileDataSize..]
  {
    Segmentation.LastDataSizeFits(|segment|);
    var count := Segmentation.SegmentsRequired(|segment|);
    var w := BinaryIo.WriteBE(segment, Segmentation.SegmentsTotalIndex, count, 2);
    var data := w[20..];
    var hs := Segmentation.SegmentHeaders(count, Segmentation.LastLength(|segment|));
    var e := Segmentation.EmitSegments(hs, data);
    var r := Segmentation.BuildMultiSegmentIcc(segment, soi);
    assert r == soi[..2] + e;
    assert |data| <= count * Segmentation.SegmentDataSize;
    FilteredEmitted(hs, data);
    FilteredBehind(e, FileOffset);
    assert r[Segmentation.ProfileDataSize..] == e[FileOffset..];
    assert |e[ProfileHeaderLength..FileOffset]| == 831;
    assert data[831..] == segment[Segmentation.ProfileDataSize..];
  }

  /** The k-th header the loop meets covers 18 header bytes, and the
      segment data that follows it none. */
  lemma HeaderRun(k: nat, next: nat)
    requires next == HeaderIndex + k * CommonDiff
    ensures forall i :: next <= i < next + ProfileHeaderLength ==> IsHeaderByte(i, FileOffset)
    ensures forall i :: next + ProfileHeaderLength <= i < next + CommonDiff ==> !IsHeaderByte(i, FileOffset)
  {
    forall i | next <= i < next + CommonDiff
      ensures IsHeaderByte(i, FileOffset) == (i - next < ProfileHeaderLength)
    {
      PhaseOf(k + 1, i - next);
      assert i + FileOffset == (k + 1) * CommonDiff + (i - next);
    }
  }

  /** Copying a data byte down keeps the compacted prefix filtered and
      the unread rest untouched. */
  lemma CopyStep(v: seq<byte>, buf: seq<byte>, readPos: nat, writePos: nat)
    requires |buf| == |v| && writePos <= readPos < |v| && !IsHeaderByte(readPos, FileOffset)
    requires buf[..writePos] == Filtered(v[..readPos], FileOffset) && buf[readPos..] == v[readPos..]
    ensures var b := buf[writePos := buf[readPos]];
      b[..writePos + 1] == Filtered(v[..readPos + 1], FileOffset) && b[readPos + 1..] == v[readPos + 1..]
  {
    FilteredStep(v, readPos, FileOffset);
    assert buf[readPos] == v[readPos];
    var b := buf[writePos := buf[readPos]];
    assert b[..writePos + 1] == buf[..writePos] + [v[readPos]];
    assert b[readPos + 1..] == buf[readPos + 1..];
  }

  /** The stripping loop of decryptDataFile, compacting the buffer in
      place: whenever the read position reaches the next header it jumps
      over up to 18 bytes, otherwise it copies one byte down. */
  method StripHeaders(v: seq<byte>) returns (r: seq<byte>)
    ensures r == Filtered(v, FileOffset)
  {
    var buf := v;
    var limit := |v|;
    var readPos, writePos, next := 0, 0, HeaderIndex;
    ghost var k: nat := 0;
    forall i | 0 <= i < HeaderIndex
      ensures !IsHeaderByte(i, FileOffset)
    {
      assert Phase(i + FileOffset) == i + FileOffset;
    }
    while readPos < limit
      invariant |buf| == |v| && writePos <= readPos <= limit
      invariant next == HeaderIndex + k * CommonDiff && readPos <= next
      invariant forall i :: readPos <= i < next && i < limit ==> !IsHeaderByte(i, FileOffset)
      invariant buf[..writePos] == Filtered(v[..readPos], FileOffset)
      invariant buf[readPos..] == v[readPos..]
      decreases limit - readPos
    {
      if readPos == next {
        var skip := if ProfileHeaderLength < limit - readPos then ProfileHeaderLength else limit - readPos;
        HeaderRun(k, next);
        FilteredSkip(v, readPos, readPos + skip, FileOffset);
        readPos := readPos + skip;
        next := next + CommonDiff;
        k := k + 1;
        continue;
      }
      CopyStep(v, buf, readPos, writePos);
      buf := buf[writePos := buf[readPos]];
      writePos := writePos + 1;
      readPos := readPos + 1;
    }
    assert v[..readPos] == v;
    r := buf[..writePos];
  }
}
